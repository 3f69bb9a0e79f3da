// kernel/pmm.c: a word-packed bitmap of 4 KiB pages, and the set of pages it stands
// for as a sequence of flags (true = taken).
module PageBitmap {
  import opened Words
  import opened Bits
  import opened Multiboot

  const WORDS: nat := 32768

  // ------------------------------------------------------------------ bits in words

  type Word = w: nat | w < WORD32

  function PageMask(page: nat): (m: nat)
    ensures m < WORD32
  {
    Pow2Monotone(page % 32, 32);
    Pow2Values();
    Pow2(page % 32)
  }

  predicate Tested(words: seq<Word>, page: nat)
    requires page < 32 * |words|
  {
    And(words[page / 32], PageMask(page)) != 0
  }

  // The flags of the first n pages.
  function Flags(words: seq<Word>, n: nat): (bits: seq<bool>)
    requires n <= 32 * |words|
    ensures |bits| == n
    ensures forall p :: 0 <= p < n ==> bits[p] == Tested(words, p)
  {
    seq(n, p requires 0 <= p < n => Tested(words, p))
  }

  function SetPage(words: seq<Word>, page: nat): (r: seq<Word>)
    requires page < 32 * |words|
    ensures |r| == |words|
  {
    Pow2Values();
    OrBound(words[page / 32], PageMask(page), 32);
    words[page / 32 := Or(words[page / 32], PageMask(page))]
  }

  function ClearPage(words: seq<Word>, page: nat): (r: seq<Word>)
    requires page < 32 * |words|
    ensures |r| == |words|
  {
    AndNotBound(words[page / 32], PageMask(page));
    words[page / 32 := AndNot(words[page / 32], PageMask(page))]
  }

  lemma BitUpdate(w: nat, j: nat, k: nat)
    ensures And(Or(w, Pow2(j)), Pow2(k)) != 0 <==> j == k || And(w, Pow2(k)) != 0
    ensures And(AndNot(w, Pow2(j)), Pow2(k)) != 0 <==> j != k && And(w, Pow2(k)) != 0
  {
    TestBit(w, k);
    TestBit(Or(w, Pow2(j)), k);
    TestBit(AndNot(w, Pow2(j)), k);
    OrBit(w, Pow2(j), k);
    AndNotBit(w, Pow2(j), k);
    Pow2Bit(j, k);
  }

  lemma TestedAfterUpdate(words: seq<Word>, page: nat, q: nat)
    requires page < 32 * |words| && q < 32 * |words|
    ensures Tested(SetPage(words, page), q) == (q == page || Tested(words, q))
    ensures Tested(ClearPage(words, page), q) == (q != page && Tested(words, q))
  {
    BitUpdate(words[page / 32], page % 32, q % 32);
  }

  // Setting or clearing one bit is updating one flag.
  lemma FlagsAfterUpdate(words: seq<Word>, n: nat, page: nat)
    requires page < n <= 32 * |words|
    ensures Flags(SetPage(words, page), n) == Flags(words, n)[page := true]
    ensures Flags(ClearPage(words, page), n) == Flags(words, n)[page := false]
  {
    forall q | 0 <= q < n
      ensures Tested(SetPage(words, page), q) == Flags(words, n)[page := true][q]
      ensures Tested(ClearPage(words, page), q) == Flags(words, n)[page := false][q]
    {
      TestedAfterUpdate(words, page, q);
    }
  }

  lemma FlagsAfterAppend(words: seq<Word>, n: nat)
    requires n < 32 * |words|
    ensures Flags(SetPage(words, n), n + 1) == Flags(words, n) + [true]
    ensures Flags(ClearPage(words, n), n + 1) == Flags(words, n) + [false]
  {
    FlagsAfterUpdate(words, n + 1, n);
    assert Flags(words, n + 1)[n := true] == Flags(words, n) + [true];
    assert Flags(words, n + 1)[n := false] == Flags(words, n) + [false];
  }

  // ----------------------------------------------------------------- specification

  function LowestFree(bits: seq<bool>): (i: nat)
    ensures i <= |bits|
    ensures i < |bits| ==> !bits[i]
    ensures forall j :: 0 <= j < i ==> bits[j]
  {
    if bits == [] || !bits[0] then 0 else 1 + LowestFree(bits[1..])
  }

  function CountFree(bits: seq<bool>): nat {
    if bits == [] then 0 else (if bits[0] then 0 else 1) + CountFree(bits[1..])
  }

  lemma {:induction false} CountAppend(a: seq<bool>, b: seq<bool>)
    ensures CountFree(a + b) == CountFree(a) + CountFree(b)
  {
    if a == [] {
      assert a + b == b;
    } else {
      assert (a + b)[1..] == a[1..] + b;
      CountAppend(a[1..], b);
    }
  }

  lemma CountUpdate(bits: seq<bool>, i: nat, taken: bool)
    requires i < |bits| && bits[i] == !taken
    ensures CountFree(bits[i := taken]) == CountFree(bits) + (if taken then -1 else 1)
  {
    assert bits == bits[..i] + ([bits[i]] + bits[i + 1..]);
    assert bits[i := taken] == bits[..i] + ([taken] + bits[i + 1..]);
    CountAppend(bits[..i], [bits[i]] + bits[i + 1..]);
    CountAppend(bits[..i], [taken] + bits[i + 1..]);
  }

  // What pmm_alloc answers: the address of the lowest free page, or 0.
  function AllocAnswer(bits: seq<bool>): nat {
    if LowestFree(bits) < |bits| then LowestFree(bits) * PAGE_SIZE else 0
  }

  function AllocEffect(bits: seq<bool>): seq<bool> {
    if LowestFree(bits) < |bits| then bits[LowestFree(bits) := true] else bits
  }

  // The answer 0 means "no page" exactly when page 0 is not the lowest free one.
  lemma ZeroAnswer(bits: seq<bool>)
    ensures AllocAnswer(bits) == 0 <==> (forall i :: 0 <= i < |bits| ==> bits[i]) || (|bits| > 0 && !bits[0])
    ensures |bits| <= 32 * WORDS ==> AllocAnswer(bits) + PAGE_SIZE <= WORD32
  {
  }

  lemma FreeUndoesAlloc(bits: seq<bool>)
    requires AllocAnswer(bits) != 0
    ensures var i := AllocAnswer(bits) / 4096;
            i < |bits| && !bits[i] && AllocEffect(bits)[i] && AllocEffect(bits)[i := false] == bits
  {
  }

  // pmm_alloc, flag by flag: it answers the lowest page that is free, and takes it; with
  // none free it answers 0 and takes nothing.
  lemma AllocTakesLowest(bits: seq<bool>, p: nat)
    requires p < |bits| && !bits[p] && forall j :: 0 <= j < p ==> bits[j]
    ensures AllocAnswer(bits) == p * 4096 && AllocEffect(bits) == bits[p := true]
  {
  }

  lemma AllocFindsNone(bits: seq<bool>)
    requires forall j :: 0 <= j < |bits| ==> bits[j]
    ensures AllocAnswer(bits) == 0 && AllocEffect(bits) == bits
  {
  }

  ghost function FreePages(bits: seq<bool>): set<nat> {
    set p: nat | p < |bits| && !bits[p]
  }

  // free_pages counts the free pages.
  lemma {:induction false} CountIsCardinality(bits: seq<bool>)
    ensures CountFree(bits) == |FreePages(bits)|
  {
    if bits == [] {
      assert FreePages(bits) == {};
    } else {
      var n := |bits| - 1;
      var init := bits[..n];
      CountIsCardinality(init);
      CountAppend(init, [bits[n]]);
      assert bits == init + [bits[n]];
      assert CountFree([bits[n]]) == if bits[n] then 0 else 1;
      assert FreePages(bits) == if bits[n] then FreePages(init) else FreePages(init) + {n};
    }
  }

  // ------------------------------------------------------ what pmm_init makes of a map

  // pmm_init keeps the low 32 bits of a length.
  function PagesIn(e: Entry): nat {
    e.length % WORD32 / PAGE_SIZE
  }

  function Repeated(n: nat, taken: bool): (bits: seq<bool>)
    ensures |bits| == n && forall i :: 0 <= i < n ==> bits[i] == taken
  {
    seq(n, _ => taken)
  }

  lemma OneMore(n: nat, taken: bool)
    ensures Repeated(n + 1, taken) == Repeated(n, taken) + [taken]
  {
  }

  function MapFlags(es: seq<Entry>): seq<bool> {
    if es == [] then []
    else MapFlags(es[..|es| - 1]) + Repeated(PagesIn(es[|es| - 1]), es[|es| - 1].kind != 1)
  }

  // An entry adds a flag for each 4096 bytes of the low half of its length, free for
  // kind 1.
  lemma MapFlagsGrow(es: seq<Entry>, e: Entry)
    ensures MapFlags([]) == []
    ensures MapFlags(es + [e]) == MapFlags(es) + seq(e.length % 0x1_0000_0000 / 4096, _ => e.kind != 1)
  {
    assert (es + [e])[..|es|] == es;
  }

  lemma {:induction false} MapFlagsPrefix(es: seq<Entry>, k: nat)
    requires k <= |es|
    ensures |MapFlags(es[..k])| <= |MapFlags(es)|
  {
    if k < |es| {
      MapFlagsPrefix(es[..|es| - 1], k);
      assert es[..|es| - 1][..k] == es[..k];
    } else {
      assert es[..k] == es;
    }
  }

  lemma MapFlagsNext(es: seq<Entry>, k: nat)
    requires k < |es|
    ensures MapFlags(es[..k + 1]) == MapFlags(es[..k]) + Repeated(PagesIn(es[k]), es[k].kind != 1)
    ensures |MapFlags(es[..k])| + PagesIn(es[k]) <= |MapFlags(es)|
  {
    assert es[..k + 1][..k] == es[..k];
    MapFlagsPrefix(es, k + 1);
  }

  function MapLength(es: seq<Entry>): nat {
    if es == [] then 0 else MapLength(es[..|es| - 1]) + es[|es| - 1].length
  }

  // The entries cover memory from 0 without a hole, in whole pages, each below 4 GiB.
  predicate Contiguous(es: seq<Entry>) {
    forall i :: 0 <= i < |es| ==>
      es[i].base == MapLength(es[..i]) && es[i].length % PAGE_SIZE == 0 && es[i].length < WORD32
  }

  predicate InEntry(e: Entry, page: nat) {
    e.base <= page * PAGE_SIZE < e.base + e.length
  }

  predicate Usable(es: seq<Entry>, page: nat) {
    exists i :: 0 <= i < |es| && es[i].kind == 1 && InEntry(es[i], page)
  }

  lemma UsableLast(es: seq<Entry>, p: nat)
    requires es != []
    ensures var last := es[|es| - 1];
            Usable(es, p) <==> Usable(es[..|es| - 1], p) || (last.kind == 1 && InEntry(last, p))
  {
    var init := es[..|es| - 1];
    if Usable(init, p) {
      var i :| 0 <= i < |init| && init[i].kind == 1 && InEntry(init[i], p);
      assert es[i].kind == 1 && InEntry(es[i], p);
    }
    if Usable(es, p) {
      var i :| 0 <= i < |es| && es[i].kind == 1 && InEntry(es[i], p);
      if i < |init| { assert init[i].kind == 1 && InEntry(init[i], p); }
    }
  }

  lemma LastEntryPages(last: Entry, first: nat, p: nat)
    requires last.base == first * PAGE_SIZE && last.length % PAGE_SIZE == 0 && last.length < WORD32
    ensures PagesIn(last) * PAGE_SIZE == last.length
    ensures InEntry(last, p) <==> first <= p < first + PagesIn(last)
  {
  }

  // On a contiguous map, flag p says whether frame p is unusable, for every frame the
  // map covers.
  lemma {:induction false} MapFlagsAreFrames(es: seq<Entry>, p: nat)
    requires Contiguous(es)
    ensures |MapFlags(es)| * PAGE_SIZE == MapLength(es)
    ensures p < |MapFlags(es)| ==> (MapFlags(es)[p] <==> !Usable(es, p))
    ensures p >= |MapFlags(es)| ==> !Usable(es, p)
  {
    if es != [] {
      var init, last := es[..|es| - 1], es[|es| - 1];
      ContiguousInit(es);
      MapFlagsAreFrames(init, p);
      LastEntryPages(last, |MapFlags(init)|, p);
      UsableLast(es, p);
    }
  }

  lemma ContiguousInit(es: seq<Entry>)
    requires Contiguous(es) && es != []
    ensures Contiguous(es[..|es| - 1])
  {
    var init := es[..|es| - 1];
    assert forall i :: 0 <= i < |init| ==> init[..i] == es[..i] && init[i] == es[i];
  }

  // What pmm_init counts, with the 32-bit lengths.
  function PageTotal(es: seq<Entry>): nat {
    if es == [] then 0 else PageTotal(es[..|es| - 1]) + PagesIn(es[|es| - 1])
  }

  lemma {:induction false} FlagCount(es: seq<Entry>)
    ensures |MapFlags(es)| == PageTotal(es)
  {
    if es != [] { FlagCount(es[..|es| - 1]); }
  }

  // The bitmap tells usable frames from the rest, and covers all usable ones.
  ghost predicate FlagsAreFrames(es: seq<Entry>) {
    forall p: nat :: Usable(es, p) <==> p < |MapFlags(es)| && !MapFlags(es)[p]
  }

  // And its pages fit the array: pmm_init does not look where it writes.
  ghost predicate Understood(es: seq<Entry>) {
    |MapFlags(es)| <= 32 * WORDS && FlagsAreFrames(es)
  }

  // Entries in address order that do not overlap, in whole pages.
  predicate Ordered(es: seq<Entry>) {
    (forall i :: 0 <= i < |es| ==> es[i].base % PAGE_SIZE == 0 && es[i].length % PAGE_SIZE == 0) &&
    forall i, j :: 0 <= i < j < |es| ==> es[i].base + es[i].length <= es[j].base
  }

  predicate Offers(e: Entry) {
    e.kind == 1 && e.length > 0
  }

  // One past the last entry that offers memory; 0 if none does.
  function UsableUpTo(es: seq<Entry>): (k: nat)
    ensures k <= |es| && (k > 0 ==> Offers(es[k - 1]))
    ensures forall i :: k <= i < |es| ==> !Offers(es[i])
  {
    if es == [] then 0 else if Offers(es[|es| - 1]) then |es| else UsableUpTo(es[..|es| - 1])
  }

  // Where the bitmap stands before entry k, and the bytes the entries before it hold.
  function Placed(es: seq<Entry>, k: nat): nat
    requires k <= |es|
  {
    |MapFlags(es[..k])| * PAGE_SIZE
  }

  function BytesBefore(es: seq<Entry>, k: nat): nat
    requires k <= |es|
  {
    MapLength(es[..k])
  }

  lemma PagesBelow(e: Entry)
    ensures PagesIn(e) * PAGE_SIZE <= e.length
    ensures e.length % PAGE_SIZE == 0 && PagesIn(e) * PAGE_SIZE == e.length ==> e.length < WORD32
  {
  }

  lemma NextEntry(es: seq<Entry>, k: nat)
    requires k < |es|
    ensures Placed(es, k + 1) == Placed(es, k) + PagesIn(es[k]) * PAGE_SIZE
    ensures BytesBefore(es, k + 1) == BytesBefore(es, k) + es[k].length
  {
    assert es[..k + 1][..k] == es[..k];
  }

  // Page counts never run ahead of the addresses.
  lemma {:induction false} NeverAhead(es: seq<Entry>, k: nat)
    requires Ordered(es) && k < |es|
    ensures Placed(es, k) <= BytesBefore(es, k) <= es[k].base
  {
    if k > 0 {
      NeverAhead(es, k - 1);
      NextEntry(es, k - 1);
      PagesBelow(es[k - 1]);
    }
  }

  // Where the bitmap reaches an entry's base, it reached all the earlier ones too.
  lemma {:induction false} ReachedEarlier(es: seq<Entry>, k: nat, i: nat)
    requires Ordered(es) && i <= k < |es| && Placed(es, k) == es[k].base && es[k].length < WORD32
    ensures es[i].base == BytesBefore(es, i) && es[i].length < WORD32
    decreases k
  {
    NeverAhead(es, k);
    if i < k {
      NeverAhead(es, k - 1);
      NextEntry(es, k - 1);
      PagesBelow(es[k - 1]);
      ReachedEarlier(es, k - 1, i);
    }
  }

  lemma ReachedIsContiguous(es: seq<Entry>, k: nat)
    requires Ordered(es) && k < |es| && Placed(es, k) == es[k].base && es[k].length < WORD32
    ensures Contiguous(es[..k + 1])
  {
    var front := es[..k + 1];
    forall i | 0 <= i < |front|
      ensures front[i].base == MapLength(front[..i]) && front[i].length % PAGE_SIZE == 0 && front[i].length < WORD32
    {
      assert front[..i] == es[..i];
      ReachedEarlier(es, k, i);
    }
  }

  // An entry that offers nothing adds only taken pages and no usable frame.
  lemma NothingOffered(es: seq<Entry>, p: nat)
    requires es != [] && !Offers(es[|es| - 1])
    ensures Usable(es, p) <==> Usable(es[..|es| - 1], p)
    ensures var f := MapFlags(es[..|es| - 1]);
            |f| <= |MapFlags(es)| && (p < |MapFlags(es)| ==> MapFlags(es)[p] == if p < |f| then f[p] else true)
  {
    UsableLast(es, p);
  }

  // Behind the last usable entry every flag is taken and no frame is usable.
  lemma {:induction false} RestIsTaken(es: seq<Entry>, k: nat, p: nat)
    requires UsableUpTo(es) <= k <= |es|
    ensures Usable(es, p) <==> Usable(es[..k], p)
    ensures var f := MapFlags(es[..k]);
            |f| <= |MapFlags(es)| && (p < |MapFlags(es)| ==> MapFlags(es)[p] == if p < |f| then f[p] else true)
    decreases |es|
  {
    if k < |es| {
      NothingOffered(es, p);
      assert es[..|es| - 1][..k] == es[..k];
      RestIsTaken(es[..|es| - 1], k, p);
    } else {
      assert es[..k] == es;
    }
  }

  lemma ContiguousIsExact(es: seq<Entry>)
    requires Contiguous(es[..UsableUpTo(es)])
    ensures FlagsAreFrames(es)
  {
    var k := UsableUpTo(es);
    forall p: nat ensures Usable(es, p) <==> p < |MapFlags(es)| && !MapFlags(es)[p] {
      RestIsTaken(es, k, p);
      MapFlagsAreFrames(es[..k], p);
    }
  }

  // A frame at the end of an entry is flagged only if the bitmap got there.
  lemma ReachesEnd(es: seq<Entry>, k: nat)
    requires Ordered(es) && k < |es| && es[k].base + es[k].length <= Placed(es, k + 1)
    ensures Placed(es, k) == es[k].base && es[k].length < WORD32
  {
    NeverAhead(es, k);
    NextEntry(es, k);
    PagesBelow(es[k]);
  }

  lemma LastFrame(es: seq<Entry>, k: nat) returns (q: nat)
    requires k < |es| && Offers(es[k]) && es[k].base % PAGE_SIZE == 0 && es[k].length % PAGE_SIZE == 0
    ensures Usable(es, q) && (q + 1) * PAGE_SIZE == es[k].base + es[k].length
  {
    q := (es[k].base + es[k].length) / PAGE_SIZE - 1;
    assert InEntry(es[k], q);
  }

  lemma OfferedIsReached(es: seq<Entry>, k: nat, q: nat)
    requires FlagsAreFrames(es) && Usable(es, q) && k == UsableUpTo(es)
    ensures (q + 1) * PAGE_SIZE <= Placed(es, k)
  {
    RestIsTaken(es, k, q);
  }

  lemma ExactReaches(es: seq<Entry>, k: nat)
    requires Ordered(es) && FlagsAreFrames(es) && k + 1 == UsableUpTo(es)
    ensures Placed(es, k) == es[k].base && es[k].length < WORD32
  {
    var q := LastFrame(es, k);
    OfferedIsReached(es, k + 1, q);
    ReachesEnd(es, k);
  }

  lemma ExactIsContiguous(es: seq<Entry>)
    requires Ordered(es) && FlagsAreFrames(es)
    ensures Contiguous(es[..UsableUpTo(es)])
  {
    var k := UsableUpTo(es);
    if k > 0 {
      ExactReaches(es, k - 1);
      ReachedIsContiguous(es, k - 1);
    }
  }

  // pmm_init understands an ordered map exactly when it counts at most 2^20 pages and the
  // entries up to the last usable one follow each other from 0, each below 4 GiB long.
  lemma MapIsUnderstoodIff(es: seq<Entry>)
    requires Ordered(es)
    ensures Understood(es) <==> PageTotal(es) <= 0x10_0000 && Contiguous(es[..UsableUpTo(es)])
  {
    FlagCount(es);
    if Contiguous(es[..UsableUpTo(es)]) { ContiguousIsExact(es); }
    if FlagsAreFrames(es) { ExactIsContiguous(es); }
  }

  // From the bytes of the block to the flags: what pmm_init makes of a contiguous map.
  lemma MapBlockFlags(m: seq<Byte>, mbi: nat, es: seq<Entry>, p: nat)
    requires IsMapBlock(m, mbi, es) && Contiguous(es)
    ensures GoodInfo(m, mbi)
    ensures var flags := MapFlags(MapEntries(m, mbi));
            |flags| * 4096 == MapLength(es) && (p < |flags| ==> (flags[p] <==> !Usable(es, p)))
  {
    MapBlockIsRead(m, mbi, es);
    MapFlagsAreFrames(es, p);
  }

  // base_addr is never read: with a hole in the map a frame no entry covers is
  // offered as free, and a 4 GiB entry contributes no page at all.
  lemma HolesAndHugeEntriesAreMisread()
    ensures var holed := [Entry(0, 4096, 1), Entry(8192, 4096, 1)];
            |MapFlags(holed)| == 2 && !MapFlags(holed)[1] && !Usable(holed, 1)
    ensures MapFlags([Entry(0, WORD32, 1)]) == []
  {
    var holed := [Entry(0, 4096, 1), Entry(8192, 4096, 1)];
    assert holed[..1] == [holed[0]];
    assert MapFlags(holed[..1]) == [false] by { assert holed[..1][..0] == []; }
    assert MapFlags(holed) == MapFlags(holed[..1]) + [false];
  }

  // 6 GiB without a hole: the flags would be right, but a third of them lie behind the
  // bitmap.
  lemma SixGigabytesOverrun()
    ensures var es := [Entry(0, 0x8000_0000, 1), Entry(0x8000_0000, 0x8000_0000, 2), Entry(WORD32, 0x8000_0000, 1)];
            Ordered(es) && FlagsAreFrames(es) && PageTotal(es) == 0x18_0000 && !Understood(es)
  {
    var es := [Entry(0, 0x8000_0000, 1), Entry(0x8000_0000, 0x8000_0000, 2), Entry(WORD32, 0x8000_0000, 1)];
    assert es[..0] == [] && es[..1] == [es[0]] && es[..2] == [es[0], es[1]] && es[..3] == es;
    assert MapLength(es[..1]) == 0x8000_0000 by { assert es[..1][..0] == []; }
    assert MapLength(es[..2]) == WORD32 by { assert es[..2][..1] == es[..1]; }
    assert PageTotal(es[..1]) == 0x8_0000 by { assert es[..1][..0] == []; }
    assert PageTotal(es[..2]) == 0x10_0000 by { assert es[..2][..1] == es[..1]; }
    ContiguousIsExact(es);
    FlagCount(es);
  }

  // The walk stands at the k-th entry, or at 0 behind the last one.
  predicate AtEntry(m: seq<Byte>, mbi: nat, entry: nat, k: nat)
    requires GoodInfo(m, mbi)
  {
    var n := |MapEntries(m, mbi)|;
    if entry == 0 then k == n else MapOf(m, mbi) != 0 && k < n && entry == EntryAddr(m, MapOf(m, mbi), k)
  }

  // ------------------------------------------------------------------------- pmm.c

  class Pmm {
    var bitmap: array<Word>
    var pagesNum: nat
    var freePages: nat

    ghost predicate Valid()
      reads this, bitmap
    {
      bitmap.Length == WORDS && pagesNum <= 32 * WORDS && freePages == CountFree(Flags(bitmap[..], pagesNum))
    }

    ghost function Bits(): (bits: seq<bool>)
      requires Valid()
      reads this, bitmap
      ensures |bits| == pagesNum
    {
      Flags(bitmap[..], pagesNum)
    }

    constructor ()
      ensures Valid() && fresh(bitmap) && Bits() == []
    {
      bitmap := new Word[WORDS](_ => 0);
      pagesNum := 0;
      freePages := 0;
    }

    method BitmapSet(page: nat)
      requires page < 32 * bitmap.Length
      modifies bitmap
      ensures bitmap[..] == SetPage(old(bitmap[..]), page)
    {
      Pow2Values();
      OrBound(bitmap[page / 32], PageMask(page), 32);
      bitmap[page / 32] := Or(bitmap[page / 32], PageMask(page));
    }

    method BitmapClear(page: nat)
      requires page < 32 * bitmap.Length
      modifies bitmap
      ensures bitmap[..] == ClearPage(old(bitmap[..]), page)
    {
      AndNotBound(bitmap[page / 32], PageMask(page));
      bitmap[page / 32] := AndNot(bitmap[page / 32], PageMask(page));
    }

    method BitmapTest(page: nat) returns (taken: bool)
      requires bitmap.Length == WORDS && page < 32 * WORDS
      ensures taken == Tested(bitmap[..], page)
      ensures taken <==> BitAt(bitmap[page / 32], page % 32)
    {
      TestBit(bitmap[page / 32], page % 32);
      taken := And(bitmap[page / 32], PageMask(page)) != 0;
    }

    // The two inner loops of pmm_init, and their bodies.
    method AppendFreePage()
      requires Valid() && pagesNum < 32 * WORDS
      modifies this`pagesNum, this`freePages, bitmap
      ensures Valid() && Bits() == old(Bits()) + [false]
    {
      FlagsAfterAppend(bitmap[..], pagesNum);
      CountAppend(Bits(), [false]);
      BitmapClear(pagesNum);
      pagesNum := pagesNum + 1;
      freePages := freePages + 1;
    }

    method AppendTakenPage()
      requires Valid() && pagesNum < 32 * WORDS
      modifies this`pagesNum, bitmap
      ensures Valid() && Bits() == old(Bits()) + [true]
    {
      FlagsAfterAppend(bitmap[..], pagesNum);
      CountAppend(Bits(), [true]);
      BitmapSet(pagesNum);
      pagesNum := pagesNum + 1;
    }

    method AppendFreePages(count: nat)
      requires Valid() && pagesNum + count <= 32 * WORDS
      modifies this`pagesNum, this`freePages, bitmap
      ensures Valid() && Bits() == old(Bits()) + Repeated(count, false)
    {
      ghost var was := Bits();
      for i := 0 to count
        invariant Valid() && bitmap == old(bitmap) && Bits() == was + Repeated(i, false)
      {
        AppendFreePage();
        OneMore(i, false);
      }
    }

    method AppendTakenPages(count: nat)
      requires Valid() && pagesNum + count <= 32 * WORDS
      modifies this`pagesNum, bitmap
      ensures Valid() && Bits() == old(Bits()) + Repeated(count, true)
    {
      ghost var was := Bits();
      for i := 0 to count
        invariant Valid() && bitmap == old(bitmap) && Bits() == was + Repeated(i, true)
      {
        AppendTakenPage();
        OneMore(i, true);
      }
    }

    // One turn of the outer loop of pmm_init.
    method AppendEntry(e: Entry)
      requires Valid() && pagesNum + PagesIn(e) <= 32 * WORDS
      modifies this`pagesNum, this`freePages, bitmap
      ensures Valid() && Bits() == old(Bits()) + Repeated(PagesIn(e), e.kind != 1)
    {
      if e.kind == 1 {
        AppendFreePages(PagesIn(e));
      } else {
        AppendTakenPages(PagesIn(e));
      }
    }

    // The whole turn: append the entry at address `entry`, the k-th, and step to the next.
    method InitStep(m: seq<Byte>, mbi: nat, entry: nat, ghost k: nat) returns (next: nat)
      requires Valid() && GoodInfo(m, mbi) && AtEntry(m, mbi, entry, k) && entry != 0
      requires Bits() == MapFlags(MapEntries(m, mbi)[..k])
      requires |MapFlags(MapEntries(m, mbi))| <= 32 * WORDS
      modifies this`pagesNum, this`freePages, bitmap
      ensures Valid() && AtEntry(m, mbi, next, k + 1)
      ensures Bits() == MapFlags(MapEntries(m, mbi)[..k + 1])
    {
      ghost var tag := MapOf(m, mbi);
      EntryListed(m, tag, k);
      MapFlagsNext(MapEntries(m, mbi), k);
      AppendEntry(EntryAt(m, entry));
      next := MmapNext(m, mbi, entry);
      SuccessorStep(m, tag, k);
    }

    // pmm_init: the flags are those of the map's entries laid end to end. The map holds
    // an entry and its pages fit the bitmap; on the maps of MapIsUnderstoodIff those are
    // the frames.
    method Init(m: seq<Byte>, mbi: nat)
      requires bitmap.Length == WORDS && GoodInfo(m, mbi)
      requires MapOf(m, mbi) != 0 ==> MapEntries(m, mbi) != []
      requires |MapFlags(MapEntries(m, mbi))| <= 32 * WORDS
      modifies this`pagesNum, this`freePages, bitmap
      ensures Valid() && Bits() == MapFlags(MapEntries(m, mbi))
    {
      ghost var es := MapEntries(m, mbi);
      var entry := MmapFirst(m, mbi);
      pagesNum, freePages := 0, 0;
      ghost var k := 0;
      while entry != 0
        invariant Valid() && bitmap == old(bitmap) && AtEntry(m, mbi, entry, k) && Bits() == MapFlags(es[..k])
        decreases |es| - k
      {
        entry := InitStep(m, mbi, entry, k);
        k := k + 1;
      }
      assert es[..k] == es;
    }

    // Hands out the lowest free page and nothing else changes.
    method Alloc() returns (addr: nat)
      requires Valid()
      modifies this`freePages, bitmap
      ensures Valid() && pagesNum == old(pagesNum)
      ensures addr == AllocAnswer(old(Bits())) && Bits() == AllocEffect(old(Bits()))
    {
      ghost var was := Bits();
      for i := 0 to pagesNum
        invariant Valid() && Bits() == was && unchanged(this) && unchanged(bitmap)
        invariant forall j :: 0 <= j < i ==> was[j]
      {
        var taken := BitmapTest(i);
        if !taken {
          assert LowestFree(was) == i;
          ghost var words := bitmap[..];
          BitmapSet(i);
          CountUpdate(was, i, true);
          freePages := freePages - 1;
          FlagsAfterUpdate(words, pagesNum, i);
          return i * PAGE_SIZE;
        }
      }
      assert LowestFree(was) == |was|;
      addr := 0;
    }

    // The caller owns the page it gives back.
    method Free(addr: nat)
      requires Valid()
      requires addr / PAGE_SIZE < pagesNum && Bits()[addr / PAGE_SIZE]
      modifies this`freePages, bitmap
      ensures Valid() && pagesNum == old(pagesNum)
      ensures Bits() == old(Bits())[addr / PAGE_SIZE := false]
    {
      ghost var was := Bits();
      freePages := freePages + 1;
      ghost var words := bitmap[..];
      BitmapClear(addr / PAGE_SIZE);
      FlagsAfterUpdate(words, pagesNum, addr / PAGE_SIZE);
      CountUpdate(was, addr / PAGE_SIZE, false);
    }
  }
}
