// include/multiboot.h and the memory-map walk of kernel/memory.c: the Multiboot2
// information block (sections 3.6.2 and 3.6.8 of the Multiboot2 Specification 2.0)
// as bytes at its load address.
module Multiboot {
  import opened Words
  import opened Bytes

  const INFO_SIZE: nat := 8
  const TAG_END: nat := 0
  const TAG_MMAP: nat := 6
  const MMAP_HEADER: nat := 16
  const MIN_ENTRY: nat := 24

  function TagType(m: seq<Byte>, tag: nat): nat
    requires InBounds(m, tag, 8)
  {
    Load32(m, tag)
  }

  function TagSize(m: seq<Byte>, tag: nat): nat
    requires InBounds(m, tag, 8)
  {
    Load32(m, tag + 4)
  }

  // mb2_next_tag: past the tag, rounded up to the next multiple of eight.
  function NextTag(m: seq<Byte>, tag: nat): (next: nat)
    requires InBounds(m, tag, 8)
    ensures next % 8 == 0
    ensures tag + TagSize(m, tag) <= next < tag + TagSize(m, tag) + 8
  {
    (tag + TagSize(m, tag) + 7) / 8 * 8
  }

  // A tag list that ends: every tag has at least its own header and lies in memory,
  // and an end tag comes.
  predicate TagsFrom(m: seq<Byte>, tag: nat)
    decreases |m| - tag
  {
    InBounds(m, tag, 8) && InBounds(m, tag, TagSize(m, tag)) &&
    (TagType(m, tag) != TAG_END ==> TagSize(m, tag) >= 8 && TagsFrom(m, NextTag(m, tag)))
  }

  // The tags before the end tag, in order.
  function Tags(m: seq<Byte>, tag: nat): (r: seq<nat>)
    requires TagsFrom(m, tag)
    decreases |m| - tag
  {
    if TagType(m, tag) == TAG_END then [] else [tag] + Tags(m, NextTag(m, tag))
  }

  lemma {:induction false} TagsAreTags(m: seq<Byte>, start: nat)
    requires TagsFrom(m, start)
    ensures forall i :: 0 <= i < |Tags(m, start)| ==>
              var t := Tags(m, start)[i];
              InBounds(m, t, 8) && InBounds(m, t, TagSize(m, t)) && start <= t && TagType(m, t) != TAG_END
    decreases |m| - start
  {
    if TagType(m, start) != TAG_END { TagsAreTags(m, NextTag(m, start)); }
  }

  // mb2_find_tag: the first tag of the wanted type, or 0.
  method FindTag(m: seq<Byte>, mbi: nat, wanted: nat) returns (tag: nat)
    requires TagsFrom(m, mbi + INFO_SIZE) && wanted != TAG_END
    ensures tag == FirstOfType(m, mbi + INFO_SIZE, wanted)
  {
    tag := mbi + INFO_SIZE;
    while TagType(m, tag) != TAG_END
      invariant TagsFrom(m, tag)
      invariant FirstOfType(m, tag, wanted) == FirstOfType(m, mbi + INFO_SIZE, wanted)
      decreases |m| - tag
    {
      if TagType(m, tag) == wanted { return; }
      tag := NextTag(m, tag);
    }
    tag := 0;
  }

  function FirstOfType(m: seq<Byte>, tag: nat, wanted: nat): nat
    requires TagsFrom(m, tag)
    decreases |m| - tag
  {
    if TagType(m, tag) == TAG_END then 0
    else if TagType(m, tag) == wanted then tag
    else FirstOfType(m, NextTag(m, tag), wanted)
  }

  // The walk answers the first tag of that type in list order, and 0 exactly when
  // the list has none.
  lemma {:induction false} FindTagFindsFirst(m: seq<Byte>, start: nat, wanted: nat)
    requires TagsFrom(m, start) && start > 0
    ensures var tags := Tags(m, start);
            var r := FirstOfType(m, start, wanted);
            if r == 0 then forall i :: 0 <= i < |tags| ==> InBounds(m, tags[i], 8) && TagType(m, tags[i]) != wanted
            else exists i :: 0 <= i < |tags| && tags[i] == r && InBounds(m, r, 8) && TagType(m, r) == wanted &&
                             forall j :: 0 <= j < i ==> InBounds(m, tags[j], 8) && TagType(m, tags[j]) != wanted
    decreases |m| - start
  {
    if TagType(m, start) != TAG_END {
      var tags := Tags(m, start);
      var next := NextTag(m, start);
      FindTagFindsFirst(m, next, wanted);
      if TagType(m, start) == wanted {
        assert tags[0] == start;
      } else {
        var r := FirstOfType(m, start, wanted);
        assert tags[1..] == Tags(m, next);
        if r != 0 {
          var i :| 0 <= i < |tags[1..]| && tags[1..][i] == r && InBounds(m, r, 8) && TagType(m, r) == wanted &&
                   forall j :: 0 <= j < i ==> InBounds(m, tags[1..][j], 8) && TagType(m, tags[1..][j]) != wanted;
          assert tags[i + 1] == r;
          forall j | 0 <= j < i + 1 ensures InBounds(m, tags[j], 8) && TagType(m, tags[j]) != wanted {
            if j > 0 { assert tags[j] == tags[1..][j - 1]; }
          }
        }
      }
    }
  }

  // ------------------------------------------------------------------ memory map

  datatype Entry = Entry(base: nat, length: nat, kind: nat)

  function EntryAt(m: seq<Byte>, a: nat): Entry
    requires InBounds(m, a, MIN_ENTRY)
  {
    Entry(Load64(m, a), Load64(m, a + 8), Load32(m, a + 16))
  }

  // A memory-map tag whose size covers whole entries.
  predicate MapTag(m: seq<Byte>, tag: nat) {
    InBounds(m, tag, MMAP_HEADER) && TagSize(m, tag) >= MMAP_HEADER && InBounds(m, tag, TagSize(m, tag)) &&
    EntrySize(m, tag) >= MIN_ENTRY && (TagSize(m, tag) - MMAP_HEADER) % EntrySize(m, tag) == 0
  }

  function EntrySize(m: seq<Byte>, tag: nat): nat
    requires InBounds(m, tag, MMAP_HEADER)
  {
    Load32(m, tag + 8)
  }

  function MapEnd(m: seq<Byte>, tag: nat): nat
    requires MapTag(m, tag)
  {
    tag + TagSize(m, tag)
  }

  function EntryCount(m: seq<Byte>, tag: nat): nat
    requires MapTag(m, tag)
  {
    (TagSize(m, tag) - MMAP_HEADER) / EntrySize(m, tag)
  }

  // The block is well formed: its tags end and its memory map, if any, is whole.
  predicate GoodInfo(m: seq<Byte>, mbi: nat) {
    TagsFrom(m, mbi + INFO_SIZE) &&
    var tag := FirstOfType(m, mbi + INFO_SIZE, TAG_MMAP);
    tag != 0 ==> MapTag(m, tag)
  }

  function MapOf(m: seq<Byte>, mbi: nat): nat
    requires GoodInfo(m, mbi)
  {
    FirstOfType(m, mbi + INFO_SIZE, TAG_MMAP)
  }

  method MmapFirst(m: seq<Byte>, mbi: nat) returns (entry: nat)
    requires GoodInfo(m, mbi)
    ensures entry == if MapOf(m, mbi) == 0 then 0 else MapOf(m, mbi) + MMAP_HEADER
  {
    var tag := FindTag(m, mbi, TAG_MMAP);
    if tag == 0 { return 0; }
    entry := tag + MMAP_HEADER;
  }

  method MmapNext(m: seq<Byte>, mbi: nat, current: nat) returns (entry: nat)
    requires GoodInfo(m, mbi)
    ensures entry == Successor(m, MapOf(m, mbi), current)
  {
    var tag := FindTag(m, mbi, TAG_MMAP);
    if tag == 0 { return 0; }
    entry := current + EntrySize(m, tag);
    if entry >= tag + TagSize(m, tag) { return 0; }
  }

  function Successor(m: seq<Byte>, tag: nat, current: nat): nat
    requires tag != 0 ==> MapTag(m, tag)
  {
    if tag == 0 || current + EntrySize(m, tag) >= MapEnd(m, tag) then 0 else current + EntrySize(m, tag)
  }

  // The addresses the loop "for (e = mmap_first; e; e = mmap_next)" visits from e on.
  function Visited(m: seq<Byte>, tag: nat, e: nat): seq<nat>
    requires MapTag(m, tag)
    decreases if e == 0 then 0 else MapEnd(m, tag) - e
  {
    if e == 0 then [] else if e >= MapEnd(m, tag) then [e] else [e] + Visited(m, tag, Successor(m, tag, e))
  }

  function EntryAddr(m: seq<Byte>, tag: nat, k: nat): (e: nat)
    requires MapTag(m, tag)
    ensures e > 0
  {
    tag + MMAP_HEADER + k * EntrySize(m, tag)
  }

  // The addresses of the last n - k entries the tag holds, in order.
  function EntryAddrs(m: seq<Byte>, tag: nat, k: nat): seq<nat>
    requires MapTag(m, tag) && k <= EntryCount(m, tag)
    decreases EntryCount(m, tag) - k
  {
    if k == EntryCount(m, tag) then [] else [EntryAddr(m, tag, k)] + EntryAddrs(m, tag, k + 1)
  }

  lemma EntryEnds(m: seq<Byte>, tag: nat, k: nat)
    requires MapTag(m, tag) && k < EntryCount(m, tag)
    ensures EntryAddr(m, tag, k + 1) == EntryAddr(m, tag, k) + EntrySize(m, tag)
    ensures EntryAddr(m, tag, k + 1) <= MapEnd(m, tag)
    ensures EntryAddr(m, tag, k + 1) == MapEnd(m, tag) <==> k + 1 == EntryCount(m, tag)
  {
    WholeEntries(EntrySize(m, tag), k, EntryCount(m, tag));
    WholeQuotient(TagSize(m, tag) - MMAP_HEADER, EntrySize(m, tag));
  }

  lemma WholeEntries(size: nat, k: nat, n: nat)
    requires size > 0 && k < n
    ensures (k + 1) * size == k * size + size
    ensures (k + 1) * size <= n * size
    ensures (k + 1) * size == n * size <==> k + 1 == n
  {
    var d := n - (k + 1);
    assert n * size == (k + 1) * size + d * size;
    assert d > 0 ==> d * size > 0;
  }

  lemma WholeQuotient(len: nat, size: nat)
    requires size > 0 && len % size == 0
    ensures len == len / size * size
  {
  }

  lemma SuccessorStep(m: seq<Byte>, tag: nat, k: nat)
    requires tag != 0 && MapTag(m, tag) && k < EntryCount(m, tag)
    ensures Successor(m, tag, EntryAddr(m, tag, k)) ==
            if k + 1 < EntryCount(m, tag) then EntryAddr(m, tag, k + 1) else 0
  {
    EntryEnds(m, tag, k);
  }

  lemma {:induction false} VisitedFrom(m: seq<Byte>, tag: nat, k: nat, e: nat)
    requires tag != 0 && MapTag(m, tag) && k < EntryCount(m, tag) && e == EntryAddr(m, tag, k)
    ensures Visited(m, tag, e) == EntryAddrs(m, tag, k)
    decreases EntryCount(m, tag) - k
  {
    EntryEnds(m, tag, k);
    SuccessorStep(m, tag, k);
    var next := Successor(m, tag, e);
    assert Visited(m, tag, e) == [e] + Visited(m, tag, next);
    if k + 1 < EntryCount(m, tag) {
      VisitedFrom(m, tag, k + 1, next);
    }
  }

  // The walk visits every entry once, in order, exactly when there is an entry:
  // mmap_first does not look for an empty map.
  lemma WalkEnumeratesMap(m: seq<Byte>, tag: nat)
    requires tag != 0 && MapTag(m, tag)
    ensures Visited(m, tag, tag + MMAP_HEADER) == EntryAddrs(m, tag, 0) <==> EntryCount(m, tag) >= 1
  {
    if EntryCount(m, tag) >= 1 {
      VisitedFrom(m, tag, 0, EntryAddr(m, tag, 0));
    } else {
      assert Visited(m, tag, tag + MMAP_HEADER) != [];
    }
  }

  lemma EntryInBounds(m: seq<Byte>, tag: nat, k: nat)
    requires MapTag(m, tag) && k < EntryCount(m, tag)
    ensures InBounds(m, EntryAddr(m, tag, k), MIN_ENTRY)
  {
    EntryEnds(m, tag, k);
  }

  function EntryOf(m: seq<Byte>, tag: nat, k: nat): Entry
    requires MapTag(m, tag) && k < EntryCount(m, tag)
  {
    EntryInBounds(m, tag, k);
    EntryAt(m, EntryAddr(m, tag, k))
  }

  function EntriesOf(m: seq<Byte>, tag: nat): (es: seq<Entry>)
    requires MapTag(m, tag)
    ensures |es| == EntryCount(m, tag)
    ensures forall k :: 0 <= k < EntryCount(m, tag) ==> es[k] == EntryOf(m, tag, k)
  {
    seq(EntryCount(m, tag), k requires 0 <= k < EntryCount(m, tag) => EntryOf(m, tag, k))
  }

  // The entries of the memory map, in order.
  function MapEntries(m: seq<Byte>, mbi: nat): seq<Entry>
    requires GoodInfo(m, mbi)
  {
    if MapOf(m, mbi) == 0 then [] else EntriesOf(m, MapOf(m, mbi))
  }

  lemma EntryListed(m: seq<Byte>, tag: nat, k: nat)
    requires MapTag(m, tag) && k < EntryCount(m, tag)
    ensures var e := EntryAddr(m, tag, k);
            e != 0 && InBounds(m, e, MIN_ENTRY) && EntryAt(m, e) == EntriesOf(m, tag)[k]
  {
    EntryInBounds(m, tag, k);
    assert EntriesOf(m, tag)[k] == EntryOf(m, tag, k);
  }

  // ------------------------------------------------------- where the fields lie

  // A tag's type and size, the size of its entries, and an entry's fields, by offset.
  lemma FieldOffsets(m: seq<Byte>, a: nat)
    ensures InBounds(m, a, 8) ==> TagType(m, a) == Load32(m, a) && TagSize(m, a) == Load32(m, a + 4)
    ensures InBounds(m, a, 16) ==> EntrySize(m, a) == Load32(m, a + 8)
    ensures InBounds(m, a, 24) ==>
              EntryAt(m, a).base == Load64(m, a) && EntryAt(m, a).length == Load64(m, a + 8) &&
              EntryAt(m, a).kind == Load32(m, a + 16)
  {
  }

  lemma KeptWord(m: seq<Byte>, r: seq<Byte>, lo: nat, hi: nat, a: nat, n: nat)
    requires SameOutside(m, r, lo, hi) && InBounds(m, a, n) && (a + n <= lo || hi <= a)
    ensures Load(r, a, n) == Load(m, a, n)
  {
    LoadFrame(m, r, a, n);
  }

  // An entry as a boot loader writes it.
  function WriteEntry(m: seq<Byte>, a: nat, base: nat, length: nat, kind: nat): (r: seq<Byte>)
    requires InBounds(m, a, 24) && base < WORD64 && length < WORD64 && kind < WORD32
    ensures |r| == |m|
  {
    Store32(Store64(Store64(m, a, base), a + 8, length), a + 16, kind)
  }

  lemma EntryStored(m: seq<Byte>, a: nat, base: nat, length: nat, kind: nat)
    requires InBounds(m, a, 24) && base < WORD64 && length < WORD64 && kind < WORD32
    ensures var r := WriteEntry(m, a, base, length, kind);
            EntryAt(r, a) == Entry(base, length, kind) && SameOutside(m, r, a, a + 24)
  {
    var x := Store64(m, a, base);
    var y := Store64(x, a + 8, length);
    var r := Store32(y, a + 16, kind);
    KeptWord(x, y, a + 8, a + 16, a, 8);
    KeptWord(y, r, a + 16, a + 20, a, 8);
    KeptWord(y, r, a + 16, a + 20, a + 8, 8);
  }

  // A map tag's header, likewise: type, size, entry size.
  lemma TagStored(m: seq<Byte>, a: nat, kind: nat, size: nat, entrySize: nat)
    requires InBounds(m, a, 16) && kind < WORD32 && size < WORD32 && entrySize < WORD32
    ensures var r := Store32(Store32(Store32(m, a, kind), a + 4, size), a + 8, entrySize);
            TagType(r, a) == kind && TagSize(r, a) == size && EntrySize(r, a) == entrySize &&
            SameOutside(m, r, a, a + 12)
  {
    var x := Store32(m, a, kind);
    var y := Store32(x, a + 4, size);
    var r := Store32(y, a + 8, entrySize);
    KeptWord(x, y, a + 4, a + 8, a, 4);
    KeptWord(y, r, a + 8, a + 12, a, 4);
    KeptWord(y, r, a + 8, a + 12, a + 4, 4);
  }

  // An information block at mbi whose only tag is a memory map, field by field: type 6,
  // size and entry size 24, the entries, and the end tag.
  ghost predicate IsMapBlock(m: seq<Byte>, mbi: nat, es: seq<Entry>) {
    mbi % 8 == 0 && InBounds(m, mbi, 32 + 24 * |es|) &&
    Load32(m, mbi + 8) == 6 && Load32(m, mbi + 12) == 16 + 24 * |es| && Load32(m, mbi + 16) == 24 &&
    (forall k :: 0 <= k < |es| ==> IsEntry(m, mbi + 24 + 24 * k, es[k])) &&
    Load32(m, mbi + 24 + 24 * |es|) == 0 && Load32(m, mbi + 28 + 24 * |es|) == 8
  }

  predicate IsEntry(m: seq<Byte>, a: nat, e: Entry) {
    InBounds(m, a, 24) && Load64(m, a) == e.base && Load64(m, a + 8) == e.length && Load32(m, a + 16) == e.kind
  }

  lemma EndTag(m: seq<Byte>, end: nat)
    requires InBounds(m, end, 8) && Load32(m, end) == 0 && Load32(m, end + 4) == 8
    ensures TagsFrom(m, end)
  {
  }

  lemma Eightfold(a: nat, n: nat)
    requires a % 8 == 0
    ensures (a + 8) % 8 == 0 && (16 + 24 * n) % 8 == 0
  {
  }

  lemma OneTag(m: seq<Byte>, tag: nat, size: nat)
    requires tag % 8 == 0 && size % 8 == 0 && size >= 8 && InBounds(m, tag, size) && TagsFrom(m, tag + size)
    requires TagType(m, tag) == TAG_MMAP && TagSize(m, tag) == size
    ensures TagsFrom(m, tag) && FirstOfType(m, tag, TAG_MMAP) == tag
  {
    assert NextTag(m, tag) == tag + size;
  }

  lemma WholeMap(m: seq<Byte>, tag: nat, n: nat)
    requires InBounds(m, tag, 16 + 24 * n) && TagSize(m, tag) == 16 + 24 * n && EntrySize(m, tag) == 24
    ensures MapTag(m, tag) && EntryCount(m, tag) == n
  {
    assert 24 * n % 24 == 0 && 24 * n / 24 == n;
  }

  lemma EntryRead(m: seq<Byte>, tag: nat, k: nat, e: Entry)
    requires MapTag(m, tag) && EntrySize(m, tag) == 24 && k < EntryCount(m, tag) && IsEntry(m, tag + 16 + 24 * k, e)
    ensures EntriesOf(m, tag)[k] == e
  {
    assert k * EntrySize(m, tag) == 24 * k;
    EntryListed(m, tag, k);
  }

  lemma MapTagFound(m: seq<Byte>, mbi: nat, es: seq<Entry>)
    requires IsMapBlock(m, mbi, es)
    ensures TagsFrom(m, mbi + 8) && FirstOfType(m, mbi + 8, TAG_MMAP) == mbi + 8
  {
    var tag, size := mbi + 8, 16 + 24 * |es|;
    Eightfold(mbi, |es|);
    EndTag(m, tag + size);
    OneTag(m, tag, size);
  }

  lemma EntriesRead(m: seq<Byte>, tag: nat, es: seq<Entry>)
    requires MapTag(m, tag) && EntrySize(m, tag) == 24 && EntryCount(m, tag) == |es|
    requires forall k :: 0 <= k < |es| ==> IsEntry(m, tag + 16 + 24 * k, es[k])
    ensures EntriesOf(m, tag) == es
  {
    forall k | 0 <= k < |es| ensures EntriesOf(m, tag)[k] == es[k] {
      EntryRead(m, tag, k, es[k]);
    }
  }

  // The block is well formed, and its map is read entry for entry.
  lemma MapBlockIsRead(m: seq<Byte>, mbi: nat, es: seq<Entry>)
    requires IsMapBlock(m, mbi, es)
    ensures GoodInfo(m, mbi) && MapEntries(m, mbi) == es
  {
    MapTagFound(m, mbi, es);
    WholeMap(m, mbi + 8, |es|);
    forall k | 0 <= k < |es| ensures IsEntry(m, mbi + 8 + 16 + 24 * k, es[k]) {
      assert IsEntry(m, mbi + 24 + 24 * k, es[k]);
    }
    EntriesRead(m, mbi + 8, es);
  }
}
