// Main results about one kmalloc or kfree on a heap: what a call hands out and what it
// leaves alone.
module HeapTheorems {
  import opened Words
  import opened HeapModel
  import opened HeapSteps

  ghost predicate Sound(s: State) {
    Inv(s) && Coalesced(s.blocks)
  }

  lemma InitSound(page: nat)
    requires IsPage(page)
    ensures Sound(Init(page)) && Live(Init(page).blocks) == {}
    ensures Init(page) == State([Block(page, 4072, false)], [page])
  {
    assert PageBlocks([page]) == [FreshBlock(page)];
  }

  // Payloads of different live blocks do not meet, nor does a payload meet a header.
  lemma LivePayloadsDisjoint(s: State, b: Block, c: Block)
    requires Inv(s) && b in Live(s.blocks) && c in s.blocks && b != c
    ensures b.Payload() != c.Payload()
    ensures b.End() <= c.addr || c.End() <= b.Payload()
    ensures forall x :: b.Payload() <= x < b.End() ==> x / PAGE_SIZE * PAGE_SIZE in s.pages
  {
    TilingFacts(s);
    var i :| 0 <= i < |s.blocks| && s.blocks[i] == b;
    var j :| 0 <= j < |s.blocks| && s.blocks[j] == c;
    forall x | b.Payload() <= x < b.End() ensures x / PAGE_SIZE * PAGE_SIZE in s.pages {
      BlockByteInPage(s, i, x);
    }
  }

  lemma FreshIsApart(s: State, page: nat)
    requires Inv(s) && IsPage(page) && page !in s.pages
    ensures forall i :: 0 <= i < |s.blocks| ==> s.blocks[i].addr != page
  {
    forall i | 0 <= i < |s.blocks| ensures s.blocks[i].addr != page {
      BlockByteInPage(s, i, s.blocks[i].addr);
    }
  }

  // ------------------------------------------------------------------- kmalloc

  // b is live in t and in no other way do the live blocks of s and t differ.
  ghost predicate AddsOne(s: seq<Block>, t: seq<Block>, b: Block, n: nat, p: nat) {
    b in Live(t) && b !in Live(s) && b.addr + 24 == p && n <= b.size < n + 28 && Live(t) == Live(s) + {b}
  }

  // Carving an empty block adds it to the live ones.
  lemma CarveAddsOne(s: State, i: nat, n: nat)
    requires Inv(s) && i < |s.blocks| && !s.blocks[i].inUse && s.blocks[i].size >= n
    ensures AddsOne(s.blocks, Carve(s.blocks, i, n), Carve(s.blocks, i, n)[i], n, s.blocks[i].Payload())
    ensures !IsLive(s.blocks, s.blocks[i].Payload())
  {
    TilingFacts(s);
    CarveLive(s.blocks, i, n);
    ApartDistinct(s.blocks);
    assert Carve(s.blocks, i, n)[i] in Carve(s.blocks, i, n);
  }

  lemma LiveGrown(bs: seq<Block>, page: nat)
    ensures Live(bs + [FreshBlock(page)]) == Live(bs)
  {
  }

  // So does carving a fresh page.
  lemma GrowthAddsOne(s: State, n: nat, page: nat)
    requires Inv(s) && IsPage(page) && page !in s.pages && n <= MAX_REQUEST
    ensures var out := Carve(s.blocks + [FreshBlock(page)], |s.blocks|, n);
            AddsOne(s.blocks, out, out[|s.blocks|], n, page + HEADER_SIZE) && !IsLive(s.blocks, page + HEADER_SIZE)
  {
    var grown := State(s.blocks + [FreshBlock(page)], s.pages + [page]);
    GrowCover(s, page);
    CarveAddsOne(grown, |s.blocks|, n);
    LiveGrown(s.blocks, page);
    FreshIsApart(s, page);
  }

  lemma GrowthCoalesced(bs: seq<Block>, page: nat, n: nat)
    requires Coalesced(bs) && n <= MAX_REQUEST
    ensures Coalesced(Carve(bs + [FreshBlock(page)], |bs|, n))
  {
    var out := Carve(bs + [FreshBlock(page)], |bs|, n);
    assert out == bs + out[|bs|..];
  }

  // With the documented empty-block test a successful call adds exactly one live
  // block, big enough and with less than 28 bytes to spare, whose pointer nobody
  // holds; every other live block stays as it was.
  lemma KmallocAddsOne(s: State, n: nat, page: nat)
    requires Inv(s) && FreshPage(s, page)
    ensures var r := Kmalloc(s, n, page, true); var t, p := r.0, r.1;
            s.pages <= t.pages && (p == 0 ==> t == s) &&
            (p != 0 ==> !IsLive(s.blocks, p) && exists b :: AddsOne(s.blocks, t.blocks, b, n, p))
  {
    var i := FirstFit(s.blocks, n, true);
    TilingFacts(s);
    if n <= MAX_REQUEST && i < |s.blocks| {
      CarveAddsOne(s, i, n);
    } else if n <= MAX_REQUEST && page != 0 {
      GrowthAddsOne(s, n, page);
    }
  }

  // And it keeps both invariants.
  lemma KmallocKeepsSound(s: State, n: nat, page: nat)
    requires Sound(s) && FreshPage(s, page)
    ensures Sound(Kmalloc(s, n, page, true).0)
  {
    KmallocKeepsTiling(s, n, page, true);
    var i := FirstFit(s.blocks, n, true);
    if n <= MAX_REQUEST && i < |s.blocks| {
      CarveCoalesced(s.blocks, i, n);
    } else if n <= MAX_REQUEST && page != 0 {
      GrowthCoalesced(s.blocks, page, n);
    }
  }

  // A request fails exactly when it is over 4072 bytes, or no empty block is big
  // enough and there is no page; otherwise the first empty block that is big enough
  // is used, and only when there is none a fresh page.
  lemma KmallocOutcome(s: State, n: nat, page: nat)
    requires Inv(s) && FreshPage(s, page)
    ensures var r := Kmalloc(s, n, page, true); var t, p := r.0, r.1;
            (p == 0 <==> n > 4072 || (page == 0 && forall b :: b in s.blocks ==> b.inUse || b.size < n)) &&
            (p != 0 ==> if exists b :: b in s.blocks && b.size >= n && !b.inUse
                        then t.pages == s.pages &&
                             exists i :: 0 <= i < |s.blocks| && Chosen(s.blocks, n, true, i) &&
                                         p == s.blocks[i].addr + 24
                        else t.pages == s.pages + [page] && p == page + 24)
  {
    var i := FirstFit(s.blocks, n, true);
    TilingFacts(s);
    if i < |s.blocks| {
      assert s.blocks[i] in s.blocks;
      assert Chosen(s.blocks, n, true, i);
    }
  }

  // Block i is the first that is big enough and, if that is asked for, empty.
  predicate Chosen(bs: seq<Block>, n: nat, emptyOnly: bool, i: nat) {
    i < |bs| && bs[i].size >= n && (emptyOnly ==> !bs[i].inUse) &&
    forall j :: 0 <= j < i ==> bs[j].size < n || (emptyOnly && bs[j].inUse)
  }

  // What a call does to the list, block by block. A block found with 28 bytes or more to
  // spare is cut in two, any other is taken whole.
  lemma KmallocFromList(s: State, n: nat, page: nat, emptyOnly: bool, i: nat)
    requires n <= 4072 && Chosen(s.blocks, n, emptyOnly, i)
    ensures var r, b := Kmalloc(s, n, page, emptyOnly), s.blocks[i];
            r.1 == b.addr + 24 && r.0.pages == s.pages &&
            r.0.blocks ==
            s.blocks[..i] +
            (if b.size >= n + 28 then [Block(b.addr, n, true), Block(b.addr + 24 + n, b.size - n - 24, false)]
             else [Block(b.addr, b.size, true)]) +
            s.blocks[i + 1..]
  {
    ChosenIsFirst(s.blocks, n, emptyOnly, i);
  }

  lemma ChosenIsFirst(bs: seq<Block>, n: nat, emptyOnly: bool, i: nat)
    requires Chosen(bs, n, emptyOnly, i)
    ensures FirstFit(bs, n, emptyOnly) == i
  {
    var k := FirstFit(bs, n, emptyOnly);
    assert Fits(bs[i], n, emptyOnly);
    if k < i { assert false; }
  }

  predicate NoneFits(bs: seq<Block>, n: nat, emptyOnly: bool) {
    forall j :: 0 <= j < |bs| ==> bs[j].size < n || (emptyOnly && bs[j].inUse)
  }

  lemma NoneIsFirst(bs: seq<Block>, n: nat, emptyOnly: bool)
    requires NoneFits(bs, n, emptyOnly)
    ensures FirstFit(bs, n, emptyOnly) == |bs|
  {
    if FirstFit(bs, n, emptyOnly) < |bs| { assert false; }
  }

  // With none found the list grows by the page, cut likewise.
  lemma KmallocFromPage(s: State, n: nat, page: nat, emptyOnly: bool)
    requires n <= 4072 && NoneFits(s.blocks, n, emptyOnly) && page != 0
    ensures var r := Kmalloc(s, n, page, emptyOnly);
            r.1 == page + 24 && r.0.pages == s.pages + [page] &&
            r.0.blocks == s.blocks + (if n <= 4044 then [Block(page, n, true), Block(page + 24 + n, 4048 - n, false)]
                                      else [Block(page, 4072, true)])
  {
    NoneIsFirst(s.blocks, n, emptyOnly);
    var grown := s.blocks + [FreshBlock(page)];
    assert grown[..|s.blocks|] == s.blocks && grown[|s.blocks| + 1..] == [];
  }

  lemma KmallocRefuses(s: State, n: nat, page: nat, emptyOnly: bool)
    requires n > 4072 || (NoneFits(s.blocks, n, emptyOnly) && page == 0)
    ensures Kmalloc(s, n, page, emptyOnly) == (s, 0)
  {
    if n <= 4072 { NoneIsFirst(s.blocks, n, emptyOnly); }
  }

  // --------------------------------------------------------------------- kfree

  // kfree takes exactly the block of its pointer from the live ones.
  lemma KfreeRemovesOne(s: State, ptr: nat)
    requires Inv(s) && IsLive(s.blocks, ptr)
    ensures var t := Kfree(s, ptr);
            t.pages == s.pages &&
            exists b :: b in Live(s.blocks) && b.Payload() == ptr && Live(t.blocks) == Live(s.blocks) - {b}
  {
    TilingFacts(s);
    var i :| 0 <= i < |s.blocks| && s.blocks[i].inUse && s.blocks[i].Payload() == ptr;
    IndexOfAt(s.blocks, i);
    FreeLive(s.blocks, i);
    assert s.blocks[i] in Live(s.blocks);
  }

  lemma KfreeKeepsSound(s: State, ptr: nat)
    requires Sound(s) && IsLive(s.blocks, ptr)
    ensures Sound(Kfree(s, ptr))
  {
    TilingFacts(s);
    var i :| 0 <= i < |s.blocks| && s.blocks[i].inUse && s.blocks[i].Payload() == ptr;
    IndexOfAt(s.blocks, i);
    KfreeKeepsTiling(s, ptr);
    FreeCoalesced(s.blocks, i);
  }

  // The blocks kfree joins with block i are lo up to but not including hi.
  predicate Joined(bs: seq<Block>, i: nat, lo: nat, hi: nat) {
    i < |bs| &&
    lo == (if i > 0 && !bs[i - 1].inUse && bs[i - 1].addr + 24 + bs[i - 1].size == bs[i].addr then i - 1 else i) &&
    hi == (if i + 1 < |bs| && !bs[i + 1].inUse && bs[i].addr + 24 + bs[i].size == bs[i + 1].addr then i + 2 else i + 1)
  }

  lemma JoinedCollapse(bs: seq<Block>, i: nat, lo: nat, hi: nat)
    requires Joined(bs, i, lo, hi)
    ensures Collapses(bs, lo, hi, FreeAt(bs, i))
  {
    FreeShape(bs, i);
  }

  lemma CollapsedList(bs: seq<Block>, lo: nat, hi: nat, out: seq<Block>)
    requires lo < hi <= |bs| && Collapses(bs, lo, hi, out)
    ensures out == bs[..lo] + [Block(bs[lo].addr, out[lo].size, false)] + bs[hi..]
    ensures bs[lo].addr + out[lo].size == bs[hi - 1].addr + bs[hi - 1].size
  {
    assert out == out[..lo] + [out[lo]] + out[lo + 1..];
  }

  // What kfree does to the list: block i and its free contiguous neighbours become one
  // free block, and nothing else changes.
  lemma KfreeFromList(s: State, i: nat, lo: nat, hi: nat)
    requires Inv(s) && Joined(s.blocks, i, lo, hi) && s.blocks[i].inUse
    ensures var t, bs := Kfree(s, s.blocks[i].addr + 24), s.blocks;
            t.pages == s.pages &&
            exists size: nat :: bs[lo].addr + size == bs[hi - 1].addr + bs[hi - 1].size &&
                                t.blocks == bs[..lo] + [Block(bs[lo].addr, size, false)] + bs[hi..]
  {
    TilingFacts(s);
    IndexOfAt(s.blocks, i);
    JoinedCollapse(s.blocks, i, lo, hi);
    CollapsedList(s.blocks, lo, hi, FreeAt(s.blocks, i));
  }
}
