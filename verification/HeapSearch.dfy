// The search of kmalloc as kernel/heap.c has it, without an in_use test: when it goes
// wrong.
module HeapSearch {
  import opened HeapModel
  import opened HeapSteps
  import opened HeapTheorems

  // The first block that is big enough, in use or not, is in use.
  predicate FirstBigBlockInUse(bs: seq<Block>, n: nat) {
    n <= MAX_REQUEST && FirstFit(bs, n, false) < |bs| && bs[FirstFit(bs, n, false)].inUse
  }

  lemma {:induction false} FirstFitAgrees(bs: seq<Block>, n: nat)
    requires FirstFit(bs, n, false) == |bs| || !bs[FirstFit(bs, n, false)].inUse
    ensures FirstFit(bs, n, true) == FirstFit(bs, n, false)
  {
    var i := FirstFit(bs, n, false);
    var k := FirstFit(bs, n, true);
    assert k < |bs| ==> Fits(bs[k], n, false);
    assert i < |bs| ==> Fits(bs[i], n, true);
  }

  // As written, kmalloc hands out a pointer somebody already holds exactly when the
  // first big enough block is in use, and in all other states it is the documented
  // kmalloc.
  lemma UntestedSearchAliases(s: State, n: nat, page: nat)
    requires Inv(s) && FreshPage(s, page)
    ensures IsLive(s.blocks, Kmalloc(s, n, page, false).1) <==> FirstBigBlockInUse(s.blocks, n)
    ensures Kmalloc(s, n, page, false) == Kmalloc(s, n, page, true) <==> !FirstBigBlockInUse(s.blocks, n)
  {
    var i := FirstFit(s.blocks, n, false);
    var k := FirstFit(s.blocks, n, true);
    TilingFacts(s);
    ApartDistinct(s.blocks);
    if FirstBigBlockInUse(s.blocks, n) {
      assert s.blocks[i].Payload() == Kmalloc(s, n, page, false).1;
      if k == |s.blocks| && page != 0 { FreshIsApart(s, page); }
    } else {
      if n <= MAX_REQUEST {
        FirstFitAgrees(s.blocks, n);
        if i == |s.blocks| && page != 0 { FreshIsApart(s, page); }
      }
    }
  }

  // Two requests in a row on a new heap get the same address.
  lemma UntestedSearchReturnsOneAddressTwice(page: nat)
    requires IsPage(page)
    ensures var r := Kmalloc(Init(page), 8, 0, false); var s1, p1 := r.0, r.1;
            var q := Kmalloc(s1, 8, 0, false); var s2, p2 := q.0, q.1;
            p1 == p2 == page + HEADER_SIZE && s1 == s2
  {
  }

  // Splitting a block in use leaves a free half behind it.
  lemma SplitInUse(bs: seq<Block>, i: nat, n: nat)
    requires i < |bs| && bs[i].inUse && bs[i].size >= n && bs[i].size - n >= SPLIT_SLACK && Coalesced(bs)
    ensures Coalesced(Carve(bs, i, n)) <==> !JoinsNext(bs, i)
  {
    var out := Carve(bs, i, n);
    assert out == bs[..i] + [out[i], out[i + 1]] + bs[i + 1..];
    assert out[i + 1].End() == bs[i].End() && !out[i + 1].inUse;
    if JoinsNext(bs, i) { assert Mergeable(out[i + 1], out[i + 2]); }
  }

  // As written, kmalloc leaves two mergeable neighbours exactly when it splits a
  // block in use whose successor is free and contiguous.
  lemma UntestedSearchCoalescing(s: State, n: nat, page: nat)
    requires Sound(s) && FreshPage(s, page)
    ensures var i := FirstFit(s.blocks, n, false);
            Coalesced(Kmalloc(s, n, page, false).0.blocks) <==>
            !(FirstBigBlockInUse(s.blocks, n) && s.blocks[i].size - n >= SPLIT_SLACK && JoinsNext(s.blocks, i))
  {
    UntestedSearchAliases(s, n, page);
    KmallocKeepsSound(s, n, page);
    var bs := s.blocks;
    var i := FirstFit(bs, n, false);
    if FirstBigBlockInUse(bs, n) {
      if bs[i].size - n >= SPLIT_SLACK { SplitInUse(bs, i, n); } else { assert Carve(bs, i, n) == bs; }
    }
  }
}
