// The block list is determined by the pages acquired and the blocks still live.
module HeapHistory {
  import opened HeapModel
  import opened HeapSteps
  import opened HeapTheorems

  lemma LongerCoverGoesOn(a: seq<Block>, b: seq<Block>)
    requires a != [] && b != [] && Cover(a) == Cover(b)
    requires a[0].addr == b[0].addr && a[0].size < b[0].size
    ensures |a| > 1 && a[1].addr == a[0].End()
    ensures Mergeable(a[0], a[1]) || a[0].inUse || a[1] in Live(a)
  {
    var x := a[0].Length();
    assert Cover(b)[x] == b[0].addr + x;
    assert a[1..] != [];
    assert Cover(a)[x] == Cover(a[1..])[0] == a[1].addr;
  }

  lemma HeadReachesAsFar(a: seq<Block>, b: seq<Block>)
    requires a != [] && b != [] && Cover(a) == Cover(b) && Distinct(Cover(a))
    requires Coalesced(a) && Live(a) == Live(b)
    requires a[0].addr == b[0].addr && !a[0].inUse && !b[0].inUse
    ensures b[0].size <= a[0].size
  {
    DistinctCoverApart(b);
    if a[0].size < b[0].size {
      LongerCoverGoesOn(a, b);
    }
  }

  lemma HeadsAgree(a: seq<Block>, b: seq<Block>)
    requires a != [] && b != [] && Cover(a) == Cover(b) && Distinct(Cover(a))
    requires Coalesced(a) && Coalesced(b) && Live(a) == Live(b)
    ensures a[0] == b[0]
  {
    assert a[0].addr == Cover(a)[0] == Cover(b)[0] == b[0].addr;
    DistinctCoverApart(a);
    DistinctCoverApart(b);
    ApartDistinct(a);
    ApartDistinct(b);
    if a[0].inUse {
      assert a[0] in Live(b);
    } else if b[0].inUse {
      assert b[0] in Live(a);
    } else {
      HeadReachesAsFar(a, b);
      HeadReachesAsFar(b, a);
    }
  }

  lemma LiveTail(a: seq<Block>)
    requires a != [] && Distinct(Cover(a))
    ensures Live(a[1..]) == Live(a) - {a[0]} && Distinct(Cover(a[1..]))
  {
    DistinctCoverApart(a);
    ApartDistinct(a);
    assert a == [a[0]] + a[1..];
    forall x, y | 0 <= x < y < |Cover(a[1..])| ensures Cover(a[1..])[x] != Cover(a[1..])[y] {
      var l := a[0].Length();
      assert Cover(a)[l + x] != Cover(a)[l + y];
    }
  }

  // Two fully coalesced lists over the same addresses with the same live blocks are
  // the same list.
  lemma {:induction false} CoalescedListIsUnique(a: seq<Block>, b: seq<Block>)
    requires Cover(a) == Cover(b) && Distinct(Cover(a))
    requires Coalesced(a) && Coalesced(b) && Live(a) == Live(b)
    ensures a == b
  {
    if a != [] && b != [] {
      HeadsAgree(a, b);
      LiveTail(a);
      LiveTail(b);
      var l := a[0].Length();
      assert Cover(a[1..]) == Cover(a)[l..] && Cover(b[1..]) == Cover(b)[l..];
      CoalescedListIsUnique(a[1..], b[1..]);
      assert a == [a[0]] + a[1..] && b == [b[0]] + b[1..];
    } else {
      assert |Cover(a)| == |Cover(b)|;
    }
  }

  // Whatever calls led there, the list is a function of the pages acquired, in
  // order, and of the blocks that are still live.
  lemma HistoryIndependent(s: State, t: State)
    requires Sound(s) && Sound(t) && s.pages == t.pages && Live(s.blocks) == Live(t.blocks)
    ensures s == t
  {
    PageAddrsDistinct(s.pages);
    CoalescedListIsUnique(s.blocks, t.blocks);
  }

  // kfree undoes kmalloc: addresses, sizes, order and flags are back.
  lemma KfreeUndoesKmalloc(s: State, n: nat, page: nat)
    requires Sound(s) && FreshPage(s, page)
    requires Kmalloc(s, n, page, true).1 != 0 && Kmalloc(s, n, page, true).0.pages == s.pages
    ensures var r := Kmalloc(s, n, page, true); var t, p := r.0, r.1;
            IsLive(t.blocks, p) && Kfree(t, p) == s
  {
    var (t, p) := Kmalloc(s, n, page, true);
    KmallocAddsOne(s, n, page);
    KmallocKeepsSound(s, n, page);
    var b :| AddsOne(s.blocks, t.blocks, b, n, p);
    HandedBack(s, t, b, n, p);
    KfreeKeepsSound(t, p);
    HistoryIndependent(Kfree(t, p), s);
  }

  lemma HandedBack(s: State, t: State, b: Block, n: nat, p: nat)
    requires Inv(t) && AddsOne(s.blocks, t.blocks, b, n, p)
    ensures IsLive(t.blocks, p) && Live(Kfree(t, p).blocks) == Live(s.blocks) && Kfree(t, p).pages == t.pages
  {
    var i :| 0 <= i < |t.blocks| && t.blocks[i] == b;
    assert t.blocks[i].inUse && t.blocks[i].Payload() == p;
    KfreeRemovesOne(t, p);
    var c :| c in Live(t.blocks) && c.Payload() == p && Live(Kfree(t, p).blocks) == Live(t.blocks) - {c};
    if b != c { LivePayloadsDisjoint(t, b, c); }
  }
}
