// What one kmalloc or kfree does to the invariants of the block list, and what
// the search without an `in_use` test costs.
module HeapSteps {
  import opened Words
  import opened HeapModel

  // The blocks whose pointers callers still hold.
  ghost function Live(bs: seq<Block>): set<Block> {
    set b | b in bs && b.inUse
  }

  // -------------------------------------------------------------- tiling is kept

  // Replacing blocks lo..hi by others over the same addresses.
  lemma CoverSwap(bs: seq<Block>, lo: nat, hi: nat, mid: seq<Block>)
    requires lo <= hi <= |bs| && Cover(mid) == Cover(bs[lo..hi])
    ensures Cover(bs[..lo] + mid + bs[hi..]) == Cover(bs)
  {
    CoverAppend(bs[..lo] + mid, bs[hi..]);
    CoverAppend(bs[..lo], mid);
    CoverAppend(bs[..lo] + bs[lo..hi], bs[hi..]);
    CoverAppend(bs[..lo], bs[lo..hi]);
    assert bs[..lo] + bs[lo..hi] + bs[hi..] == bs;
  }

  lemma CoverPair(a: Block, b: Block, c: Block)
    requires a.addr == c.addr && a.End() == b.addr && c.End() == b.End()
    ensures Cover([a, b]) == Cover([c])
  {
    assert Range(a.addr, a.Length()) + Range(b.addr, b.Length()) == Range(c.addr, c.Length());
    assert [a, b][1..] == [b];
    assert Cover([b]) == Range(b.addr, b.Length());
    assert Cover([c]) == Range(c.addr, c.Length());
  }

  lemma HalvesCover(b: Block, n: nat)
    requires b.size >= n + HEADER_SIZE
    ensures Cover(Halves(b, n)) == Cover([b])
  {
    CoverPair(Halves(b, n)[0], Halves(b, n)[1], b);
  }

  lemma SplitCover(bs: seq<Block>, i: nat, n: nat)
    requires i < |bs| && bs[i].size >= n + HEADER_SIZE
    ensures Cover(Split(bs, i, n)) == Cover(bs)
  {
    assert bs[i..i + 1] == [bs[i]];
    HalvesCover(bs[i], n);
    CoverSwap(bs, i, i + 1, Halves(bs[i], n));
  }

  lemma MarkCover(bs: seq<Block>, i: nat, used: bool)
    requires i < |bs|
    ensures Cover(bs[i := bs[i].(inUse := used)]) == Cover(bs)
  {
    var b := bs[i].(inUse := used);
    assert bs[i..i + 1] == [bs[i]];
    assert Cover([bs[i]]) == Range(bs[i].addr, bs[i].Length()) == Cover([b]);
    CoverSwap(bs, i, i + 1, [b]);
    assert bs[i := b] == bs[..i] + [b] + bs[i + 1..];
  }

  lemma CarveCover(bs: seq<Block>, i: nat, n: nat)
    requires i < |bs| && bs[i].size >= n
    ensures Cover(Carve(bs, i, n)) == Cover(bs)
  {
    if bs[i].size - n >= SPLIT_SLACK {
      SplitCover(bs, i, n);
      MarkCover(Split(bs, i, n), i, true);
    } else {
      MarkCover(bs, i, true);
    }
  }

  lemma MergeCover(bs: seq<Block>, i: nat)
    requires i + 1 < |bs| && bs[i].End() == bs[i + 1].addr
    ensures Cover(Merge(bs, i)) == Cover(bs)
  {
    var m := bs[i].(size := bs[i].size + bs[i + 1].Length());
    assert bs[i..i + 2] == [bs[i], bs[i + 1]];
    CoverPair(bs[i], bs[i + 1], m);
    CoverSwap(bs, i, i + 2, [m]);
  }

  lemma FreeForwardCover(bs: seq<Block>, i: nat)
    requires i < |bs|
    ensures Cover(FreeForward(bs, i)) == Cover(bs)
  {
    if JoinsNext(bs, i) {
      MergeCover(bs, i);
      MarkCover(Merge(bs, i), i, false);
    } else {
      MarkCover(bs, i, false);
    }
  }

  lemma FreeCover(bs: seq<Block>, i: nat)
    requires i < |bs|
    ensures Cover(FreeAt(bs, i)) == Cover(bs)
  {
    if JoinsPrev(bs, i) {
      MergeCover(bs, i - 1);
      FreeForwardCover(Merge(bs, i - 1), i - 1);
    } else {
      FreeForwardCover(bs, i);
    }
  }

  // A page pmm_alloc may answer: none (0), or one the heap does not own yet.
  predicate FreshPage(s: State, page: nat) {
    page == 0 || (IsPage(page) && page !in s.pages)
  }

  lemma GrowCover(s: State, page: nat)
    requires Inv(s) && IsPage(page) && page !in s.pages
    ensures Inv(State(s.blocks + [FreshBlock(page)], s.pages + [page]))
  {
    CoverAppend(s.blocks, [FreshBlock(page)]);
    CoverAppend(PageBlocks(s.pages), [FreshBlock(page)]);
    assert PageBlocks(s.pages + [page]) == PageBlocks(s.pages) + [FreshBlock(page)];
  }

  // Tested or not, the search keeps the blocks an exact tiling of the pages.
  lemma KmallocKeepsTiling(s: State, n: nat, page: nat, emptyOnly: bool)
    requires Inv(s) && FreshPage(s, page)
    ensures Inv(Kmalloc(s, n, page, emptyOnly).0)
  {
    var i := FirstFit(s.blocks, n, emptyOnly);
    if n <= MAX_REQUEST {
      if i < |s.blocks| {
        CarveCover(s.blocks, i, n);
      } else if page != 0 {
        GrowCover(s, page);
        CarveCover(s.blocks + [FreshBlock(page)], i, n);
      }
    }
  }

  lemma KfreeKeepsTiling(s: State, ptr: nat)
    requires Inv(s) && IsLive(s.blocks, ptr)
    ensures Inv(Kfree(s, ptr))
  {
    FreeCover(s.blocks, IndexOf(s.blocks, ptr));
  }

  // ------------------------------------------------------ consequences of tiling

  // Every byte of a block lies in an acquired page.
  lemma BlockByteInPage(s: State, i: nat, x: nat)
    requires Inv(s) && i < |s.blocks| && s.blocks[i].addr <= x < s.blocks[i].End()
    ensures x / PAGE_SIZE * PAGE_SIZE in s.pages && 0 < x < WORD32
  {
    var d := x - s.blocks[i].addr;
    CoverAt(s.blocks, i, d);
    CoverLength(PageBlocks(s.pages));
    PageTotal(s.pages);
    var k := Total(s.blocks[..i]) + d;
    PageAddrAt(s.pages, k);
    PageOfByte(s.pages[k / PAGE_SIZE], k % PAGE_SIZE);
  }

  lemma PageOfByte(p: nat, d: nat)
    requires IsPage(p) && d < PAGE_SIZE
    ensures (p + d) / PAGE_SIZE * PAGE_SIZE == p && 0 < p + d < WORD32
  {
  }

  // Headers and payloads never overlap, lie inside acquired pages, account for
  // every byte of them, and keep each size within uint32.
  lemma TilingFacts(s: State)
    requires Inv(s)
    ensures |s.blocks| >= 1 && s.blocks[0].addr == s.pages[0]
    ensures Apart(s.blocks)
    ensures Total(s.blocks) == PAGE_SIZE * |s.pages|
    ensures forall i :: 0 <= i < |s.blocks| ==> 0 < s.blocks[i].addr && s.blocks[i].End() <= WORD32
  {
    PageAddrsDistinct(s.pages);
    DistinctCoverApart(s.blocks);
    CoverLength(s.blocks);
    CoverLength(PageBlocks(s.pages));
    PageTotal(s.pages);
    PageAddrAt(s.pages, 0);
    CoverAt(s.blocks, 0, 0);
    forall i | 0 <= i < |s.blocks|
      ensures 0 < s.blocks[i].addr && s.blocks[i].End() <= WORD32
    {
      BlockByteInPage(s, i, s.blocks[i].addr);
      BlockByteInPage(s, i, s.blocks[i].End() - 1);
    }
  }

  lemma ApartDistinct(bs: seq<Block>)
    requires Apart(bs)
    ensures forall i, j :: 0 <= i < j < |bs| ==> bs[i].addr != bs[j].addr && bs[i] != bs[j]
  {
  }

  lemma IndexOfAt(bs: seq<Block>, i: nat)
    requires Apart(bs) && i < |bs|
    ensures IndexOf(bs, bs[i].Payload()) == i
  {
    var k := IndexOf(bs, bs[i].Payload());
    if k < i { ApartDistinct(bs); }
  }

  // --------------------------------------------------------- the set of live blocks

  lemma ReplacedLive(bs: seq<Block>, i: nat, mid: seq<Block>)
    requires i < |bs| && Apart(bs)
    ensures Live(bs[..i] + mid + bs[i + 1..]) == Live(bs) - {bs[i]} + Live(mid)
  {
    ApartDistinct(bs);
    assert bs == bs[..i] + [bs[i]] + bs[i + 1..];
    assert bs[i] !in bs[..i] && bs[i] !in bs[i + 1..];
  }

  lemma CarveLive(bs: seq<Block>, i: nat, n: nat)
    requires i < |bs| && bs[i].size >= n && Apart(bs)
    ensures Carve(bs, i, n)[i].inUse && Carve(bs, i, n)[i].addr == bs[i].addr
    ensures n <= Carve(bs, i, n)[i].size < n + SPLIT_SLACK
    ensures Live(Carve(bs, i, n)) == Live(bs) - {bs[i]} + {Carve(bs, i, n)[i]}
  {
    var out := Carve(bs, i, n);
    var mid := if bs[i].size - n >= SPLIT_SLACK then [out[i], out[i + 1]] else [out[i]];
    assert out == bs[..i] + mid + bs[i + 1..];
    ReplacedLive(bs, i, mid);
    assert Live(mid) == {out[i]};
  }

  // What kfree leaves of the list: blocks lo..hi become one free block.
  predicate Collapses(bs: seq<Block>, lo: nat, hi: nat, out: seq<Block>)
    requires lo < hi <= |bs|
  {
    |out| == |bs| - (hi - lo) + 1 &&
    out[..lo] == bs[..lo] && out[lo + 1..] == bs[hi..] &&
    out[lo].addr == bs[lo].addr && out[lo].End() == bs[hi - 1].End() && !out[lo].inUse
  }

  function FreeLow(bs: seq<Block>, i: nat): nat
    requires i < |bs|
  {
    if JoinsPrev(bs, i) then i - 1 else i
  }

  function FreeHigh(bs: seq<Block>, i: nat): nat
    requires i < |bs|
  {
    if JoinsNext(bs, i) then i + 2 else i + 1
  }

  lemma ForwardShape(bs: seq<Block>, i: nat)
    requires i < |bs|
    ensures Collapses(bs, i, FreeHigh(bs, i), FreeForward(bs, i))
  {
  }

  lemma FreeShape(bs: seq<Block>, i: nat)
    requires i < |bs|
    ensures Collapses(bs, FreeLow(bs, i), FreeHigh(bs, i), FreeAt(bs, i))
  {
    if JoinsPrev(bs, i) {
      var left := Merge(bs, i - 1);
      assert left[i..] == bs[i + 1..];
      assert JoinsNext(left, i - 1) == JoinsNext(bs, i);
      ForwardShape(left, i - 1);
      if JoinsNext(bs, i) { assert left[i + 1..] == bs[i + 2..]; }
    } else {
      ForwardShape(bs, i);
    }
  }

  lemma FreedRange(bs: seq<Block>, i: nat)
    requires i < |bs| && bs[i].inUse
    ensures Live(bs[FreeLow(bs, i)..FreeHigh(bs, i)]) == {bs[i]}
  {
    assert bs[i] == bs[FreeLow(bs, i)..FreeHigh(bs, i)][i - FreeLow(bs, i)];
  }

  lemma FreeLive(bs: seq<Block>, i: nat)
    requires i < |bs| && bs[i].inUse && Apart(bs)
    ensures Live(FreeAt(bs, i)) == Live(bs) - {bs[i]}
  {
    var lo, hi := FreeLow(bs, i), FreeHigh(bs, i);
    FreeShape(bs, i);
    ApartDistinct(bs);
    CollapsesLive(bs, lo, hi, FreeAt(bs, i));
    FreedRange(bs, i);
    assert bs[i] !in bs[..lo];
    assert bs[i] !in bs[hi..];
  }

  lemma CollapsesLive(bs: seq<Block>, lo: nat, hi: nat, out: seq<Block>)
    requires lo < hi <= |bs| && Collapses(bs, lo, hi, out)
    ensures Live(out) == Live(bs[..lo]) + Live(bs[hi..])
    ensures Live(bs) == Live(bs[..lo]) + Live(bs[lo..hi]) + Live(bs[hi..])
  {
    assert out == bs[..lo] + [out[lo]] + bs[hi..];
    assert bs == bs[..lo] + bs[lo..hi] + bs[hi..];
  }

  // ------------------------------------------------------------ maximal coalescing

  lemma CarveCoalesced(bs: seq<Block>, i: nat, n: nat)
    requires i < |bs| && bs[i].size >= n && !bs[i].inUse && Coalesced(bs)
    ensures Coalesced(Carve(bs, i, n))
  {
    var out := Carve(bs, i, n);
    if bs[i].size - n >= SPLIT_SLACK {
      assert out == bs[..i] + [out[i], out[i + 1]] + bs[i + 1..];
      if i + 1 < |bs| { assert !Mergeable(bs[i], bs[i + 1]); }
    }
  }

  lemma FreeCoalesced(bs: seq<Block>, i: nat)
    requires i < |bs| && bs[i].inUse && Coalesced(bs)
    ensures Coalesced(FreeAt(bs, i))
  {
    var out, lo, hi := FreeAt(bs, i), FreeLow(bs, i), FreeHigh(bs, i);
    FreeShape(bs, i);
    forall k, m | 0 <= k < m < |out| && m == k + 1 ensures !Mergeable(out[k], out[m]) {
      if m < lo {
        assert out[k] == bs[..lo][k] && out[m] == bs[..lo][m];
      } else if m == lo {
        assert out[k] == bs[..lo][k];
        assert !Mergeable(bs[k], bs[lo]);
      } else {
        assert out[m] == bs[hi..][m - lo - 1];
        var h := hi + (m - lo - 1);
        assert !Mergeable(bs[h - 1], bs[h]);
        if k > lo { assert out[k] == bs[hi..][k - lo - 1]; }
      }
    }
  }
}
