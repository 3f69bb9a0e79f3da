// When a table of block headers holds a block list as a doubly linked list, and
// which header updates turn it into a table of the next list.
module HeapLinks {
  import opened HeapModel

  datatype Header = Header(size: nat, inUse: nat, next: nat, prev: nat)

  type Headers = map<nat, Header>

  predicate ApartFrom(a: nat, c: nat) {
    a + HEADER_SIZE <= c || c + HEADER_SIZE <= a
  }

  // Table g is table h with header x written at address a: no header apart from that
  // place changes.
  ghost predicate Wrote(h: Headers, g: Headers, a: nat, x: Header) {
    a in h && g.Keys == h.Keys && g[a] == x && forall c :: c in h && ApartFrom(a, c) ==> g[c] == h[c]
  }

  lemma WroteTwice(h: Headers, h1: Headers, g: Headers, a: nat, x: Header, y: Header)
    requires Wrote(h, h1, a, x) && Wrote(h1, g, a, y)
    ensures Wrote(h, g, a, y)
  {
  }

  // The header addresses of a list.
  ghost function Addrs(bs: seq<Block>): set<nat> {
    set b | b in bs :: b.addr
  }

  function NextAddr(bs: seq<Block>, i: nat): nat
    requires i < |bs|
  {
    if i + 1 < |bs| then bs[i + 1].addr else 0
  }

  function PrevAddr(bs: seq<Block>, i: nat): nat
    requires i < |bs|
  {
    if i > 0 then bs[i - 1].addr else 0
  }

  // Header i of the list is in the table; any non-zero in_use byte means "in use".
  predicate HoldsAt(h: Headers, bs: seq<Block>, i: nat)
    requires i < |bs|
  {
    bs[i].addr in h &&
    var x := h[bs[i].addr];
    x.size == bs[i].size && (x.inUse != 0) == bs[i].inUse && x.next == NextAddr(bs, i) && x.prev == PrevAddr(bs, i)
  }

  // The table holds the whole list: next and prev are inverse and null at the ends.
  ghost predicate Holds(h: Headers, bs: seq<Block>) {
    forall i :: 0 <= i < |bs| ==> HoldsAt(h, bs, i)
  }

  // Both tables have the same header for every block of the list not in ks.
  ghost predicate Agree(h: Headers, g: Headers, bs: seq<Block>, ks: set<nat>) {
    forall k :: 0 <= k < |bs| && k !in ks && bs[k].addr in h ==> bs[k].addr in g && g[bs[k].addr] == h[bs[k].addr]
  }

  lemma CarryOver(h: Headers, g: Headers, bs: seq<Block>, j: nat, out: seq<Block>, k: nat)
    requires j < |bs| && k < |out| && HoldsAt(h, bs, j) && out[k] == bs[j]
    requires out[k].addr in g && g[out[k].addr] == h[bs[j].addr]
    requires NextAddr(out, k) == NextAddr(bs, j) && PrevAddr(out, k) == PrevAddr(bs, j)
    ensures HoldsAt(g, out, k)
  {
  }

  lemma MarkHolds(h: Headers, g: Headers, bs: seq<Block>, i: nat, flag: nat)
    requires Holds(h, bs) && i < |bs| && Agree(h, g, bs, {i})
    requires bs[i].addr in g && bs[i].addr in h && g[bs[i].addr] == h[bs[i].addr].(inUse := flag)
    ensures Holds(g, bs[i := bs[i].(inUse := flag != 0)])
  {
    var out := bs[i := bs[i].(inUse := flag != 0)];
    forall k | 0 <= k < |out| ensures HoldsAt(g, out, k) {
      assert HoldsAt(h, bs, k);
    }
  }

  lemma SplitElements(bs: seq<Block>, i: nat, n: nat)
    requires i < |bs| && bs[i].size >= n + HEADER_SIZE
    ensures var out := Split(bs, i, n);
            |out| == |bs| + 1 && out[i] == bs[i].(size := n) &&
            out[i + 1] == Block(bs[i].Payload() + n, bs[i].size - n - HEADER_SIZE, false) &&
            (forall k :: 0 <= k < i ==> out[k] == bs[k]) &&
            (forall k :: i + 1 < k < |out| ==> out[k] == bs[k - 1])
  {
  }

  // The positions, in the split list, of the headers resize_block writes.
  function SplitTouched(bs: seq<Block>, i: nat): set<nat>
    requires i < |bs|
  {
    if i + 1 < |bs| then {i, i + 1, i + 2} else {i, i + 1}
  }

  lemma SplitHolds(h: Headers, g: Headers, bs: seq<Block>, i: nat, n: nat)
    requires Holds(h, bs) && i < |bs| && bs[i].size >= n + HEADER_SIZE
    requires Agree(h, g, Split(bs, i, n), SplitTouched(bs, i))
    requires var cut := bs[i].Payload() + n;
             bs[i].addr in h && bs[i].addr in g && cut in g &&
             g[bs[i].addr] == h[bs[i].addr].(size := n, next := cut) &&
             g[cut] == Header(bs[i].size - n - HEADER_SIZE, 0, NextAddr(bs, i), bs[i].addr) &&
             (i + 1 < |bs| ==> bs[i + 1].addr in h && bs[i + 1].addr in g &&
                               g[bs[i + 1].addr] == h[bs[i + 1].addr].(prev := cut))
    ensures Holds(g, Split(bs, i, n))
  {
    var out := Split(bs, i, n);
    SplitElements(bs, i, n);
    forall k | 0 <= k < |out| ensures HoldsAt(g, out, k) {
      var j := if k <= i then k else k - 1;
      assert HoldsAt(h, bs, j);
      if k < i || k > i + 2 { CarryOver(h, g, bs, j, out, k); }
    }
  }

  lemma MergeElements(bs: seq<Block>, i: nat)
    requires i + 1 < |bs|
    ensures var out := Merge(bs, i);
            |out| == |bs| - 1 && out[i] == bs[i].(size := bs[i].size + bs[i + 1].Length()) &&
            (forall k :: 0 <= k < i ==> out[k] == bs[k]) &&
            (forall k :: i < k < |out| ==> out[k] == bs[k + 1])
  {
  }

  // The positions, in the old list, of the headers a merge writes.
  function MergeTouched(bs: seq<Block>, i: nat): set<nat>
    requires i + 1 < |bs|
  {
    if i + 2 < |bs| then {i, i + 2} else {i}
  }

  lemma MergeHolds(h: Headers, g: Headers, bs: seq<Block>, i: nat)
    requires Holds(h, bs) && i + 1 < |bs| && Agree(h, g, bs, MergeTouched(bs, i))
    requires bs[i].addr in h && bs[i].addr in g &&
             g[bs[i].addr] == h[bs[i].addr].(size := bs[i].size + bs[i + 1].Length(), next := NextAddr(bs, i + 1))
    requires i + 2 < |bs| ==> bs[i + 2].addr in h && bs[i + 2].addr in g &&
                              g[bs[i + 2].addr] == h[bs[i + 2].addr].(prev := bs[i].addr)
    ensures Holds(g, Merge(bs, i))
  {
    var out := Merge(bs, i);
    MergeElements(bs, i);
    forall k | 0 <= k < |out| ensures HoldsAt(g, out, k) {
      var j := if k <= i then k else k + 1;
      assert HoldsAt(h, bs, j);
      if k < i || k > i + 1 { CarryOver(h, g, bs, j, out, k); }
    }
  }

  // Linking a new block, its flag not yet written, behind the last one.
  lemma AppendHolds(h: Headers, g: Headers, bs: seq<Block>, b: Block)
    requires Holds(h, bs) && bs != [] && Agree(h, g, bs + [b], {|bs| - 1, |bs|})
    requires var last := bs[|bs| - 1].addr;
             last in h && last in g && b.addr in g && g[last] == h[last].(next := b.addr) &&
             g[b.addr].size == b.size && (g[b.addr].inUse != 0) == b.inUse &&
             g[b.addr].next == 0 && g[b.addr].prev == last
    ensures Holds(g, bs + [b])
  {
    var out := bs + [b];
    forall k | 0 <= k < |out| ensures HoldsAt(g, out, k) {
      if k < |bs| { assert HoldsAt(h, bs, k); }
      if k < |bs| - 1 { CarryOver(h, g, bs, k, out, k); }
    }
  }

  // ------------------------------------------------------- the writes of heap.c

  ghost predicate SplitRoom(h: Headers, bs: seq<Block>, i: nat, n: nat) {
    i < |bs| && bs[i].size >= n + HEADER_SIZE && Holds(h, bs) && Apart(Split(bs, i, n)) &&
    bs[i].Payload() + n in h
  }

  lemma SplitApart(bs: seq<Block>, i: nat, n: nat, k: nat)
    requires i < |bs| && bs[i].size >= n + HEADER_SIZE && Apart(Split(bs, i, n)) && k < |bs| && k != i
    ensures ApartFrom(bs[i].Payload() + n, bs[k].addr) && ApartFrom(bs[k].addr, bs[i].addr)
  {
    var out := Split(bs, i, n);
    SplitElements(bs, i, n);
    if k < i {
      assert out[k].End() <= out[i].addr || out[i].End() <= out[k].addr;
      assert out[k].End() <= out[i + 1].addr || out[i + 1].End() <= out[k].addr;
    } else {
      assert out[i].End() <= out[k + 1].addr || out[k + 1].End() <= out[i].addr;
      assert out[i + 1].End() <= out[k + 1].addr || out[k + 1].End() <= out[i + 1].addr;
    }
  }

  // What resize_block finds in the headers it reads.
  lemma SplitReads(h: Headers, bs: seq<Block>, i: nat, n: nat)
    requires SplitRoom(h, bs, i, n)
    ensures bs[i].addr in h && h[bs[i].addr].size == bs[i].size && h[bs[i].addr].next == NextAddr(bs, i)
    ensures ApartFrom(bs[i].Payload() + n, bs[i].addr)
    ensures i + 1 < |bs| ==> bs[i + 1].addr in h
    ensures bs[i].addr in Addrs(Split(bs, i, n)) && bs[i].Payload() + n in Addrs(Split(bs, i, n))
    ensures i + 1 < |bs| ==> bs[i + 1].addr in Addrs(Split(bs, i, n))
  {
    var out := Split(bs, i, n);
    SplitElements(bs, i, n);
    assert HoldsAt(h, bs, i) && out[i] in out && out[i + 1] in out;
    if i + 1 < |bs| { assert HoldsAt(h, bs, i + 1) && out[i + 2] in out; }
  }

  // resize_block: the new header, then the successor's prev, then the block itself.
  lemma SplitWritten(h: Headers, h1: Headers, h2: Headers, g: Headers, bs: seq<Block>, i: nat, n: nat)
    requires SplitRoom(h, bs, i, n)
    requires var cut := bs[i].Payload() + n;
             Wrote(h, h1, cut, Header(bs[i].size - n - HEADER_SIZE, 0, NextAddr(bs, i), bs[i].addr)) &&
             (if i + 1 < |bs|
              then bs[i + 1].addr in h1 && Wrote(h1, h2, bs[i + 1].addr, h1[bs[i + 1].addr].(prev := cut))
              else h2 == h1) &&
             bs[i].addr in h2 && Wrote(h2, g, bs[i].addr, h2[bs[i].addr].(size := n, next := cut))
    ensures Holds(g, Split(bs, i, n))
  {
    var cut, out := bs[i].Payload() + n, Split(bs, i, n);
    SplitElements(bs, i, n);
    assert HoldsAt(h, bs, i);
    if i + 1 < |bs| {
      assert HoldsAt(h, bs, i + 1);
      SplitApart(bs, i, n, i + 1);
    }
    forall k | 0 <= k < |out| && k !in SplitTouched(bs, i) && out[k].addr in h
      ensures out[k].addr in g && g[out[k].addr] == h[out[k].addr]
    {
      var j := if k < i then k else k - 1;
      SplitApart(bs, i, n, j);
      if i + 1 < |bs| { BlocksApart(out, i + 2, k); }
    }
    SplitHolds(h, g, bs, i, n);
  }

  lemma BlocksDisjoint(bs: seq<Block>, i: nat, k: nat)
    requires Apart(bs) && i < |bs| && k < |bs|
    ensures i != k ==> bs[i].End() <= bs[k].addr || bs[k].End() <= bs[i].addr
  {
  }

  lemma BlocksApart(bs: seq<Block>, i: nat, k: nat)
    requires Apart(bs) && i < |bs| && k < |bs| && i != k
    ensures ApartFrom(bs[i].addr, bs[k].addr)
  {
    var lo, hi := if i < k then i else k, if i < k then k else i;
    assert bs[lo].End() <= bs[hi].addr || bs[hi].End() <= bs[lo].addr;
  }

  // A merge of kfree: the block absorbs its successor, whose successor is relinked.
  lemma MergeWritten(h: Headers, h1: Headers, g: Headers, bs: seq<Block>, i: nat)
    requires Holds(h, bs) && Apart(bs) && i + 1 < |bs|
    requires bs[i].addr in h &&
             Wrote(h, h1, bs[i].addr,
                   h[bs[i].addr].(size := bs[i].size + bs[i + 1].Length(), next := NextAddr(bs, i + 1)))
    requires if i + 2 < |bs|
             then bs[i + 2].addr in h1 && Wrote(h1, g, bs[i + 2].addr, h1[bs[i + 2].addr].(prev := bs[i].addr))
             else g == h1
    ensures Holds(g, Merge(bs, i))
  {
    if i + 2 < |bs| {
      assert HoldsAt(h, bs, i + 2);
      BlocksApart(bs, i, i + 2);
      BlocksApart(bs, i + 2, i);
    }
    forall k | 0 <= k < |bs| && k !in MergeTouched(bs, i) && bs[k].addr in h
      ensures bs[k].addr in g && g[bs[k].addr] == h[bs[k].addr]
    {
      BlocksApart(bs, i, k);
      if i + 2 < |bs| { BlocksApart(bs, i + 2, k); }
    }
    MergeHolds(h, g, bs, i);
  }

  lemma MarkWritten(h: Headers, g: Headers, bs: seq<Block>, i: nat, flag: nat)
    requires Holds(h, bs) && Apart(bs) && i < |bs|
    requires bs[i].addr in h && Wrote(h, g, bs[i].addr, h[bs[i].addr].(inUse := flag))
    ensures Holds(g, bs[i := bs[i].(inUse := flag != 0)])
  {
    forall k | 0 <= k < |bs| && k !in {i} && bs[k].addr in h
      ensures bs[k].addr in g && g[bs[k].addr] == h[bs[k].addr]
    {
      BlocksApart(bs, i, k);
    }
    MarkHolds(h, g, bs, i, flag);
  }

  // kmalloc growing the list: the last block's next, then the new header.
  lemma AppendWritten(h: Headers, h1: Headers, g: Headers, bs: seq<Block>, b: Block)
    requires Holds(h, bs) && bs != [] && Apart(bs + [b])
    requires var last := bs[|bs| - 1].addr;
             last in h && Wrote(h, h1, last, h[last].(next := b.addr)) &&
             b.addr in h1 && Wrote(h1, g, b.addr, h1[b.addr].(size := b.size, next := 0, prev := last)) &&
             (h1[b.addr].inUse != 0) == b.inUse
    ensures Holds(g, bs + [b])
  {
    var out := bs + [b];
    BlocksApart(out, |bs|, |bs| - 1);
    forall k | 0 <= k < |out| && k !in {|bs| - 1, |bs|} && out[k].addr in h
      ensures out[k].addr in g && g[out[k].addr] == h[out[k].addr]
    {
      BlocksApart(out, |bs| - 1, k);
      BlocksApart(out, |bs|, k);
    }
    AppendHolds(h, g, bs, b);
  }
}
