// The block list of kernel/heap.c as a value: what heap_init, kmalloc and kfree
// do to it, and the invariants every one of them keeps.
module HeapModel {
  import opened Words

  const HEADER_SIZE: nat := 24
  const MAX_REQUEST: nat := PAGE_SIZE - HEADER_SIZE
  const SPLIT_SLACK: nat := HEADER_SIZE + 4

  // One header and the payload after it.
  datatype Block = Block(addr: nat, size: nat, inUse: bool) {
    function Payload(): nat { addr + HEADER_SIZE }

    function End(): nat { addr + HEADER_SIZE + size }

    function Length(): nat { HEADER_SIZE + size }
  }

  // `blocks` is in list order, `pages` in the order they were acquired.
  datatype State = State(blocks: seq<Block>, pages: seq<nat>)

  function FreshBlock(page: nat): Block {
    Block(page, MAX_REQUEST, false)
  }

  // ---------------------------------------------------------------- operations

  function Init(page: nat): State {
    State([FreshBlock(page)], [page])
  }

  // `emptyOnly` says whether the search skips blocks in use, as include/heap.h
  // documents; the code as written never looks at `in_use` (emptyOnly == false).
  predicate Fits(b: Block, n: nat, emptyOnly: bool) {
    b.size >= n && (emptyOnly ==> !b.inUse)
  }

  function FirstFit(bs: seq<Block>, n: nat, emptyOnly: bool): (i: nat)
    ensures i <= |bs|
    ensures i < |bs| ==> Fits(bs[i], n, emptyOnly)
    ensures forall j :: 0 <= j < i ==> !Fits(bs[j], n, emptyOnly)
  {
    if bs == [] then 0
    else if Fits(bs[0], n, emptyOnly) then 0
    else 1 + FirstFit(bs[1..], n, emptyOnly)
  }

  // The two blocks a block is cut into: n bytes, then the rest, free.
  function Halves(b: Block, n: nat): seq<Block>
    requires b.size >= n + HEADER_SIZE
  {
    [b.(size := n), Block(b.Payload() + n, b.size - n - HEADER_SIZE, false)]
  }

  // resize_block: cut block i down to n bytes and link a free block behind it.
  function Split(bs: seq<Block>, i: nat, n: nat): seq<Block>
    requires i < |bs| && bs[i].size >= n + HEADER_SIZE
  {
    bs[..i] + Halves(bs[i], n) + bs[i + 1..]
  }

  function Carve(bs: seq<Block>, i: nat, n: nat): seq<Block>
    requires i < |bs| && bs[i].size >= n
  {
    var cut := if bs[i].size - n >= SPLIT_SLACK then Split(bs, i, n) else bs;
    cut[i := cut[i].(inUse := true)]
  }

  // `page` is what pmm_alloc would answer; 0 stands for "no page".
  function Kmalloc(s: State, n: nat, page: nat, emptyOnly: bool): (State, nat) {
    var i := FirstFit(s.blocks, n, emptyOnly);
    if n > MAX_REQUEST then (s, 0)
    else if i < |s.blocks| then (s.(blocks := Carve(s.blocks, i, n)), s.blocks[i].Payload())
    else if page == 0 then (s, 0)
    else (State(Carve(s.blocks + [FreshBlock(page)], i, n), s.pages + [page]), page + HEADER_SIZE)
  }

  predicate Mergeable(a: Block, b: Block) {
    !a.inUse && !b.inUse && a.End() == b.addr
  }

  // Block i swallows its successor.
  function Merge(bs: seq<Block>, i: nat): seq<Block>
    requires i + 1 < |bs|
  {
    bs[..i] + [bs[i].(size := bs[i].size + bs[i + 1].Length())] + bs[i + 2..]
  }

  // The previous neighbour is free and ends where block i starts.
  predicate JoinsPrev(bs: seq<Block>, i: nat)
    requires i < |bs|
  {
    i > 0 && bs[i - 1].End() == bs[i].addr && !bs[i - 1].inUse
  }

  // The next neighbour is free and starts where block i ends.
  predicate JoinsNext(bs: seq<Block>, i: nat)
    requires i < |bs|
  {
    i + 1 < |bs| && bs[i].End() == bs[i + 1].addr && !bs[i + 1].inUse
  }

  function FreeForward(bs: seq<Block>, i: nat): seq<Block>
    requires i < |bs|
  {
    var left := if JoinsNext(bs, i) then Merge(bs, i) else bs;
    left[i := left[i].(inUse := false)]
  }

  // kfree on block i: merge backwards, then forwards, then clear in_use.
  function FreeAt(bs: seq<Block>, i: nat): seq<Block>
    requires i < |bs|
  {
    if JoinsPrev(bs, i) then FreeForward(Merge(bs, i - 1), i - 1) else FreeForward(bs, i)
  }

  predicate IsLive(bs: seq<Block>, ptr: nat) {
    exists i :: 0 <= i < |bs| && bs[i].inUse && bs[i].Payload() == ptr
  }

  function IndexOf(bs: seq<Block>, ptr: nat): (i: nat)
    ensures i < |bs| ==> bs[i].Payload() == ptr
    ensures i <= |bs|
    ensures forall j :: 0 <= j < i ==> bs[j].Payload() != ptr
  {
    if bs == [] || bs[0].Payload() == ptr then 0 else 1 + IndexOf(bs[1..], ptr)
  }

  function Kfree(s: State, ptr: nat): State
    requires IsLive(s.blocks, ptr)
  {
    s.(blocks := FreeAt(s.blocks, IndexOf(s.blocks, ptr)))
  }

  // ---------------------------------------------------------------- invariants

  function Range(a: nat, n: nat): seq<nat> {
    seq(n, i => a + i)
  }

  // The addresses the blocks occupy, header and payload, in list order.
  function Cover(bs: seq<Block>): seq<nat> {
    if bs == [] then [] else Range(bs[0].addr, bs[0].Length()) + Cover(bs[1..])
  }

  function PageBlocks(pages: seq<nat>): seq<Block> {
    seq(|pages|, i requires 0 <= i < |pages| => FreshBlock(pages[i]))
  }

  // The addresses of the acquired pages, in the order they were acquired.
  function PageAddrs(pages: seq<nat>): seq<nat> {
    Cover(PageBlocks(pages))
  }

  predicate IsPage(p: nat) {
    p > 0 && p % PAGE_SIZE == 0 && p + PAGE_SIZE <= WORD32
  }

  ghost predicate Distinct<T>(s: seq<T>) {
    forall i, j :: 0 <= i < j < |s| ==> s[i] != s[j]
  }

  ghost predicate PagesOk(pages: seq<nat>) {
    |pages| >= 1 && Distinct(pages) && forall i :: 0 <= i < |pages| ==> IsPage(pages[i])
  }

  ghost predicate Inv(s: State) {
    PagesOk(s.pages) && Cover(s.blocks) == PageAddrs(s.pages)
  }

  ghost predicate Coalesced(bs: seq<Block>) {
    forall i, j :: 0 <= i < j < |bs| && j == i + 1 ==> !Mergeable(bs[i], bs[j])
  }

  // ------------------------------------------------- what the tiling invariant says

  lemma {:induction false} CoverAppend(a: seq<Block>, b: seq<Block>)
    ensures Cover(a + b) == Cover(a) + Cover(b)
  {
    if a == [] {
      assert a + b == b;
    } else {
      assert (a + b)[1..] == a[1..] + b;
      CoverAppend(a[1..], b);
    }
  }

  function Total(bs: seq<Block>): nat {
    if bs == [] then 0 else bs[0].Length() + Total(bs[1..])
  }

  lemma {:induction false} CoverLength(bs: seq<Block>)
    ensures |Cover(bs)| == Total(bs)
  {
    if bs != [] { CoverLength(bs[1..]); }
  }

  // Where byte d of block k sits inside the cover.
  lemma {:induction false} CoverAt(bs: seq<Block>, k: nat, d: nat)
    requires k < |bs| && d < bs[k].Length()
    ensures Total(bs[..k]) + bs[k].Length() <= |Cover(bs)|
    ensures Cover(bs)[Total(bs[..k]) + d] == bs[k].addr + d
  {
    assert bs == bs[..k] + ([bs[k]] + bs[k + 1..]);
    CoverAppend(bs[..k], [bs[k]] + bs[k + 1..]);
    CoverLength(bs[..k]);
    assert ([bs[k]] + bs[k + 1..])[1..] == bs[k + 1..];
  }

  lemma {:induction false} TotalPrefix(bs: seq<Block>, j: nat, k: nat)
    requires j < k <= |bs|
    ensures Total(bs[..j]) + bs[j].Length() <= Total(bs[..k])
  {
    CoverAppend(bs[..j], [bs[j]]);
    CoverAppend(bs[..j] + [bs[j]], bs[j + 1..k]);
    assert bs[..j] + [bs[j]] + bs[j + 1..k] == bs[..k];
    CoverLength(bs[..j]);
    CoverLength(bs[..k]);
    assert Cover([bs[j]]) == Range(bs[j].addr, bs[j].Length()) + Cover([]) ;
  }

  ghost predicate Apart(bs: seq<Block>) {
    forall i, j :: 0 <= i < j < |bs| ==> bs[i].End() <= bs[j].addr || bs[j].End() <= bs[i].addr
  }

  lemma DistinctCoverApart(bs: seq<Block>)
    requires Distinct(Cover(bs))
    ensures Apart(bs)
  {
    forall i, j | 0 <= i < j < |bs|
      ensures bs[i].End() <= bs[j].addr || bs[j].End() <= bs[i].addr
    {
      TotalPrefix(bs, i, j);
      if bs[i].addr <= bs[j].addr < bs[i].End() {
        CoverAt(bs, i, bs[j].addr - bs[i].addr);
        CoverAt(bs, j, 0);
      } else if bs[j].addr <= bs[i].addr < bs[j].End() {
        CoverAt(bs, i, 0);
        CoverAt(bs, j, bs[i].addr - bs[j].addr);
      }
    }
  }

  lemma {:induction false} PageTotal(pages: seq<nat>)
    ensures Total(PageBlocks(pages)) == PAGE_SIZE * |pages|
  {
    if pages != [] {
      assert PageBlocks(pages)[1..] == PageBlocks(pages[1..]);
      PageTotal(pages[1..]);
    }
  }

  lemma {:induction false} PageAddrAt(pages: seq<nat>, x: nat)
    requires x < PAGE_SIZE * |pages|
    ensures x < |PageAddrs(pages)| && PageAddrs(pages)[x] == pages[x / PAGE_SIZE] + x % PAGE_SIZE
  {
    var k := x / PAGE_SIZE;
    CoverAt(PageBlocks(pages), k, x % PAGE_SIZE);
    assert PageBlocks(pages)[..k] == PageBlocks(pages[..k]);
    PageTotal(pages[..k]);
    assert PageBlocks(pages)[k].Length() == PAGE_SIZE;
    assert x == PAGE_SIZE * k + x % PAGE_SIZE;
  }

  lemma PageBytesApart(p: nat, q: nat, r: nat, t: nat)
    requires IsPage(p) && IsPage(q) && p != q && r < PAGE_SIZE && t < PAGE_SIZE
    ensures p + r != q + t
  {
  }

  lemma PageAddrsDistinct(pages: seq<nat>)
    requires PagesOk(pages)
    ensures Distinct(PageAddrs(pages))
  {
    CoverLength(PageBlocks(pages));
    PageTotal(pages);
    forall x, y | 0 <= x < y < |PageAddrs(pages)|
      ensures PageAddrs(pages)[x] != PageAddrs(pages)[y]
    {
      PageAddrAt(pages, x);
      PageAddrAt(pages, y);
      var i, j := x / PAGE_SIZE, y / PAGE_SIZE;
      if i != j { PageBytesApart(pages[i], pages[j], x % PAGE_SIZE, y % PAGE_SIZE); }
    }
  }
}
