// kernel/heap.c over the bytes of memory: headers are read and written in place and
// pages come from kernel/pmm.c. Every method is proved against the list operation of
// HeapModel it performs.
module KernelHeap {
  import opened Words
  import opened Bytes
  import opened HeapModel
  import opened HeapSteps
  import opened HeapTheorems
  import opened HeapSearch
  import opened HeapLinks
  import opened HeapHeaders
  import PageBitmap

  // The heap's pages are marked taken in the page bitmap.
  ghost predicate OwnsPages(bits: seq<bool>, pages: seq<nat>) {
    forall i :: 0 <= i < |pages| ==> pages[i] / PAGE_SIZE < |bits| && bits[pages[i] / PAGE_SIZE]
  }

  // Every block ends below 4 GiB.
  ghost predicate InReach(bs: seq<Block>) {
    forall k :: 0 <= k < |bs| ==> 0 < bs[k].addr && bs[k].End() <= WORD32
  }

  // pmm_alloc never answers a page the heap already owns.
  lemma AnswerIsFresh(s: State, bits: seq<bool>)
    requires Inv(s) && OwnsPages(bits, s.pages) && |bits| <= 32 * PageBitmap.WORDS
    ensures FreshPage(s, PageBitmap.AllocAnswer(bits))
    ensures OwnsPages(PageBitmap.AllocEffect(bits), s.pages)
    ensures PageBitmap.AllocAnswer(bits) != 0 ==>
              OwnsPages(PageBitmap.AllocEffect(bits), s.pages + [PageBitmap.AllocAnswer(bits)])
  {
  }

  lemma FirstPage(bits: seq<bool>)
    requires PageBitmap.AllocAnswer(bits) != 0 && |bits| <= 32 * PageBitmap.WORDS
    ensures var page := PageBitmap.AllocAnswer(bits);
            IsPage(page) && page + PAGE_SIZE <= PAGE_SIZE * |bits| && OwnsPages(PageBitmap.AllocEffect(bits), [page])
  {
  }

  // One header on a page is the list of heap_init.
  lemma InitHolds(h: Headers, page: nat)
    requires IsPage(page) && page in h && h[page] == Header(MAX_REQUEST, 0, 0, 0)
    ensures Inv(Init(page)) && Holds(h, Init(page).blocks)
  {
    InitSound(page);
  }

  // Nor does giving back another page take one from it.
  lemma OtherPagesStay(s: State, bits: seq<bool>, page: nat)
    requires Inv(s) && OwnsPages(bits, s.pages) && page % PAGE_SIZE == 0 && page !in s.pages
    requires page / PAGE_SIZE < |bits|
    ensures OwnsPages(bits[page / PAGE_SIZE := false], s.pages)
  {
    forall i | 0 <= i < |s.pages| ensures s.pages[i] / PAGE_SIZE != page / PAGE_SIZE {
      assert IsPage(s.pages[i]);
    }
  }

  // The table of a memory is the one it reflects.
  lemma SameView(h: Headers, m: seq<Byte>)
    requires Reflects(h, m)
    ensures View(m) == h
  {
    ViewReflects(m);
    forall a | a in h ensures View(m)[a] == h[a] {
      ReadHeader(h, m, a);
    }
  }

  // Blocks lie below the end of the managed memory, and below 4 GiB.
  lemma BlocksInMemory(s: State, bits: seq<bool>)
    requires Inv(s) && OwnsPages(bits, s.pages)
    ensures InReach(s.blocks)
    ensures forall k :: 0 <= k < |s.blocks| ==> s.blocks[k].End() <= PAGE_SIZE * |bits|
  {
    TilingFacts(s);
    forall k | 0 <= k < |s.blocks| ensures s.blocks[k].End() <= PAGE_SIZE * |bits| {
      BlockByteInPage(s, k, s.blocks[k].End() - 1);
    }
  }

  lemma ApartIgnoresFlag(bs: seq<Block>, i: nat, used: bool)
    requires i < |bs| && Apart(bs[i := bs[i].(inUse := used)])
    ensures Apart(bs)
  {
    var out := bs[i := bs[i].(inUse := used)];
    forall j, k | 0 <= j < k < |bs| ensures bs[j].End() <= bs[k].addr || bs[k].End() <= bs[j].addr {
      assert out[j].End() <= out[k].addr || out[k].End() <= out[j].addr;
    }
  }

  lemma CarveIgnoresFlag(bs: seq<Block>, b: Block, n: nat, used: bool)
    requires b.size >= n
    ensures Carve(bs + [b.(inUse := used)], |bs|, n) == Carve(bs + [b], |bs|, n)
  {
    var x, y := bs + [b], bs + [b.(inUse := used)];
    assert x[..|bs|] == y[..|bs|] && x[|bs| + 1..] == y[|bs| + 1..] == [];
  }

  lemma CarveAddrs(bs: seq<Block>, i: nat)
    requires i < |bs|
    ensures Addrs(bs[i := bs[i].(inUse := true)]) == Addrs(bs) && bs[i].addr in Addrs(bs)
  {
    var out := bs[i := bs[i].(inUse := true)];
    forall b | b in bs ensures b.addr in Addrs(out) {
      var k :| 0 <= k < |bs| && bs[k] == b;
      assert out[k] in out;
    }
    assert bs[i] in bs;
  }

  lemma FlagApart(bs: seq<Block>, b: Block, used: bool)
    requires Apart(bs + [b])
    ensures Apart(bs + [b.(inUse := used)])
  {
    var out := (bs + [b.(inUse := used)])[|bs| := b];
    assert out == bs + [b];
    ApartIgnoresFlag(bs + [b.(inUse := used)], |bs|, b.inUse);
  }

  // The list kmalloc grows by a page, before and after it is carved.
  lemma GrownList(s: State, page: nat, n: nat)
    requires Inv(s) && IsPage(page) && page !in s.pages && n <= MAX_REQUEST
    ensures var grown := s.blocks + [FreshBlock(page)];
            var out := Carve(grown, |s.blocks|, n);
            s.blocks != [] && Inv(State(out, s.pages + [page])) && Apart(grown) && Apart(out) &&
            page in Addrs(out) && s.blocks[|s.blocks| - 1].addr in Addrs(out)
  {
    var grown, k := s.blocks + [FreshBlock(page)], |s.blocks|;
    var out := Carve(grown, k, n);
    TilingFacts(s);
    GrowCover(s, page);
    TilingFacts(State(grown, s.pages + [page]));
    CarveCover(grown, k, n);
    TilingFacts(State(out, s.pages + [page]));
    assert out[k - 1] == s.blocks[k - 1] && out[k - 1] in out;
    assert out[k].addr == page && out[k] in out;
  }

  lemma FlaggedList(s: State, page: nat, n: nat, flag: bool)
    requires Inv(s) && IsPage(page) && page !in s.pages && n <= MAX_REQUEST && InReach(s.blocks)
    ensures var flagged := s.blocks + [FreshBlock(page).(inUse := flag)];
            InReach(flagged) && Carve(flagged, |s.blocks|, n) == Carve(s.blocks + [FreshBlock(page)], |s.blocks|, n)
  {
    CarveIgnoresFlag(s.blocks, FreshBlock(page), n, flag);
  }

  lemma CarvedList(s: State, i: nat, n: nat)
    requires Inv(s) && i < |s.blocks| && s.blocks[i].size >= n
    ensures Inv(s.(blocks := Carve(s.blocks, i, n))) && Apart(Carve(s.blocks, i, n))
  {
    CarveCover(s.blocks, i, n);
    TilingFacts(s.(blocks := Carve(s.blocks, i, n)));
  }

  lemma ListEnds(s: State)
    requires Inv(s)
    ensures s.blocks != [] && s.blocks[0].addr == s.pages[0]
    ensures forall i :: 0 <= i < |s.blocks| ==> s.blocks[i].addr != 0
  {
    TilingFacts(s);
  }

  lemma LiveIndex(s: State, ptr: nat)
    requires Inv(s) && IsLive(s.blocks, ptr)
    ensures IndexOf(s.blocks, ptr) < |s.blocks| && s.blocks[IndexOf(s.blocks, ptr)].Payload() == ptr
  {
    TilingFacts(s);
    var k :| 0 <= k < |s.blocks| && s.blocks[k].inUse && s.blocks[k].Payload() == ptr;
    IndexOfAt(s.blocks, k);
  }

  // kmalloc asks for a page only where its search fails.
  function BitsAfter(s: State, bits: seq<bool>, size: nat, emptyOnly: bool): seq<bool> {
    if size <= MAX_REQUEST && FirstFit(s.blocks, size, emptyOnly) == |s.blocks| then PageBitmap.AllocEffect(bits)
    else bits
  }

  lemma BitsFollowSearch(s: State, bits: seq<bool>, n: nat, emptyOnly: bool)
    ensures n > 4072 || !NoneFits(s.blocks, n, emptyOnly) ==> BitsAfter(s, bits, n, emptyOnly) == bits
    ensures n <= 4072 && NoneFits(s.blocks, n, emptyOnly) ==>
              BitsAfter(s, bits, n, emptyOnly) == PageBitmap.AllocEffect(bits)
  {
    if n <= 4072 {
      var i := FirstFit(s.blocks, n, emptyOnly);
      if NoneFits(s.blocks, n, emptyOnly) { NoneIsFirst(s.blocks, n, emptyOnly); }
    }
  }

  // What the first merge of kfree leaves: the list, and where the freed block is now.
  function AfterPrev(bs: seq<Block>, i: nat): (seq<Block>, nat)
    requires i < |bs|
  {
    if JoinsPrev(bs, i) then (Merge(bs, i - 1), i - 1) else (bs, i)
  }

  lemma MergedSize(s: State, i: nat)
    requires Inv(s) && i + 1 < |s.blocks| && s.blocks[i].End() == s.blocks[i + 1].addr
    ensures Inv(s.(blocks := Merge(s.blocks, i)))
    ensures Apart(s.blocks) && InReach(s.blocks)
    ensures s.blocks[i].size + s.blocks[i + 1].Length() < WORD32
    ensures Addrs(Merge(s.blocks, i)) <= Addrs(s.blocks)
  {
    TilingFacts(s);
    MergeCover(s.blocks, i);
    assert s.blocks[i] in s.blocks;
  }

  class Heap {
    const mem: array<Byte>
    const pmm: PageBitmap.Pmm
    var head: nat
    ghost var view: Headers
    ghost var state: State

    // The list in memory is the model's, and tiles the acquired pages.
    ghost predicate Linked()
      reads this, mem
    {
      Inv(state) && Holds(view, state.blocks) && head == state.pages[0] && Reflects(view, mem[..])
    }

    // And those pages are the heap's own.
    ghost predicate Valid()
      reads this, mem, pmm, pmm.bitmap
    {
      Linked() && pmm.Valid() && PAGE_SIZE * pmm.pagesNum <= mem.Length && OwnsPages(pmm.Bits(), state.pages)
    }

    constructor (mem: array<Byte>, pmm: PageBitmap.Pmm)
      ensures this.mem == mem && this.pmm == pmm && Reflects(view, mem[..])
    {
      this.mem := mem;
      this.pmm := pmm;
      head := 0;
      view := View(mem[..]);
      state := State([], []);
      ViewReflects(mem[..]);
    }

    // ------------------------------------------------------------- header fields

    // Loads the header at address a.
    method Read(a: nat) returns (x: Header)
      requires Reflects(view, mem[..]) && a in view
      ensures x == view[a] && x.size < WORD32 && x.next < WORD64 && x.prev < WORD64
    {
      ReadHeader(view, mem[..], a);
      x := HeaderAt(mem[..], a);
    }

    // One store instruction: an n-byte word at address a.
    method StoreWord(a: nat, n: nat, v: nat)
      requires InBounds(mem[..], a, n)
      modifies mem
      ensures mem[..] == Store(old(mem[..]), a, n, v)
    {
      var rest := v;
      for k := 0 to n
        invariant Store(mem[..], a + k, n - k, rest) == Store(old(mem[..]), a, n, v)
      {
        ghost var was := mem[..];
        mem[a + k] := rest % 256;
        assert mem[..] == was[a + k := rest % 256];
        rest := rest / 256;
      }
    }

    // Stores an n-byte field at offset `off` of the header at a, which then reads x.
    method SetField(a: nat, off: nat, n: nat, v: nat, ghost x: Header, ghost headers: set<nat>)
      requires Reflects(view, mem[..]) && a in headers && FieldStored(view, mem[..], a, off, n, v, x)
      modifies mem, this`view
      ensures Reflects(view, mem[..]) && Wrote(old(view), view, a, x)
      ensures Untouched(old(mem[..]), mem[..], headers)
    {
      ghost var was := mem[..];
      StoreWord(a + off, n, v);
      HeaderWrite(was, mem[..], a, headers);
      WroteBytes(view, was, mem[..], a);
      view := View(mem[..]);
    }

    method SetSize(a: nat, v: nat, ghost headers: set<nat>)
      requires Reflects(view, mem[..]) && a in view && a in headers && v < WORD32
      modifies mem, this`view
      ensures Reflects(view, mem[..]) && Wrote(old(view), view, a, old(view)[a].(size := v))
      ensures Untouched(old(mem[..]), mem[..], headers)
    {
      SizeStored(view, mem[..], a, v);
      SetField(a, 0, SIZE32, v, view[a].(size := v), headers);
    }

    method SetInUse(a: nat, v: nat, ghost headers: set<nat>)
      requires Reflects(view, mem[..]) && a in view && a in headers && v < 256
      modifies mem, this`view
      ensures Reflects(view, mem[..]) && Wrote(old(view), view, a, old(view)[a].(inUse := v))
      ensures Untouched(old(mem[..]), mem[..], headers)
    {
      InUseStored(view, mem[..], a, v);
      SetField(a, 4, 1, v, view[a].(inUse := v), headers);
    }

    method SetNext(a: nat, v: nat, ghost headers: set<nat>)
      requires Reflects(view, mem[..]) && a in view && a in headers && v < WORD64
      modifies mem, this`view
      ensures Reflects(view, mem[..]) && Wrote(old(view), view, a, old(view)[a].(next := v))
      ensures Untouched(old(mem[..]), mem[..], headers)
    {
      NextStored(view, mem[..], a, v);
      SetField(a, 8, SIZE64, v, view[a].(next := v), headers);
    }

    method SetPrev(a: nat, v: nat, ghost headers: set<nat>)
      requires Reflects(view, mem[..]) && a in view && a in headers && v < WORD64
      modifies mem, this`view
      ensures Reflects(view, mem[..]) && Wrote(old(view), view, a, old(view)[a].(prev := v))
      ensures Untouched(old(mem[..]), mem[..], headers)
    {
      PrevStored(view, mem[..], a, v);
      SetField(a, 16, SIZE64, v, view[a].(prev := v), headers);
    }

    // ------------------------------------------------------------- resize_block

    method SetHeader(a: nat, size: nat, inUse: nat, next: nat, prev: nat, ghost headers: set<nat>)
      requires Reflects(view, mem[..]) && a in view && a in headers
      requires size < WORD32 && inUse < 256 && next < WORD64 && prev < WORD64
      modifies mem, this`view
      ensures Reflects(view, mem[..]) && Wrote(old(view), view, a, Header(size, inUse, next, prev))
      ensures Untouched(old(mem[..]), mem[..], headers)
    {
      ghost var h0 := view;
      SetSize(a, size, headers);
      ghost var h1 := view;
      SetInUse(a, inUse, headers);
      ghost var h2 := view;
      SetNext(a, next, headers);
      ghost var h3 := view;
      SetPrev(a, prev, headers);
      WroteTwice(h0, h1, h2, a, h1[a], h2[a]);
      WroteTwice(h0, h2, h3, a, h2[a], h3[a]);
      WroteTwice(h0, h3, view, a, h3[a], view[a]);
    }

    method SetLinkAndSize(a: nat, next: nat, size: nat, ghost headers: set<nat>)
      requires Reflects(view, mem[..]) && a in view && a in headers && size < WORD32 && next < WORD64
      modifies mem, this`view
      ensures Reflects(view, mem[..]) && Wrote(old(view), view, a, old(view)[a].(size := size, next := next))
      ensures Untouched(old(mem[..]), mem[..], headers)
    {
      ghost var h0 := view;
      SetNext(a, next, headers);
      ghost var h1 := view;
      SetSize(a, size, headers);
      WroteTwice(h0, h1, view, a, h1[a], view[a]);
    }

    // Cuts the block at address `block`, the i-th of the list, down to `size` bytes.
    method ResizeBlock(block: nat, size: nat, ghost bs: seq<Block>, ghost i: nat, ghost headers: set<nat>)
      requires Reflects(view, mem[..]) && SplitRoom(view, bs, i, size) && block == bs[i].addr
      requires InReach(bs) && Addrs(Split(bs, i, size)) <= headers
      modifies mem, this`view
      ensures Reflects(view, mem[..]) && Holds(view, Split(bs, i, size))
      ensures Untouched(old(mem[..]), mem[..], headers)
    {
      ghost var h0 := view;
      SplitReads(h0, bs, i, size);
      var x := Read(block);
      var newBlock := block + HEADER_SIZE + size;
      SetHeader(newBlock, x.size - (size + HEADER_SIZE), 0, x.next, block, headers);
      ghost var h1 := view;
      if x.next != 0 { SetPrev(x.next, newBlock, headers); }
      ghost var h2 := view;
      SetLinkAndSize(block, newBlock, size, headers);
      SplitWritten(h0, h1, h2, view, bs, i, size);
    }

    // --------------------------------------------------------------- heap_init

    // Needs a page from the PMM other than page 0, which would read as null.
    method HeapInit()
      requires Reflects(view, mem[..]) && pmm.Valid() && PAGE_SIZE * pmm.pagesNum <= mem.Length
      requires PageBitmap.AllocAnswer(pmm.Bits()) != 0
      modifies this, mem, pmm`freePages, pmm.bitmap
      ensures Valid() && state == Init(old(PageBitmap.AllocAnswer(pmm.Bits())))
      ensures pmm.Bits() == PageBitmap.AllocEffect(old(pmm.Bits()))
    {
      var page := TakeFirst();
      StartList(page);
    }

    method TakeFirst() returns (page: nat)
      requires pmm.Valid() && PAGE_SIZE * pmm.pagesNum <= mem.Length
      requires PageBitmap.AllocAnswer(pmm.Bits()) != 0
      modifies pmm`freePages, pmm.bitmap
      ensures pmm.Valid() && pmm.pagesNum == old(pmm.pagesNum) && page == PageBitmap.AllocAnswer(old(pmm.Bits()))
      ensures pmm.Bits() == PageBitmap.AllocEffect(old(pmm.Bits())) && OwnsPages(pmm.Bits(), [page])
      ensures IsPage(page) && page + PAGE_SIZE <= mem.Length
    {
      FirstPage(pmm.Bits());
      page := pmm.Alloc();
    }

    method StartList(page: nat)
      requires Reflects(view, mem[..]) && IsPage(page) && page + PAGE_SIZE <= mem.Length
      modifies this`head, this`view, this`state, mem
      ensures Linked() && state == Init(page)
    {
      head := page;
      SetHeader(page, MAX_REQUEST, 0, 0, 0, {page});
      InitHolds(view, page);
      state := Init(page);
    }

    // ------------------------------------------------------------------ kmalloc

    // The two successful branches of the search, and the tail of the growth path:
    // split if at least 28 bytes are to spare, then mark in use.
    method CarveBlock(block: nat, size: nat, ghost bs: seq<Block>, ghost i: nat, ghost headers: set<nat>)
      requires Reflects(view, mem[..]) && Holds(view, bs) && InReach(bs)
      requires i < |bs| && bs[i].addr == block && bs[i].size >= size && bs[i].End() <= mem.Length
      requires Apart(Carve(bs, i, size)) && Addrs(Carve(bs, i, size)) <= headers
      modifies mem, this`view
      ensures Reflects(view, mem[..]) && Holds(view, Carve(bs, i, size))
      ensures Untouched(old(mem[..]), mem[..], headers)
    {
      ghost var cut := if bs[i].size - size >= SPLIT_SLACK then Split(bs, i, size) else bs;
      ghost var out := Carve(bs, i, size);
      assert out == cut[i := cut[i].(inUse := true)];
      ApartIgnoresFlag(cut, i, true);
      CarveAddrs(cut, i);
      assert HoldsAt(view, bs, i);
      var x := Read(block);
      if x.size - size >= SPLIT_SLACK {
        ResizeBlock(block, size, bs, i, headers);
      }
      ghost var h := view;
      assert HoldsAt(h, cut, i);
      SetInUse(block, 1, headers);
      MarkWritten(h, view, cut, i, 1);
    }

    // The link stores of the growth path; in_use of the new header is not written yet.
    method LinkPage(oldBlock: nat, newBlock: nat, ghost bs: seq<Block>, ghost headers: set<nat>)
      returns (ghost flag: bool)
      requires Reflects(view, mem[..]) && Holds(view, bs) && bs != [] && Apart(bs + [FreshBlock(newBlock)])
      requires oldBlock == bs[|bs| - 1].addr && newBlock in view && {oldBlock, newBlock} <= headers
      requires oldBlock < WORD64 && newBlock < WORD64
      modifies mem, this`view
      ensures Reflects(view, mem[..]) && Holds(view, bs + [FreshBlock(newBlock).(inUse := flag)])
      ensures Untouched(old(mem[..]), mem[..], headers)
    {
      ghost var h0 := view;
      assert HoldsAt(h0, bs, |bs| - 1);
      SetNext(oldBlock, newBlock, headers);
      ghost var h1 := view;
      flag := h1[newBlock].inUse != 0;
      SetPrev(newBlock, oldBlock, headers);
      ghost var h2 := view;
      SetLinkAndSize(newBlock, 0, MAX_REQUEST, headers);
      WroteTwice(h1, h2, view, newBlock, h2[newBlock], view[newBlock]);
      FlagApart(bs, FreshBlock(newBlock), flag);
      AppendWritten(h0, h1, view, bs, FreshBlock(newBlock).(inUse := flag));
    }

    // Links a page behind the last block and carves it.
    method Grow(oldBlock: nat, newBlock: nat, size: nat)
      requires Linked() && size <= MAX_REQUEST && IsPage(newBlock) && newBlock !in state.pages
      requires newBlock + PAGE_SIZE <= mem.Length && InReach(state.blocks)
      requires state.blocks != [] && oldBlock == state.blocks[|state.blocks| - 1].addr
      modifies mem, this`view, this`state
      ensures Linked() && state == State(Carve(old(state.blocks) + [FreshBlock(newBlock)], |old(state.blocks)|, size),
                                         old(state.pages) + [newBlock])
      ensures Untouched(old(mem[..]), mem[..], Addrs(state.blocks))
    {
      ghost var bs := state.blocks;
      ghost var next := Carve(bs + [FreshBlock(newBlock)], |bs|, size);
      GrownList(state, newBlock, size);
      ghost var flag := LinkPage(oldBlock, newBlock, bs, Addrs(next));
      FlaggedList(state, newBlock, size, flag);
      CarveBlock(newBlock, size, bs + [FreshBlock(newBlock).(inUse := flag)], |bs|, Addrs(next));
      state := State(next, state.pages + [newBlock]);
    }

    // Walks the list for the first fitting block. `block` is 0 if there is none, and
    // `oldBlock` is then the last block.
    method Search(size: nat, emptyOnly: bool) returns (block: nat, oldBlock: nat)
      requires Linked()
      ensures var i := FirstFit(state.blocks, size, emptyOnly);
              if i < |state.blocks| then block == state.blocks[i].addr && block != 0
              else block == 0 && state.blocks != [] && oldBlock == state.blocks[|state.blocks| - 1].addr
    {
      ghost var bs := state.blocks;
      ListEnds(state);
      block, oldBlock := head, 0;
      ghost var i := 0;
      while block != 0
        invariant i <= |bs| && block == (if i < |bs| then bs[i].addr else 0)
        invariant i > 0 ==> oldBlock == bs[i - 1].addr
        invariant forall j :: 0 <= j < i ==> !Fits(bs[j], size, emptyOnly)
        decreases |bs| - i
      {
        assert HoldsAt(view, bs, i);
        var x := Read(block);
        if x.size >= size && (!emptyOnly || x.inUse == 0) { return; }
        oldBlock := block;
        block := x.next;
        i := i + 1;
      }
    }

    // What kmalloc does with the block the search finds.
    method Occupy(block: nat, size: nat, ghost i: nat)
      requires Valid() && i < |state.blocks| && block == state.blocks[i].addr && state.blocks[i].size >= size
      modifies mem, this`view, this`state
      ensures Valid() && state == old(state).(blocks := Carve(old(state.blocks), i, size))
      ensures Untouched(old(mem[..]), mem[..], Addrs(state.blocks))
    {
      ghost var next := Carve(state.blocks, i, size);
      BlocksInMemory(state, pmm.Bits());
      CarvedList(state, i, size);
      CarveBlock(block, size, state.blocks, i, Addrs(next));
      state := state.(blocks := next);
    }

    // What kmalloc does when the search finds nothing.
    method Extend(oldBlock: nat, size: nat) returns (ptr: nat)
      requires Valid() && size <= MAX_REQUEST
      requires state.blocks != [] && oldBlock == state.blocks[|state.blocks| - 1].addr
      modifies this`view, this`state, mem, pmm`freePages, pmm.bitmap
      ensures Valid() && pmm.Bits() == PageBitmap.AllocEffect(old(pmm.Bits()))
      ensures var page := old(PageBitmap.AllocAnswer(pmm.Bits()));
              if page == 0 then state == old(state) && ptr == 0
              else state == State(Carve(old(state.blocks) + [FreshBlock(page)], |old(state.blocks)|, size),
                                  old(state.pages) + [page]) &&
                   ptr == page + HEADER_SIZE
      ensures Untouched(old(mem[..]), mem[..], Addrs(state.blocks))
    {
      BlocksInMemory(state, pmm.Bits());
      AnswerIsFresh(state, pmm.Bits());
      var newBlock := pmm.Alloc();
      if newBlock == 0 { return 0; }
      Grow(oldBlock, newBlock, size);
      ptr := newBlock + HEADER_SIZE;
    }

    // kmalloc. With emptyOnly == false this is the code as written, whose search does
    // not look at in_use; with emptyOnly == true it is what include/heap.h documents.
    // Only header bytes of the resulting list change, and no byte of a payload somebody
    // holds, unless the search as written hands that payload out again.
    method Kmalloc(size: nat, emptyOnly: bool) returns (ptr: nat)
      requires Valid() && size < WORD32
      modifies this`view, this`state, mem, pmm`freePages, pmm.bitmap
      ensures Valid()
      ensures (state, ptr) == HeapModel.Kmalloc(old(state), size, old(PageBitmap.AllocAnswer(pmm.Bits())), emptyOnly)
      ensures pmm.Bits() == BitsAfter(old(state), old(pmm.Bits()), size, emptyOnly)
      ensures size > 4072 || !NoneFits(old(state.blocks), size, emptyOnly) ==> pmm.Bits() == old(pmm.Bits())
      ensures size <= 4072 && NoneFits(old(state.blocks), size, emptyOnly) ==>
                pmm.Bits() == PageBitmap.AllocEffect(old(pmm.Bits()))
      ensures Untouched(old(mem[..]), mem[..], Addrs(state.blocks))
      ensures emptyOnly || !FirstBigBlockInUse(old(state.blocks), size) ==>
                SamePayloads(Live(old(state.blocks)), old(mem[..]), mem[..])
    {
      ghost var s, page, m := state, PageBitmap.AllocAnswer(pmm.Bits()), mem[..];
      AnswerIsFresh(s, pmm.Bits());
      BitsFollowSearch(s, pmm.Bits(), size, emptyOnly);
      ptr := AllocateBlock(size, emptyOnly);
      if emptyOnly || !FirstBigBlockInUse(s.blocks, size) {
        KmallocKeepsPayloads(s, size, page, emptyOnly, m, mem[..]);
      }
    }

    // The body of kmalloc.
    method AllocateBlock(size: nat, emptyOnly: bool) returns (ptr: nat)
      requires Valid() && size < WORD32
      modifies this`view, this`state, mem, pmm`freePages, pmm.bitmap
      ensures Valid()
      ensures (state, ptr) == HeapModel.Kmalloc(old(state), size, old(PageBitmap.AllocAnswer(pmm.Bits())), emptyOnly)
      ensures pmm.Bits() == BitsAfter(old(state), old(pmm.Bits()), size, emptyOnly)
      ensures Untouched(old(mem[..]), mem[..], Addrs(state.blocks))
    {
      if size > MAX_REQUEST { return 0; }
      ghost var i := FirstFit(state.blocks, size, emptyOnly);
      var block, oldBlock := Search(size, emptyOnly);
      if block != 0 {
        Occupy(block, size, i);
        return block + HEADER_SIZE;
      }
      ptr := Extend(oldBlock, size);
    }

    // -------------------------------------------------------------------- kfree

    // Either merge of kfree: the block at `a`, the i-th, absorbs its successor.
    method Absorb(a: nat, size: nat, next: nat, ghost bs: seq<Block>, ghost i: nat, ghost headers: set<nat>)
      requires Reflects(view, mem[..]) && Holds(view, bs) && Apart(bs) && i + 1 < |bs| && a == bs[i].addr
      requires size == bs[i].size + bs[i + 1].Length() && next == NextAddr(bs, i + 1) && InReach(bs)
      requires size < WORD32 && Addrs(bs) <= headers
      modifies mem, this`view
      ensures Reflects(view, mem[..]) && Holds(view, Merge(bs, i))
      ensures Untouched(old(mem[..]), mem[..], headers)
    {
      ghost var h0 := view;
      assert HoldsAt(h0, bs, i) && bs[i] in bs;
      SetLinkAndSize(a, next, size, headers);
      ghost var h1 := view;
      if next != 0 {
        assert HoldsAt(h0, bs, i + 2) && bs[i + 2] in bs;
        SetPrev(next, a, headers);
      }
      MergeWritten(h0, h1, view, bs, i);
    }

    // The backward merge of kfree.
    method MergePrev(block: nat, ghost i: nat, ghost headers: set<nat>) returns (now: nat)
      requires Linked() && i < |state.blocks| && block == state.blocks[i].addr && Addrs(state.blocks) <= headers
      modifies mem, this`view, this`state
      ensures Linked() && state == old(state).(blocks := AfterPrev(old(state.blocks), i).0)
      ensures Addrs(state.blocks) <= headers
      ensures var j := AfterPrev(old(state.blocks), i).1;
              j < |state.blocks| && now == state.blocks[j].addr
      ensures Untouched(old(mem[..]), mem[..], headers)
    {
      ghost var bs := state.blocks;
      ListEnds(state);
      now := block;
      assert HoldsAt(view, bs, i);
      var x := Read(block);
      if x.prev != 0 {
        assert HoldsAt(view, bs, i - 1);
        var p := Read(x.prev);
        if x.prev + HEADER_SIZE + p.size == block && p.inUse == 0 {
          MergedSize(state, i - 1);
          Absorb(x.prev, p.size + x.size + HEADER_SIZE, x.next, bs, i - 1, headers);
          state := state.(blocks := Merge(bs, i - 1));
          now := x.prev;
        }
      }
    }

    // The forward merge of kfree, and the clearing of in_use.
    method MergeNext(block: nat, ghost i: nat, ghost headers: set<nat>)
      requires Linked() && i < |state.blocks| && block == state.blocks[i].addr && Addrs(state.blocks) <= headers
      modifies mem, this`view, this`state
      ensures Linked() && state == old(state).(blocks := FreeForward(old(state.blocks), i))
      ensures Untouched(old(mem[..]), mem[..], headers)
    {
      ghost var bs := state.blocks;
      ListEnds(state);
      assert HoldsAt(view, bs, i);
      var x := Read(block);
      if x.next != 0 {
        assert HoldsAt(view, bs, i + 1);
        var n := Read(x.next);
        if block + HEADER_SIZE + x.size == x.next && n.inUse == 0 {
          MergedSize(state, i);
          Absorb(block, x.size + n.size + HEADER_SIZE, n.next, bs, i, headers);
          state := state.(blocks := Merge(bs, i));
        }
      }
      ClearInUse(block, i, headers);
    }

    method ClearInUse(block: nat, ghost i: nat, ghost headers: set<nat>)
      requires Linked() && i < |state.blocks| && block == state.blocks[i].addr && Addrs(state.blocks) <= headers
      modifies mem, this`view, this`state
      ensures Linked() && state == old(state).(blocks := old(state.blocks)[i := old(state.blocks)[i].(inUse := false)])
      ensures Untouched(old(mem[..]), mem[..], headers)
    {
      ghost var bs, h := state.blocks, view;
      TilingFacts(state);
      assert HoldsAt(h, bs, i) && bs[i] in bs;
      SetInUse(block, 0, headers);
      MarkWritten(h, view, bs, i, 0);
      MarkCover(bs, i, false);
      state := state.(blocks := bs[i := bs[i].(inUse := false)]);
    }

    // kfree on a pointer the caller holds. Only header bytes of the old list change, and no
    // byte of a payload that stays live.
    method Kfree(ptr: nat)
      requires Valid() && IsLive(state.blocks, ptr)
      modifies this`view, this`state, mem
      ensures Valid() && state == HeapModel.Kfree(old(state), ptr)
      ensures Untouched(old(mem[..]), mem[..], Addrs(old(state.blocks)))
      ensures SamePayloads(Live(state.blocks), old(mem[..]), mem[..])
    {
      ghost var s, m := state, mem[..];
      ghost var bs, i := state.blocks, IndexOf(state.blocks, ptr);
      LiveIndex(state, ptr);
      var block := MergePrev(ptr - HEADER_SIZE, i, Addrs(bs));
      MergeNext(block, AfterPrev(bs, i).1, Addrs(bs));
      KfreeKeepsPayloads(s, ptr, m, mem[..]);
    }

    // --------------------------------------------------------- everybody else

    // A caller stores a byte where it may.
    method CallerStore(x: nat, v: Byte)
      requires Valid() && x < mem.Length && MayStore(state, x)
      modifies this`view, mem
      ensures Valid() && mem[..] == old(mem[..])[x := v]
    {
      ghost var m := mem[..];
      SameView(view, m);
      mem[x] := v;
      view := View(mem[..]);
      ViewReflects(mem[..]);
      CallerStoresKeepTheList(state, m, mem[..]);
    }

    // Another client of the PMM takes a page, or gives one back.
    method TakePage() returns (page: nat)
      requires Valid()
      modifies pmm`freePages, pmm.bitmap
      ensures Valid() && page == PageBitmap.AllocAnswer(old(pmm.Bits()))
      ensures pmm.Bits() == PageBitmap.AllocEffect(old(pmm.Bits()))
    {
      AnswerIsFresh(state, pmm.Bits());
      page := pmm.Alloc();
    }

    method GivePage(page: nat)
      requires Valid() && page % PAGE_SIZE == 0 && page !in state.pages
      requires page / PAGE_SIZE < pmm.pagesNum && pmm.Bits()[page / PAGE_SIZE]
      modifies pmm`freePages, pmm.bitmap
      ensures Valid() && pmm.Bits() == old(pmm.Bits())[page / PAGE_SIZE := false]
    {
      OtherPagesStay(state, pmm.Bits(), page);
      pmm.Free(page);
    }
  }
}
