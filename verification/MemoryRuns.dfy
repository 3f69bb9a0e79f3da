// Whole runs of the two-level allocator: kmalloc and kfree over pmm_alloc, with other
// clients of the page allocator in between, and what holds after any of them.
module MemoryRuns {
  import opened Words
  import opened HeapModel
  import opened HeapSteps
  import opened HeapTheorems
  import opened HeapSearch
  import opened HeapHistory
  import opened HeapHeaders
  import opened PageBitmap
  import opened KernelHeap

  // Page flags (true = taken) and the heap built on some of the taken pages.
  datatype System = System(bits: seq<bool>, heap: State)

  datatype Op =
    | Malloc(n: nat)
    | Free(ptr: nat)
    | TakePage
    | GivePage(page: nat)
    | Store(x: nat, value: Byte)

  // What each caller owes: a pointer it holds, a page or a byte of its own.
  predicate Enabled(s: System, op: Op) {
    match op
    case Malloc(n) => n < WORD32
    case Free(ptr) => IsLive(s.heap.blocks, ptr)
    case TakePage => true
    case GivePage(page) =>
      page != 0 && page % PAGE_SIZE == 0 && page / PAGE_SIZE < |s.bits| && s.bits[page / PAGE_SIZE] &&
      page !in s.heap.pages
    case Store(x, _) => x < PAGE_SIZE * |s.bits| && MayStore(s.heap, x)
  }

  // As in HeapModel, emptyOnly == false is kmalloc as kernel/heap.c has it.
  function Step(s: System, op: Op, emptyOnly: bool): System
    requires Enabled(s, op)
  {
    match op
    case Malloc(n) =>
      System(BitsAfter(s.heap, s.bits, n, emptyOnly), Kmalloc(s.heap, n, AllocAnswer(s.bits), emptyOnly).0)
    case Free(ptr) => s.(heap := Kfree(s.heap, ptr))
    case TakePage => s.(bits := AllocEffect(s.bits))
    case GivePage(page) => s.(bits := s.bits[page / PAGE_SIZE := false])
    case Store(_, _) => s
  }

  predicate Legal(s: System, ops: seq<Op>, emptyOnly: bool)
    decreases |ops|
  {
    ops == [] || (Enabled(s, ops[0]) && Legal(Step(s, ops[0], emptyOnly), ops[1..], emptyOnly))
  }

  function Run(s: System, ops: seq<Op>, emptyOnly: bool): System
    requires Legal(s, ops, emptyOnly)
    decreases |ops|
  {
    if ops == [] then s else Run(Step(s, ops[0], emptyOnly), ops[1..], emptyOnly)
  }

  // heap_init on the flags pmm_init left, frame 0 being reserved.
  predicate Bootable(bits: seq<bool>) {
    0 < |bits| <= 32 * WORDS && bits[0] && LowestFree(bits) < |bits|
  }

  function Boot(bits: seq<bool>): System
    requires Bootable(bits)
  {
    System(AllocEffect(bits), Init(AllocAnswer(bits)))
  }

  // The list tiles the acquired pages, and those are taken in the bitmap.
  ghost predicate Tiled(s: System) {
    Inv(s.heap) && 0 < |s.bits| <= 32 * WORDS && s.bits[0] && OwnsPages(s.bits, s.heap.pages)
  }

  ghost predicate Good(s: System) {
    Tiled(s) && Coalesced(s.heap.blocks)
  }

  lemma BootIsGood(bits: seq<bool>)
    requires Bootable(bits)
    ensures Good(Boot(bits))
  {
    InitSound(AllocAnswer(bits));
  }

  // Tested or not, no step breaks the tiling.
  lemma StepKeepsTiling(s: System, op: Op, emptyOnly: bool)
    requires Tiled(s) && Enabled(s, op)
    ensures Tiled(Step(s, op, emptyOnly))
  {
    AnswerIsFresh(s.heap, s.bits);
    match op
    case Malloc(n) => KmallocKeepsTiling(s.heap, n, AllocAnswer(s.bits), emptyOnly);
    case Free(ptr) => KfreeKeepsTiling(s.heap, ptr);
    case TakePage =>
    case GivePage(page) => OtherPagesStay(s.heap, s.bits, page);
    case Store(_, _) =>
  }

  lemma StepIsGood(s: System, op: Op)
    requires Good(s) && Enabled(s, op)
    ensures Good(Step(s, op, true))
  {
    AnswerIsFresh(s.heap, s.bits);
    StepKeepsTiling(s, op, true);
    match op
    case Malloc(n) => KmallocKeepsSound(s.heap, n, AllocAnswer(s.bits));
    case Free(ptr) => KfreeKeepsSound(s.heap, ptr);
    case _ =>
  }

  // After every run the list tiles the acquired pages, also with the search as written.
  lemma {:induction false} RunsKeepTiling(s: System, ops: seq<Op>, emptyOnly: bool)
    requires Tiled(s) && Legal(s, ops, emptyOnly)
    ensures Tiled(Run(s, ops, emptyOnly))
    decreases |ops|
  {
    if ops != [] {
      StepKeepsTiling(s, ops[0], emptyOnly);
      RunsKeepTiling(Step(s, ops[0], emptyOnly), ops[1..], emptyOnly);
    }
  }

  // With the documented search it is fully coalesced too.
  lemma {:induction false} RunsAreGood(s: System, ops: seq<Op>)
    requires Good(s) && Legal(s, ops, true)
    ensures Good(Run(s, ops, true))
    decreases |ops|
  {
    if ops != [] {
      StepIsGood(s, ops[0]);
      RunsAreGood(Step(s, ops[0], true), ops[1..]);
    }
  }

  // ------------------------------------------------------------- runs as written

  // No kmalloc of the run as written hands out a pointer somebody holds.
  predicate AnswersAreFresh(s: System, ops: seq<Op>)
    requires Legal(s, ops, false)
    decreases |ops|
  {
    ops == [] ||
    ((ops[0].Malloc? ==> !IsLive(s.heap.blocks, Kmalloc(s.heap, ops[0].n, AllocAnswer(s.bits), false).1)) &&
     AnswersAreFresh(Step(s, ops[0], false), ops[1..]))
  }

  // Before every kmalloc the first block that is big enough is empty.
  predicate NeverReuses(s: System, ops: seq<Op>)
    requires Legal(s, ops, false)
    decreases |ops|
  {
    ops == [] ||
    ((ops[0].Malloc? ==> !FirstBigBlockInUse(s.heap.blocks, ops[0].n)) && NeverReuses(Step(s, ops[0], false), ops[1..]))
  }

  // The kernel as written is safe on exactly those runs.
  lemma {:induction false} UntestedRunsAreSafeIff(s: System, ops: seq<Op>)
    requires Tiled(s) && Legal(s, ops, false)
    ensures AnswersAreFresh(s, ops) <==> NeverReuses(s, ops)
    decreases |ops|
  {
    if ops != [] {
      AnswerIsFresh(s.heap, s.bits);
      if ops[0].Malloc? { UntestedSearchAliases(s.heap, ops[0].n, AllocAnswer(s.bits)); }
      StepKeepsTiling(s, ops[0], false);
      UntestedRunsAreSafeIff(Step(s, ops[0], false), ops[1..]);
    }
  }

  lemma SafeStepIsDocumented(s: System, op: Op)
    requires Tiled(s) && Enabled(s, op) && (op.Malloc? ==> !FirstBigBlockInUse(s.heap.blocks, op.n))
    ensures Step(s, op, false) == Step(s, op, true)
  {
    if op.Malloc? {
      AnswerIsFresh(s.heap, s.bits);
      UntestedSearchAliases(s.heap, op.n, AllocAnswer(s.bits));
      if op.n <= MAX_REQUEST { FirstFitAgrees(s.heap.blocks, op.n); }
    }
  }

  // And there it does what include/heap.h documents, step by step.
  lemma {:induction false} SafeRunsAreDocumented(s: System, ops: seq<Op>)
    requires Good(s) && Legal(s, ops, false) && NeverReuses(s, ops)
    ensures Legal(s, ops, true) && Run(s, ops, true) == Run(s, ops, false) && Good(Run(s, ops, false))
    decreases |ops|
  {
    if ops != [] {
      SafeStepIsDocumented(s, ops[0]);
      StepIsGood(s, ops[0]);
      SafeRunsAreDocumented(Step(s, ops[0], false), ops[1..]);
    }
  }

  // ---------------------------------------------------------- history independence

  // Whatever two runs from boot did, if they acquired the same pages and left the same
  // blocks live, their heaps are the same list.
  lemma RunsAreHistoryIndependent(b: seq<bool>, ops: seq<Op>, c: seq<bool>, ops': seq<Op>)
    requires Bootable(b) && Bootable(c) && Legal(Boot(b), ops, true) && Legal(Boot(c), ops', true)
    requires var s, t := Run(Boot(b), ops, true).heap, Run(Boot(c), ops', true).heap;
             s.pages == t.pages && Live(s.blocks) == Live(t.blocks)
    ensures Run(Boot(b), ops, true).heap == Run(Boot(c), ops', true).heap
  {
    BootIsGood(b);
    BootIsGood(c);
    RunsAreGood(Boot(b), ops);
    RunsAreGood(Boot(c), ops');
    HistoryIndependent(Run(Boot(b), ops, true).heap, Run(Boot(c), ops', true).heap);
  }

  // ------------------------------------------------------------------ page accounting

  // A kmalloc takes no page, or exactly the one it appends to the heap's pages: flag p
  // changes when frame p is that page, and the free count falls by what the heap grows.
  lemma MallocTakesItsPage(s: System, n: nat, emptyOnly: bool)
    requires Tiled(s) && n < WORD32
    ensures var t := Step(s, Malloc(n), emptyOnly);
            |t.bits| == |s.bits| &&
            (t.heap.pages == s.heap.pages ==> t.bits == s.bits) &&
            (t.heap.pages != s.heap.pages ==>
               exists p: nat :: p < |s.bits| && t.heap.pages == s.heap.pages + [p * 4096] && !s.bits[p] && t.bits[p]) &&
            (forall p: nat :: p < |s.bits| ==>
               (t.bits[p] != s.bits[p] <==> t.heap.pages == s.heap.pages + [p * 4096])) &&
            CountFree(t.bits) + |t.heap.pages| == CountFree(s.bits) + |s.heap.pages|
  {
    var t := Step(s, Malloc(n), emptyOnly);
    var q := LowestFree(s.bits);
    var asks := n <= MAX_REQUEST && FirstFit(s.heap.blocks, n, emptyOnly) == |s.heap.blocks|;
    if asks && q < |s.bits| {
      GrownByPage(s, n, emptyOnly, q);
    } else {
      assert AllocEffect(s.bits) == s.bits || !asks;
      assert t.bits == s.bits && t.heap.pages == s.heap.pages;
    }
  }

  lemma GrownByPage(s: System, n: nat, emptyOnly: bool, q: nat)
    requires Tiled(s) && n <= MAX_REQUEST && FirstFit(s.heap.blocks, n, emptyOnly) == |s.heap.blocks|
    requires q == LowestFree(s.bits) < |s.bits|
    ensures var t := Step(s, Malloc(n), emptyOnly);
            t.bits == s.bits[q := true] && t.heap.pages == s.heap.pages + [q * 4096] && !s.bits[q] &&
            CountFree(t.bits) == CountFree(s.bits) - 1 &&
            forall p: nat :: t.heap.pages == s.heap.pages + [p * 4096] ==> p == q
  {
    CountUpdate(s.bits, q, true);
    forall p: nat | s.heap.pages + [q * 4096] == s.heap.pages + [p * 4096] ensures p == q {
      assert (s.heap.pages + [q * 4096])[|s.heap.pages|] == (s.heap.pages + [p * 4096])[|s.heap.pages|];
    }
  }

  // What the other calls do to pages: kfree and stores nothing; a client takes the lowest
  // free page, if any, or frees the one it names, and the heap stays as it was.
  lemma OtherStepsAndPages(s: System, op: Op, emptyOnly: bool)
    requires Enabled(s, op) && !op.Malloc?
    ensures var t := Step(s, op, emptyOnly);
            t.heap.pages == s.heap.pages &&
            (op.Free? || op.Store? ==> t.bits == s.bits) &&
            (!op.Free? ==> t.heap == s.heap) &&
            (op.GivePage? ==> t.bits == s.bits[op.page / 4096 := false]) &&
            (op.TakePage? ==> if exists p: nat :: LowestIs(s.bits, p)
                              then exists p: nat :: LowestIs(s.bits, p) && t.bits == s.bits[p := true]
                              else t.bits == s.bits)
  {
    if op.TakePage? {
      var q := LowestFree(s.bits);
      if q < |s.bits| { assert LowestIs(s.bits, q); }
    }
  }

  predicate LowestIs(bits: seq<bool>, p: nat) {
    p < |bits| && !bits[p] && forall j :: 0 <= j < p ==> bits[j]
  }

  // While no other client takes or gives pages, free pages and heap pages add up to the
  // same number.
  lemma {:induction false} RunsConservePages(s: System, ops: seq<Op>, emptyOnly: bool)
    requires Tiled(s) && Legal(s, ops, emptyOnly)
    requires forall i :: 0 <= i < |ops| ==> !ops[i].TakePage? && !ops[i].GivePage?
    ensures var t := Run(s, ops, emptyOnly);
            |t.bits| == |s.bits| && CountFree(t.bits) + |t.heap.pages| == CountFree(s.bits) + |s.heap.pages|
    decreases |ops|
  {
    if ops != [] {
      assert !ops[0].TakePage? && !ops[0].GivePage?;
      if ops[0].Malloc? { MallocTakesItsPage(s, ops[0].n, emptyOnly); }
      else { OtherStepsAndPages(s, ops[0], emptyOnly); }
      StepKeepsTiling(s, ops[0], emptyOnly);
      RunsConservePages(Step(s, ops[0], emptyOnly), ops[1..], emptyOnly);
    }
  }

  // ------------------------------------------------------------- freeing everything

  // One free block per maximal run of consecutively acquired contiguous pages.
  function PageRuns(pages: seq<nat>): seq<Block> {
    if pages == [] then []
    else
      var runs, p := PageRuns(pages[..|pages| - 1]), pages[|pages| - 1];
      if runs != [] && runs[|runs| - 1].End() == p
      then runs[|runs| - 1 := runs[|runs| - 1].(size := runs[|runs| - 1].size + PAGE_SIZE)]
      else runs + [FreshBlock(p)]
  }

  lemma ExtendLast(bs: seq<Block>, p: nat)
    requires bs != [] && bs[|bs| - 1].End() == p && !bs[|bs| - 1].inUse
    ensures var out := bs[|bs| - 1 := bs[|bs| - 1].(size := bs[|bs| - 1].size + PAGE_SIZE)];
            Merge(bs + [FreshBlock(p)], |bs| - 1) == out && Cover(out) == Cover(bs + [FreshBlock(p)])
  {
    MergeCover(bs + [FreshBlock(p)], |bs| - 1);
  }

  // Appending a page that does not continue the last run starts a new one.
  lemma NewRun(runs: seq<Block>, p: nat)
    requires Coalesced(runs) && (runs != [] ==> runs[|runs| - 1].End() != p)
    ensures Coalesced(runs + [FreshBlock(p)])
  {
  }

  lemma LongerRun(runs: seq<Block>, p: nat)
    requires runs != [] && Coalesced(runs)
    ensures Coalesced(runs[|runs| - 1 := runs[|runs| - 1].(size := runs[|runs| - 1].size + PAGE_SIZE)])
  {
  }

  lemma {:induction false} PageRunsCover(pages: seq<nat>)
    ensures Cover(PageRuns(pages)) == PageAddrs(pages)
    ensures forall b :: b in PageRuns(pages) ==> !b.inUse
    ensures Coalesced(PageRuns(pages))
  {
    if pages != [] {
      var init, p := pages[..|pages| - 1], pages[|pages| - 1];
      var runs := PageRuns(init);
      PageRunsCover(init);
      assert PageBlocks(pages) == PageBlocks(init) + [FreshBlock(p)];
      CoverAppend(PageBlocks(init), [FreshBlock(p)]);
      CoverAppend(runs, [FreshBlock(p)]);
      if runs != [] && runs[|runs| - 1].End() == p {
        assert runs[|runs| - 1] in runs;
        ExtendLast(runs, p);
        LongerRun(runs, p);
      } else {
        NewRun(runs, p);
      }
    }
  }

  // With nothing live the heap is one free block per page run.
  lemma EmptyHeapIsPageRuns(s: State)
    requires Sound(s) && Live(s.blocks) == {}
    ensures s.blocks == PageRuns(s.pages)
  {
    PageRunsCover(s.pages);
    PageAddrsDistinct(s.pages);
    assert Live(PageRuns(s.pages)) == {};
    CoalescedListIsUnique(s.blocks, PageRuns(s.pages));
  }

  function Frees(ptrs: seq<nat>): seq<Op> {
    seq(|ptrs|, i requires 0 <= i < |ptrs| => Free(ptrs[i]))
  }

  // `order` lists the pointers of the live blocks, each once.
  ghost predicate ListsLive(s: State, order: seq<nat>) {
    Distinct(order) &&
    (forall b :: b in Live(s.blocks) ==> b.Payload() in order) &&
    (forall i :: 0 <= i < |order| ==> IsLive(s.blocks, order[i]))
  }

  lemma FreeFirst(s: State, order: seq<nat>)
    requires Sound(s) && ListsLive(s, order) && order != []
    ensures ListsLive(Kfree(s, order[0]), order[1..]) && Sound(Kfree(s, order[0]))
  {
    var t := Kfree(s, order[0]);
    KfreeRemovesOne(s, order[0]);
    KfreeKeepsSound(s, order[0]);
    var b :| b in Live(s.blocks) && b.Payload() == order[0] && Live(t.blocks) == Live(s.blocks) - {b};
    forall c | c in Live(t.blocks) ensures c.Payload() in order[1..] {
      LivePayloadsDisjoint(s, b, c);
      assert c.Payload() in order;
    }
    forall i | 0 <= i < |order[1..]| ensures IsLive(t.blocks, order[1..][i]) {
      assert order[1..][i] == order[i + 1] != order[0];
      StillLive(s, t, b, order[i + 1]);
    }
  }

  lemma StillLive(s: State, t: State, b: Block, ptr: nat)
    requires Live(t.blocks) == Live(s.blocks) - {b} && IsLive(s.blocks, ptr) && ptr != b.Payload()
    ensures IsLive(t.blocks, ptr)
  {
    var i :| 0 <= i < |s.blocks| && s.blocks[i].inUse && s.blocks[i].Payload() == ptr;
    assert s.blocks[i] in Live(t.blocks);
    var j :| 0 <= j < |t.blocks| && t.blocks[j] == s.blocks[i];
    assert t.blocks[j].inUse && t.blocks[j].Payload() == ptr;
  }

  // Freeing all live pointers, in any order, leaves one free block per maximal run of
  // contiguous pages; with only the first page taken, exactly the heap of heap_init.
  lemma {:induction false} FreeingAll(s: System, order: seq<nat>, emptyOnly: bool)
    requires Good(s) && ListsLive(s.heap, order)
    ensures Legal(s, Frees(order), emptyOnly)
    ensures Run(s, Frees(order), emptyOnly) == System(s.bits, State(PageRuns(s.heap.pages), s.heap.pages))
    ensures |s.heap.pages| == 1 ==> Run(s, Frees(order), emptyOnly).heap == Init(s.heap.pages[0])
    decreases |order|
  {
    if order == [] {
      NothingLive(s.heap);
      EmptyHeapIsPageRuns(s.heap);
    } else {
      FreeFirst(s.heap, order);
      assert Frees(order)[0] == Free(order[0]) && Frees(order)[1..] == Frees(order[1..]);
      FreeingAll(Step(s, Free(order[0]), emptyOnly), order[1..], emptyOnly);
    }
    if |s.heap.pages| == 1 {
      assert s.heap.pages[..0] == [] && s.heap.pages == [s.heap.pages[0]];
    }
  }

  lemma NothingLive(s: State)
    requires ListsLive(s, [])
    ensures Live(s.blocks) == {}
  {
    assert forall b :: b in Live(s.blocks) ==> b.Payload() in [];
  }

  // ---------------------------------------------------------------- the code's runs

  ghost function SystemOf(h: Heap): System
    reads h, h.pmm, h.pmm.bitmap
    requires h.pmm.Valid()
  {
    System(h.pmm.Bits(), h.state)
  }

  // One call on the real heap, bitmap and memory.
  method Perform(h: Heap, op: Op, emptyOnly: bool) returns (ptr: nat)
    requires h.Valid() && Enabled(SystemOf(h), op)
    modifies h`view, h`state, h.mem, h.pmm`freePages, h.pmm.bitmap
    ensures h.Valid() && SystemOf(h) == Step(old(SystemOf(h)), op, emptyOnly)
    ensures op.Malloc? ==>
              ptr == Kmalloc(old(h.state), op.n, AllocAnswer(old(h.pmm.Bits())), emptyOnly).1
  {
    ptr := 0;
    match op
    case Malloc(n) => ptr := h.Kmalloc(n, emptyOnly);
    case Free(p) => h.Kfree(p);
    case TakePage => ptr := h.TakePage();
    case GivePage(page) => h.GivePage(page);
    case Store(x, value) => h.CallerStore(x, value);
  }

  // Any run of calls, page clients and stores on the real memory is the model's run, and
  // with the documented search leaves a good heap.
  method PerformAll(h: Heap, ops: seq<Op>, emptyOnly: bool)
    requires h.Valid() && Legal(SystemOf(h), ops, emptyOnly)
    modifies h`view, h`state, h.mem, h.pmm`freePages, h.pmm.bitmap
    ensures h.Valid() && SystemOf(h) == Run(old(SystemOf(h)), ops, emptyOnly)
    ensures emptyOnly && Good(old(SystemOf(h))) ==> Good(SystemOf(h))
  {
    ghost var s := SystemOf(h);
    assert ops[0..] == ops;
    for i := 0 to |ops|
      invariant h.Valid() && Legal(SystemOf(h), ops[i..], emptyOnly)
      invariant Run(SystemOf(h), ops[i..], emptyOnly) == Run(s, ops, emptyOnly)
    {
      assert ops[i..][0] == ops[i] && ops[i..][1..] == ops[i + 1..];
      var _ := Perform(h, ops[i], emptyOnly);
    }
    if emptyOnly && Good(s) { RunsAreGood(s, ops); }
  }
}
