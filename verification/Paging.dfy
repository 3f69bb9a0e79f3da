// The boot page tables of boot/boot.s, paging_map_fb of kernel/paging.c, and the
// 4-level address translation of section 4.5 of the Intel SDM, Volume 3A, that gives
// them a meaning.
module Paging {
  import opened Words
  import opened Bits

  const GIB: nat := 0x4000_0000
  const MIB2: nat := 0x20_0000
  const ENTRIES: nat := 512
  const LIMIT39: nat := 0x80_0000_0000          // reach of PML4 entry 0
  const CANONICAL: nat := 0x8000_0000_0000      // 2^47
  const TABLE_FLAGS: nat := 0x3                 // present, writable
  const PAGE_FLAGS: nat := 0x83                 // present, writable, page size

  datatype Option<T> = None | Some(value: T)

  // Where the four tables of .bss lie.
  datatype Layout = Layout(pml4: nat, pdpt: nat, pd: nat, fbPd: nat) {
    predicate Good() {
      Aligned(pml4) && Aligned(pdpt) && Aligned(pd) && Aligned(fbPd) &&
      pml4 != pdpt && pml4 != pd && pml4 != fbPd && pdpt != pd && pdpt != fbPd && pd != fbPd
    }
  }

  predicate Aligned(a: nat) {
    a % 4096 == 0 && a < WORD32
  }

  datatype Tables = Tables(at: Layout, pml4: seq<nat>, pdpt: seq<nat>, pd: seq<nat>, fbPd: seq<nat>) {
    predicate Good() {
      at.Good() && |pml4| == |pdpt| == |pd| == |fbPd| == ENTRIES
    }
  }

  // ------------------------------------------------------------------- translation

  predicate Present(e: nat) {
    e % 2 == 1
  }

  predicate IsLargePage(e: nat) {
    e / 0x80 % 2 == 1
  }

  // Bits 51:12 and bits 51:21 of an entry.
  function TableAddr(e: nat): nat {
    e / 0x1000 % 0x100_0000_0000 * 0x1000
  }

  function PageAddr(e: nat): nat {
    e / MIB2 % 0x8000_0000 * MIB2
  }

  // The page directory an entry points at, if it is one of ours.
  function DirectoryAt(t: Tables, a: nat): Option<seq<nat>> {
    if a == t.at.pd then Some(t.pd) else if a == t.at.fbPd then Some(t.fbPd) else None
  }

  // Translates a linear address, as far as 2 MiB pages below our tables go.
  function Walk(t: Tables, v: nat): Option<nat>
    requires t.Good()
  {
    if CANONICAL <= v < WORD64 - CANONICAL || v >= WORD64 then None
    else
      var e4 := t.pml4[v / LIMIT39 % ENTRIES];
      if !Present(e4) || TableAddr(e4) != t.at.pdpt then None
      else
        var e3 := t.pdpt[v / GIB % ENTRIES];
        if !Present(e3) || IsLargePage(e3) then None
        else
          match DirectoryAt(t, TableAddr(e3))
          case None => None
          case Some(directory) =>
            var e2 := directory[v / MIB2 % ENTRIES];
            if !Present(e2) || !IsLargePage(e2) then None else Some(PageAddr(e2) + v % MIB2)
  }

  // ---------------------------------------------------------------- specifications

  function Zeros(): seq<nat> {
    seq(ENTRIES, _ => 0)
  }

  // The tables when long mode is entered.
  function BootTables(at: Layout): Tables {
    Tables(at,
           Zeros()[0 := at.pdpt + TABLE_FLAGS],
           Zeros()[0 := at.pd + TABLE_FLAGS],
           seq(ENTRIES, i requires 0 <= i => i * MIB2 + PAGE_FLAGS),
           Zeros())
  }

  // n_pages, with the wrap-around of uint64_t and the cast to uint32_t.
  function PageCount(size: nat): nat {
    ((size + (MIB2 - 1)) % WORD64 / MIB2 % WORD32 + 1) % WORD32
  }

  // n - 1 pages of 2 MiB are needed to hold `size` bytes.
  predicate IsLeastPlusOne(size: nat, n: nat) {
    n >= 1 && size <= (n - 1) * MIB2 && (n >= 2 ==> (n - 2) * MIB2 < size)
  }

  // Larger sizes wrap in 64 bits or are cut by the cast to 32.
  const LAST_COUNTED: nat := (WORD32 - 2) * MIB2

  lemma CountIsRightIff(size: nat)
    ensures IsLeastPlusOne(size, PageCount(size)) <==> size <= LAST_COUNTED
  {
  }

  function PdptIndex(phys: nat): (i: nat)
    ensures i < ENTRIES
  {
    phys / GIB % ENTRIES
  }

  function FirstEntry(phys: nat): (i: nat)
    ensures i < ENTRIES
  {
    phys / MIB2 % ENTRIES
  }

  function PageBase(phys: nat): (base: nat)
    ensures base % MIB2 == 0
  {
    phys - phys % MIB2
  }

  predicate Mapped(phys: nat, size: nat, k: nat) {
    FirstEntry(phys) <= k < FirstEntry(phys) + PageCount(size)
  }

  // A directory whose entries first, first + 1, ... map n consecutive 2 MiB pages.
  function Filled(directory: seq<nat>, base: nat, first: nat, n: nat): seq<nat>
    requires |directory| == ENTRIES
  {
    seq(ENTRIES, k requires 0 <= k < ENTRIES =>
      if first <= k < first + n then base + (k - first) * MIB2 + PAGE_FLAGS else directory[k])
  }

  function MappedTables(t: Tables, phys: nat, size: nat): Tables
    requires t.Good()
  {
    if phys == 0 || size == 0 then t
    else
      t.(pdpt := t.pdpt[PdptIndex(phys) := t.at.fbPd + TABLE_FLAGS],
         fbPd := Filled(t.fbPd, PageBase(phys), FirstEntry(phys), PageCount(size)))
  }

  // The boot entries: present and writable, the low directory's also large pages.
  lemma BootEntries(at: Layout, i: nat)
    requires at.Good() && i < 512
    ensures var t := BootTables(at);
            t.pml4[i] == (if i == 0 then at.pdpt + 0x3 else 0) && t.pdpt[i] == (if i == 0 then at.pd + 0x3 else 0) &&
            t.pd[i] == i * 0x20_0000 + 0x83 && t.fbPd[i] == 0
  {
  }

  // And those of the framebuffer: writable large pages from its own on, one after the
  // other up to the end of the directory.
  lemma FbEntries(t: Tables, phys: nat, size: nat, i: nat)
    requires t.Good() && phys > 0 && size > 0 && i < 512
    ensures var u := MappedTables(t, phys, size);
            u == t.(pdpt := u.pdpt, fbPd := u.fbPd) &&
            u.pdpt[i] == (if i == phys / 0x4000_0000 % 512 then t.at.fbPd + 0x3 else t.pdpt[i]) &&
            var k := i - phys / 0x20_0000 % 512;
            u.fbPd[i] == if 0 <= k < PageCount(size) then phys - phys % 0x20_0000 + k * 0x20_0000 + 0x83 else t.fbPd[i]
  {
  }

  lemma NothingToMap(t: Tables, phys: nat, size: nat)
    requires t.Good() && (phys == 0 || size == 0)
    ensures MappedTables(t, phys, size) == t
  {
  }

  // One page more than the size needs, as the 64-bit sum and the 32-bit cast leave it.
  lemma CountIs(size: nat)
    requires size < 0x1_0000_0000_0000_0000
    ensures PageCount(size) == if size + 0x1F_FFFF >= 0x1_0000_0000_0000_0000 then 1
                               else ((size + 0x1F_FFFF) / 0x20_0000 + 1) % 0x1_0000_0000
  {
  }

  // --------------------------------------------------------------------- the code

  class PageTables {
    const at: Layout
    const pml4: array<nat>
    const pdpt: array<nat>
    const pd: array<nat>
    const fbPd: array<nat>

    ghost predicate Valid()
    {
      at.Good() && pml4.Length == pdpt.Length == pd.Length == fbPd.Length == ENTRIES &&
      pml4 != pdpt && pml4 != pd && pml4 != fbPd && pdpt != pd && pdpt != fbPd && pd != fbPd
    }

    ghost function State(): Tables
      reads pml4, pdpt, pd, fbPd
    {
      Tables(at, pml4[..], pdpt[..], pd[..], fbPd[..])
    }

    // .bss is zeroed by the loader.
    constructor (at: Layout)
      requires at.Good()
      ensures Valid() && fresh(pml4) && fresh(pdpt) && fresh(pd) && fresh(fbPd)
      ensures this.at == at && State() == Tables(at, Zeros(), Zeros(), Zeros(), Zeros())
    {
      this.at := at;
      pml4 := new nat[ENTRIES](_ => 0);
      pdpt := new nat[ENTRIES](_ => 0);
      pd := new nat[ENTRIES](_ => 0);
      fbPd := new nat[ENTRIES](_ => 0);
    }

    // boot.s: the table setup, then loop l1.
    method Boot()
      requires Valid() && State() == Tables(at, Zeros(), Zeros(), Zeros(), Zeros())
      modifies pml4, pdpt, pd
      ensures State() == BootTables(at)
    {
      FlagsAdd(at.pdpt, 12, TABLE_FLAGS);
      FlagsAdd(at.pd, 12, TABLE_FLAGS);
      pml4[0] := Or(at.pdpt, TABLE_FLAGS);
      pdpt[0] := Or(at.pd, TABLE_FLAGS);
      MapLow();
    }

    method MapLow()
      requires pd.Length == ENTRIES
      modifies pd
      ensures pd[..] == BootTables(at).pd
    {
      var i := 0;
      while i < ENTRIES
        invariant i <= ENTRIES
        invariant forall k :: 0 <= k < i ==> pd[k] == k * MIB2 + PAGE_FLAGS
      {
        FlagsAdd(i * MIB2, 21, PAGE_FLAGS);
        pd[i] := Or(i * MIB2, PAGE_FLAGS);
        i := i + 1;
      }
    }

    method MapFb(phys: nat, size: nat)
      requires Valid() && phys < WORD64 && size < WORD64
      modifies pdpt, fbPd
      ensures State() == MappedTables(old(State()), phys, size)
    {
      if phys == 0 || size == 0 { return; }
      SliceBits(phys);
      var pdptIdx := And(phys / GIB, 0x1FF);
      var pdStart := And(phys / MIB2, 0x1FF);
      var base := AndNot(phys, 0x1F_FFFF);
      var nPages := CountPages(size);
      FlagsAdd(at.fbPd, 12, TABLE_FLAGS);
      pdpt[pdptIdx] := Or(at.fbPd, TABLE_FLAGS);
      FillDirectory(base, pdStart, nPages);
    }

    // One page more than hold `size` bytes, as long as nothing wraps.
    method CountPages(size: nat) returns (n: nat)
      ensures n == PageCount(size)
      ensures IsLeastPlusOne(size, n) <==> size <= LAST_COUNTED
    {
      CountIsRightIff(size);
      var rounded := (size + 0x1F_FFFF) % WORD64;
      n := (rounded / MIB2 % WORD32 + 1) % WORD32;
    }

    // The loop of paging_map_fb.
    method FillDirectory(base: nat, pdStart: nat, nPages: nat)
      requires Valid() && base % MIB2 == 0 && pdStart < ENTRIES
      modifies fbPd
      ensures fbPd[..] == Filled(old(fbPd[..]), base, pdStart, nPages)
    {
      ghost var was := fbPd[..];
      var i := 0;
      while i < nPages && pdStart + i < ENTRIES
        invariant i <= nPages && pdStart + i <= ENTRIES
        invariant forall k :: 0 <= k < ENTRIES ==>
                    fbPd[k] == if pdStart <= k < pdStart + i then base + (k - pdStart) * MIB2 + PAGE_FLAGS else was[k]
        decreases nPages - i
      {
        FlagsAdd(base + i * MIB2, 21, PAGE_FLAGS);
        fbPd[pdStart + i] := Or(base + i * MIB2, PAGE_FLAGS);
        i := i + 1;
      }
    }
  }

  lemma FlagsAdd(x: nat, k: nat, flags: nat)
    requires k == 12 || k == 21
    requires x % (if k == 12 then 0x1000 else MIB2) == 0 && flags < 0x100
    ensures Or(x, flags) == x + flags
  {
    Pow2Values();
    OrAligned(x, flags, k);
  }

  lemma SliceBits(phys: nat)
    ensures And(phys / GIB, 0x1FF) == PdptIndex(phys)
    ensures And(phys / MIB2, 0x1FF) == FirstEntry(phys)
    ensures AndNot(phys, 0x1F_FFFF) == PageBase(phys)
  {
    Pow2Values();
    assert Pow2(9) == 0x200;
    AndOnes(phys / GIB, 9);
    AndOnes(phys / MIB2, 9);
    AndOnes(phys, 21);
  }

  // ------------------------------------------------------------- identity mapping

  function AfterBoot(at: Layout, phys: nat, size: nat): Tables
    requires at.Good()
  {
    MappedTables(BootTables(at), phys, size)
  }

  lemma TableEntry(a: nat)
    requires Aligned(a)
    ensures Present(a + TABLE_FLAGS) && !IsLargePage(a + TABLE_FLAGS) && TableAddr(a + TABLE_FLAGS) == a
  {
    var n := a / 0x1000;
    assert (a + TABLE_FLAGS) / 0x80 == 32 * n;
    assert (a + TABLE_FLAGS) / 0x1000 == n;
  }

  lemma LargePageEntry(n: nat)
    requires n < 0x8000_0000
    ensures var e := n * MIB2 + PAGE_FLAGS; Present(e) && IsLargePage(e) && PageAddr(e) == n * MIB2
  {
    var e := n * MIB2 + PAGE_FLAGS;
    DivModUnique(e, MIB2, n, PAGE_FLAGS);
    DivModUnique(e, 0x80, n * 0x4000 + 1, 3);
    DivModUnique(n * 0x4000 + 1, 2, n * 0x2000, 1);
    DivModUnique(e, 2, n * 0x10_0000 + 0x41, 1);
    DivModUnique(n, 0x8000_0000, 0, n);
  }

  // Where a directory sends an address.
  function Leaf(directory: seq<nat>, v: nat): Option<nat>
    requires |directory| == ENTRIES
  {
    var e := directory[v / MIB2 % ENTRIES];
    if !Present(e) || !IsLargePage(e) then None else Some(PageAddr(e) + v % MIB2)
  }

  lemma LowAddress(v: nat)
    requires v < LIMIT39
    ensures v / LIMIT39 % ENTRIES == 0 && v / GIB < ENTRIES && v / GIB % ENTRIES == v / GIB
    ensures v == v / GIB * GIB + v / MIB2 % ENTRIES * MIB2 + v % MIB2
  {
  }

  lemma HighAddress(v: nat)
    requires LIMIT39 <= v && (v < CANONICAL || WORD64 - CANONICAL <= v < WORD64)
    ensures v / LIMIT39 % ENTRIES != 0
  {
  }

  // PML4 entry 0 leads to the PDPT, and its entry to one of the directories.
  predicate Rooted(t: Tables) {
    t.Good() && t.pml4 == Zeros()[0 := t.at.pdpt + TABLE_FLAGS]
  }

  lemma WalkThrough(t: Tables, v: nat, a: nat)
    requires Rooted(t) && v < LIMIT39 && Aligned(a) && v / GIB < ENTRIES && t.pdpt[v / GIB] == a + TABLE_FLAGS
    ensures a == t.at.pd ==> Walk(t, v) == Leaf(t.pd, v)
    ensures a == t.at.fbPd ==> Walk(t, v) == Leaf(t.fbPd, v)
  {
    LowAddress(v);
    TableEntry(t.at.pdpt);
    TableEntry(a);
  }

  lemma WalkNowhere(t: Tables, v: nat)
    requires Rooted(t)
    requires v >= LIMIT39 || (v / GIB < ENTRIES && t.pdpt[v / GIB] == 0)
    ensures Walk(t, v) == None
  {
    if v < LIMIT39 { LowAddress(v); } else if v < CANONICAL || WORD64 - CANONICAL <= v < WORD64 { HighAddress(v); }
  }

  // The low directory maps the first 1 GiB to itself.
  lemma LowLeaf(v: nat, at: Layout)
    requires v < GIB
    ensures Leaf(BootTables(at).pd, v) == Some(v)
  {
    LargePageEntry(v / MIB2 % ENTRIES);
  }

  // A framebuffer below 512 GiB: its directory maps, in its own 1 GiB region, the
  // covered 2 MiB pages to themselves and nothing else.
  lemma FbLeaf(at: Layout, phys: nat, size: nat, v: nat)
    requires at.Good() && 0 < phys < LIMIT39 && size > 0 && v / GIB == phys / GIB
    ensures Leaf(AfterBoot(at, phys, size).fbPd, v) ==
            if Mapped(phys, size, v / MIB2 % ENTRIES) then Some(v) else None
  {
    var k := v / MIB2 % ENTRIES;
    LowAddress(phys);
    LowAddress(v);
    if Mapped(phys, size, k) {
      LargePageEntry(phys / GIB * ENTRIES + k);
    }
  }

  // Whether an address is its own translation, by its 1 GiB region and its 2 MiB page.
  predicate SelfMapped(phys: nat, size: nat, v: nat) {
    v < LIMIT39 &&
    if phys > 0 && size > 0 && v / GIB == phys / GIB then Mapped(phys, size, v / MIB2 % ENTRIES) else v / GIB == 0
  }

  lemma AfterBootRooted(at: Layout, phys: nat, size: nat)
    requires at.Good()
    ensures Rooted(AfterBoot(at, phys, size))
  {
  }

  lemma WalkAfterBoot(at: Layout, phys: nat, size: nat, v: nat)
    requires at.Good() && phys < LIMIT39
    ensures Walk(AfterBoot(at, phys, size), v) == if SelfMapped(phys, size, v) then Some(v) else None
  {
    var t := AfterBoot(at, phys, size);
    AfterBootRooted(at, phys, size);
    LowAddress(phys);
    if v >= LIMIT39 {
      WalkNowhere(t, v);
    } else {
      LowAddress(v);
      if phys > 0 && size > 0 && v / GIB == phys / GIB {
        WalkThrough(t, v, at.fbPd);
        FbLeaf(at, phys, size, v);
      } else if v / GIB == 0 {
        WalkThrough(t, v, at.pd);
        LowLeaf(v, at);
      } else {
        WalkNowhere(t, v);
      }
    }
  }

  // The addresses the kernel relies on: the first 1 GiB and the framebuffer.
  ghost predicate IdentityMapped(at: Layout, phys: nat, size: nat)
    requires at.Good()
  {
    forall v: nat :: v < GIB || phys <= v < phys + size ==> Walk(AfterBoot(at, phys, size), v) == Some(v)
  }

  // When paging_map_fb works: the framebuffer lies below 512 GiB in one 1 GiB region
  // that is not the first, unless it spans all of the first.
  predicate Mappable(phys: nat, size: nat) {
    if size == 0 then true
    else if phys == 0 then size <= GIB
    else
      phys < LIMIT39 && phys / GIB == (phys + size - 1) / GIB &&
      (phys / GIB != 0 || (phys < MIB2 && size > 510 * MIB2))
  }

  // ceil(size / 2 MiB) + 1 pages cover the region however it is aligned.
  lemma PagesCover(phys: nat, size: nat, v: nat)
    requires phys < LIMIT39 && size > 0 && phys / GIB == (phys + size - 1) / GIB && phys <= v < phys + size
    ensures v / GIB == phys / GIB && Mapped(phys, size, v / MIB2 % ENTRIES)
  {
    SameRegion(phys, phys + size - 1, v);
    SmallRegion(phys, size);
    CountUnwrapped(size);
    PageDistance(phys, size, v);
  }

  lemma SmallRegion(phys: nat, size: nat)
    requires size > 0 && phys / GIB == (phys + size - 1) / GIB
    ensures size <= GIB
  {
  }

  lemma CountUnwrapped(size: nat)
    requires size <= GIB
    ensures PageCount(size) == (size + (MIB2 - 1)) / MIB2 + 1
  {
    DivModUnique(size + (MIB2 - 1), WORD64, 0, size + (MIB2 - 1));
  }

  lemma SameRegion(lo: nat, hi: nat, v: nat)
    requires lo <= v <= hi && lo / GIB == hi / GIB
    ensures v / GIB == lo / GIB
    ensures v / MIB2 % ENTRIES - lo / MIB2 % ENTRIES == v / MIB2 - lo / MIB2 >= 0
  {
  }

  lemma PageDistance(lo: nat, size: nat, v: nat)
    requires lo <= v < lo + size
    ensures v / MIB2 - lo / MIB2 <= (size + (MIB2 - 1)) / MIB2
  {
  }

  lemma MappableIsMapped(at: Layout, phys: nat, size: nat)
    requires at.Good() && Mappable(phys, size)
    ensures IdentityMapped(at, phys, size)
  {
    var p := if size == 0 then 0 else phys;
    assert AfterBoot(at, phys, size) == AfterBoot(at, p, size);
    forall v: nat | v < GIB || phys <= v < phys + size
      ensures Walk(AfterBoot(at, phys, size), v) == Some(v)
    {
      WalkAfterBoot(at, p, size, v);
      if p > 0 {
        if phys <= v < phys + size { PagesCover(phys, size, v); }
        else if phys / GIB == 0 { WholeRegion(phys, size, v); }
      }
    }
  }

  lemma WholeRegion(phys: nat, size: nat, v: nat)
    requires phys < MIB2 && 510 * MIB2 < size <= GIB && v < GIB
    ensures Mapped(phys, size, v / MIB2 % ENTRIES)
  {
  }

  // An address that is not its own translation when the framebuffer is not mappable.
  function Witness(phys: nat, size: nat): nat {
    if phys == 0 then GIB
    else if phys >= LIMIT39 then phys
    else if phys / GIB != (phys + size - 1) / GIB then (phys / GIB + 1) * GIB
    else if phys >= MIB2 then 0
    else 511 * MIB2
  }

  lemma WitnessInRange(phys: nat, size: nat)
    requires !Mappable(phys, size)
    ensures Witness(phys, size) < GIB || phys <= Witness(phys, size) < phys + size
  {
  }

  lemma WitnessSlices(phys: nat, size: nat)
    requires !Mappable(phys, size) && phys < LIMIT39
    ensures !SelfMapped(phys, size, Witness(phys, size))
  {
    if phys == 0 {
    } else if phys / GIB != (phys + size - 1) / GIB {
      assert Witness(phys, size) / GIB == phys / GIB + 1;
    } else if phys >= MIB2 {
      assert FirstEntry(phys) == phys / MIB2 >= 1;
    } else {
      assert PageCount(size) <= 511;
    }
  }

  lemma WitnessNotMapped(at: Layout, phys: nat, size: nat)
    requires at.Good() && !Mappable(phys, size)
    ensures Walk(AfterBoot(at, phys, size), Witness(phys, size)) != Some(Witness(phys, size))
  {
    var v := Witness(phys, size);
    if phys >= LIMIT39 {
      AfterBootRooted(at, phys, size);
      WalkNowhere(AfterBoot(at, phys, size), v);
    } else {
      WalkAfterBoot(at, phys, size, v);
      WitnessSlices(phys, size);
    }
  }

  // After boot and paging_map_fb the first 1 GiB and the whole framebuffer translate to
  // themselves exactly when the framebuffer is mappable.
  lemma IdentityMapping(at: Layout, phys: nat, size: nat)
    requires at.Good()
    ensures IdentityMapped(at, phys, size) <==> Mappable(phys, size)
  {
    if Mappable(phys, size) {
      MappableIsMapped(at, phys, size);
    } else {
      WitnessInRange(phys, size);
      WitnessNotMapped(at, phys, size);
    }
  }
}
