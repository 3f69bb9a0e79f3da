// Block headers as kernel/heap.c lays them out in memory bytes.
module HeapHeaders {
  import opened Words
  import opened Bytes
  import opened HeapModel
  import opened HeapSteps
  import opened HeapTheorems
  import opened HeapSearch
  import opened HeapLinks

  // struct block_header: size at 0, in_use at 4, next at 8, prev at 16.
  function HeaderAt(m: seq<Byte>, a: nat): Header
    requires InBounds(m, a, HEADER_SIZE)
  {
    Header(Load32(m, a), m[a + 4], Load64(m, a + 8), Load64(m, a + 16))
  }

  // The table has the header at every address where one fits.
  ghost predicate Reflects(h: Headers, m: seq<Byte>) {
    (forall a: nat :: a in h <==> InBounds(m, a, HEADER_SIZE)) &&
    forall a: nat {:trigger HeaderAt(m, a)} :: InBounds(m, a, HEADER_SIZE) ==> h[a] == HeaderAt(m, a)
  }

  function View(m: seq<Byte>): Headers {
    map a: nat | 0 <= a < |m| && InBounds(m, a, HEADER_SIZE) :: HeaderAt(m, a)
  }

  lemma ViewReflects(m: seq<Byte>)
    ensures Reflects(View(m), m)
  {
  }

  lemma ReadHeader(h: Headers, m: seq<Byte>, a: nat)
    requires Reflects(h, m) && a in h
    ensures HeaderAt(m, a) == h[a]
    ensures h[a].size < WORD32 && h[a].inUse < 256 && h[a].next < WORD64 && h[a].prev < WORD64
  {
    assert HeaderAt(m, a) == h[a];
  }

  // A list in memory, byte by byte: size, flag, and links that are null at the ends.
  lemma ListInMemory(h: Headers, m: seq<Byte>, bs: seq<Block>, i: nat)
    requires Reflects(h, m) && Holds(h, bs) && i < |bs|
    ensures var a := bs[i].addr;
            InBounds(m, a, 24) && Load32(m, a) == bs[i].size && (m[a + 4] == 0 <==> !bs[i].inUse) &&
            Load64(m, a + 8) == (if i + 1 < |bs| then bs[i + 1].addr else 0) &&
            Load64(m, a + 16) == if i > 0 then bs[i - 1].addr else 0
  {
    assert HoldsAt(h, bs, i);
    ReadHeader(h, m, bs[i].addr);
  }

  lemma SameBytesSameHeader(m: seq<Byte>, r: seq<Byte>, c: nat)
    requires InBounds(m, c, HEADER_SIZE) && |m| == |r|
    requires forall x :: c <= x < c + HEADER_SIZE ==> m[x] == r[x]
    ensures HeaderAt(r, c) == HeaderAt(m, c)
  {
    LoadFrame(m, r, c, SIZE32);
    LoadFrame(m, r, c + 8, SIZE64);
    LoadFrame(m, r, c + 16, SIZE64);
  }

  // Bytes rewritten inside one header write that header of the table.
  lemma WroteBytes(h: Headers, m: seq<Byte>, r: seq<Byte>, a: nat)
    requires Reflects(h, m) && a in h && SameOutside(m, r, a, a + HEADER_SIZE)
    ensures InBounds(r, a, HEADER_SIZE) && Reflects(View(r), r) && Wrote(h, View(r), a, HeaderAt(r, a))
  {
    var g := View(r);
    ViewReflects(r);
    forall c | c in h && ApartFrom(a, c) ensures g[c] == h[c] {
      SameBytesSameHeader(m, r, c);
      ReadHeader(h, m, c);
      ReadHeader(g, r, c);
    }
    ReadHeader(g, r, a);
    assert g.Keys == h.Keys;
  }

  lemma StoreSize(m: seq<Byte>, a: nat, v: nat)
    requires InBounds(m, a, HEADER_SIZE) && v < WORD32
    ensures var r := Store(m, a, SIZE32, v);
            HeaderAt(r, a) == HeaderAt(m, a).(size := v) && SameOutside(m, r, a, a + HEADER_SIZE)
  {
    var r := Store32(m, a, v);
    LoadFrame(m, r, a + 8, SIZE64);
    LoadFrame(m, r, a + 16, SIZE64);
  }

  lemma StoreInUse(m: seq<Byte>, a: nat, v: Byte)
    requires InBounds(m, a, HEADER_SIZE)
    ensures var r := Store(m, a + 4, 1, v);
            HeaderAt(r, a) == HeaderAt(m, a).(inUse := v) && SameOutside(m, r, a, a + HEADER_SIZE)
  {
    var r := Store(m, a + 4, 1, v);
    assert r == m[a + 4 := v];
    LoadFrame(m, r, a, SIZE32);
    LoadFrame(m, r, a + 8, SIZE64);
    LoadFrame(m, r, a + 16, SIZE64);
  }

  lemma StoreNext(m: seq<Byte>, a: nat, v: nat)
    requires InBounds(m, a, HEADER_SIZE) && v < WORD64
    ensures var r := Store(m, a + 8, SIZE64, v);
            HeaderAt(r, a) == HeaderAt(m, a).(next := v) && SameOutside(m, r, a, a + HEADER_SIZE)
  {
    var r := Store64(m, a + 8, v);
    LoadFrame(m, r, a, SIZE32);
    LoadFrame(m, r, a + 16, SIZE64);
  }

  lemma StorePrev(m: seq<Byte>, a: nat, v: nat)
    requires InBounds(m, a, HEADER_SIZE) && v < WORD64
    ensures var r := Store(m, a + 16, SIZE64, v);
            HeaderAt(r, a) == HeaderAt(m, a).(prev := v) && SameOutside(m, r, a, a + HEADER_SIZE)
  {
    var r := Store64(m, a + 16, v);
    LoadFrame(m, r, a, SIZE32);
    LoadFrame(m, r, a + 8, SIZE64);
  }

  // What a store into one field of the header at a leaves.
  ghost predicate FieldStored(h: Headers, m: seq<Byte>, a: nat, off: nat, n: nat, v: nat, x: Header) {
    a in h && InBounds(m, a, HEADER_SIZE) && off + n <= HEADER_SIZE &&
    var r := Store(m, a + off, n, v);
    HeaderAt(r, a) == x && SameOutside(m, r, a, a + HEADER_SIZE)
  }

  lemma SizeStored(h: Headers, m: seq<Byte>, a: nat, v: nat)
    requires Reflects(h, m) && a in h && v < WORD32
    ensures FieldStored(h, m, a, 0, SIZE32, v, h[a].(size := v))
  {
    ReadHeader(h, m, a);
    StoreSize(m, a, v);
  }

  lemma InUseStored(h: Headers, m: seq<Byte>, a: nat, v: Byte)
    requires Reflects(h, m) && a in h
    ensures FieldStored(h, m, a, 4, 1, v, h[a].(inUse := v))
  {
    ReadHeader(h, m, a);
    StoreInUse(m, a, v);
  }

  lemma NextStored(h: Headers, m: seq<Byte>, a: nat, v: nat)
    requires Reflects(h, m) && a in h && v < WORD64
    ensures FieldStored(h, m, a, 8, SIZE64, v, h[a].(next := v))
  {
    ReadHeader(h, m, a);
    StoreNext(m, a, v);
  }

  lemma PrevStored(h: Headers, m: seq<Byte>, a: nat, v: nat)
    requires Reflects(h, m) && a in h && v < WORD64
    ensures FieldStored(h, m, a, 16, SIZE64, v, h[a].(prev := v))
  {
    ReadHeader(h, m, a);
    StorePrev(m, a, v);
  }

  // ------------------------------------------------------------ bytes left alone

  predicate InHeader(x: nat, headers: set<nat>) {
    exists a :: a in headers && a <= x < a + HEADER_SIZE
  }

  // Only bytes inside these headers may differ.
  ghost predicate Untouched(m: seq<Byte>, r: seq<Byte>, headers: set<nat>) {
    |m| == |r| && forall x :: 0 <= x < |m| && !InHeader(x, headers) ==> m[x] == r[x]
  }

  lemma HeaderWrite(m: seq<Byte>, r: seq<Byte>, a: nat, headers: set<nat>)
    requires SameOutside(m, r, a, a + HEADER_SIZE) && a in headers
    ensures Untouched(m, r, headers)
  {
  }

  lemma HeaderMisses(bs: seq<Block>, b: Block, c: Block, x: nat)
    requires Apart(bs) && b in bs && c in bs && b.Payload() <= x < b.End()
    ensures !(c.addr <= x < c.Payload())
  {
    var i :| 0 <= i < |bs| && bs[i] == b;
    var j :| 0 <= j < |bs| && bs[j] == c;
    BlocksDisjoint(bs, i, j);
  }

  lemma HeaderBytesOutside(bs: seq<Block>, b: Block, x: nat)
    requires Apart(bs) && b in bs && b.Payload() <= x < b.End()
    ensures !InHeader(x, Addrs(bs))
  {
    forall a | a in Addrs(bs) ensures !(a <= x < a + HEADER_SIZE) {
      var c :| c in bs && c.addr == a;
      HeaderMisses(bs, b, c, x);
    }
  }

  // Storing to headers of a list changes no payload byte of its blocks.
  lemma PayloadsKept(bs: seq<Block>, m: seq<Byte>, r: seq<Byte>)
    requires Apart(bs) && Untouched(m, r, Addrs(bs))
    ensures forall b, x :: b in bs && b.Payload() <= x < b.End() && x < |m| ==> m[x] == r[x]
  {
    forall b, x | b in bs && b.Payload() <= x < b.End() && x < |m| ensures m[x] == r[x] {
      HeaderBytesOutside(bs, b, x);
    }
  }

  // Every byte of these blocks' payloads is the same in both memories.
  ghost predicate SamePayloads(live: set<Block>, m: seq<Byte>, r: seq<Byte>) {
    |m| == |r| && forall b, x :: b in live && b.Payload() <= x < b.End() && x < |m| ==> m[x] == r[x]
  }

  // kmalloc stores to headers of the list it leaves, which still has the live blocks,
  // unless the search as written hands one of them out again.
  lemma KmallocKeepsPayloads(s: State, n: nat, page: nat, emptyOnly: bool, m: seq<Byte>, r: seq<Byte>)
    requires Inv(s) && FreshPage(s, page) && (emptyOnly || !FirstBigBlockInUse(s.blocks, n))
    requires Untouched(m, r, Addrs(Kmalloc(s, n, page, emptyOnly).0.blocks))
    ensures SamePayloads(Live(s.blocks), m, r)
  {
    UntestedSearchAliases(s, n, page);
    var (t, p) := Kmalloc(s, n, page, true);
    KmallocAddsOne(s, n, page);
    KmallocKeepsTiling(s, n, page, true);
    TilingFacts(t);
    PayloadsKept(t.blocks, m, r);
    assert Live(s.blocks) <= Live(t.blocks);
  }

  // kfree stores to headers of the list it finds.
  lemma KfreeKeepsPayloads(s: State, ptr: nat, m: seq<Byte>, r: seq<Byte>)
    requires Inv(s) && IsLive(s.blocks, ptr) && Untouched(m, r, Addrs(s.blocks))
    ensures SamePayloads(Live(Kfree(s, ptr).blocks), m, r)
  {
    KfreeRemovesOne(s, ptr);
    TilingFacts(s);
    PayloadsKept(s.blocks, m, r);
    assert Live(Kfree(s, ptr).blocks) <= Live(s.blocks);
  }

  // Where callers may store: payloads that are live, and pages that are not the heap's.
  predicate MayStore(s: State, x: nat) {
    x / PAGE_SIZE * PAGE_SIZE !in s.pages ||
    exists i :: 0 <= i < |s.blocks| && s.blocks[i].inUse && s.blocks[i].Payload() <= x < s.blocks[i].End()
  }

  lemma StoresMissHeaders(s: State, x: nat, i: nat)
    requires Inv(s) && MayStore(s, x) && i < |s.blocks|
    ensures !(s.blocks[i].addr <= x < s.blocks[i].Payload())
  {
    TilingFacts(s);
    if x / PAGE_SIZE * PAGE_SIZE in s.pages {
      var j :| 0 <= j < |s.blocks| && s.blocks[j].inUse && s.blocks[j].Payload() <= x < s.blocks[j].End();
      BlocksDisjoint(s.blocks, i, j);
    } else if s.blocks[i].addr <= x < s.blocks[i].Payload() {
      BlockByteInPage(s, i, x);
    }
  }

  // Callers that store where they may leave every header and link as it was.
  lemma CallerStoresKeepTheList(s: State, m: seq<Byte>, r: seq<Byte>)
    requires Inv(s) && |m| == |r| && forall x: nat :: x < |m| && m[x] != r[x] ==> MayStore(s, x)
    requires Holds(View(m), s.blocks)
    ensures Holds(View(r), s.blocks)
  {
    forall i | 0 <= i < |s.blocks| ensures HoldsAt(View(r), s.blocks, i) {
      var c := s.blocks[i].addr;
      assert HoldsAt(View(m), s.blocks, i);
      forall x | c <= x < c + HEADER_SIZE ensures m[x] == r[x] {
        if m[x] != r[x] { StoresMissHeaders(s, x, i); }
      }
      SameBytesSameHeader(m, r, c);
    }
  }
}
