// Little-endian words inside a byte-addressed memory.
module Bytes {
  import opened Words

  // sizeof(uint32_t), and sizeof of a 64-bit word or pointer.
  const SIZE32: nat := 4
  const SIZE64: nat := 8

  predicate InBounds(m: seq<Byte>, a: nat, n: nat) {
    a + n <= |m|
  }

  // The n-byte word at address a.
  function Load(m: seq<Byte>, a: nat, n: nat): nat
    requires InBounds(m, a, n)
    decreases n
  {
    if n == 0 then 0 else (m[a] as nat) + 256 * Load(m, a + 1, n - 1)
  }

  function Store(m: seq<Byte>, a: nat, n: nat, v: nat): (r: seq<Byte>)
    requires InBounds(m, a, n)
    ensures |r| == |m|
    decreases n
  {
    if n == 0 then m else Store(m[a := v % 256], a + 1, n - 1, v / 256)
  }

  function Capacity(n: nat): nat {
    if n == 0 then 1 else 256 * Capacity(n - 1)
  }

  // The two memories hold the same bytes outside [lo, hi).
  ghost predicate SameOutside(m: seq<Byte>, r: seq<Byte>, lo: nat, hi: nat) {
    |m| == |r| && forall x :: 0 <= x < |m| && !(lo <= x < hi) ==> m[x] == r[x]
  }

  lemma {:induction false} StoreOutside(m: seq<Byte>, a: nat, n: nat, v: nat)
    requires InBounds(m, a, n)
    ensures SameOutside(m, Store(m, a, n, v), a, a + n)
    decreases n
  {
    if n > 0 { StoreOutside(m[a := v % 256], a + 1, n - 1, v / 256); }
  }

  lemma {:induction false} LoadStored(m: seq<Byte>, a: nat, n: nat, v: nat)
    requires InBounds(m, a, n) && v < Capacity(n)
    ensures Load(Store(m, a, n, v), a, n) == v
    decreases n
  {
    if n > 0 {
      StoreOutside(m[a := v % 256], a + 1, n - 1, v / 256);
      LoadStored(m[a := v % 256], a + 1, n - 1, v / 256);
    }
  }

  lemma {:induction false} LoadFrame(m: seq<Byte>, r: seq<Byte>, a: nat, n: nat)
    requires InBounds(m, a, n) && |m| == |r| && forall x :: a <= x < a + n ==> m[x] == r[x]
    ensures Load(m, a, n) == Load(r, a, n)
    decreases n
  {
    if n > 0 { LoadFrame(m, r, a + 1, n - 1); }
  }

  lemma {:induction false} LoadBound(m: seq<Byte>, a: nat, n: nat)
    requires InBounds(m, a, n)
    ensures Load(m, a, n) < Capacity(n)
    decreases n
  {
    if n > 0 { LoadBound(m, a + 1, n - 1); }
  }

  lemma CapacityValues()
    ensures Capacity(SIZE32) == WORD32 && Capacity(SIZE64) == WORD64
  {
    assert Capacity(2) == 0x1_0000;
    assert Capacity(4) == WORD32;
    assert Capacity(6) == 0x1_0000_0000_0000;
  }

  function Load32(m: seq<Byte>, a: nat): (v: nat)
    requires InBounds(m, a, 4)
    ensures v < WORD32
  {
    CapacityValues();
    LoadBound(m, a, SIZE32);
    Load(m, a, SIZE32)
  }

  function Load64(m: seq<Byte>, a: nat): (v: nat)
    requires InBounds(m, a, 8)
    ensures v < WORD64
  {
    CapacityValues();
    LoadBound(m, a, SIZE64);
    Load(m, a, SIZE64)
  }

  function Store32(m: seq<Byte>, a: nat, v: nat): (r: seq<Byte>)
    requires InBounds(m, a, 4) && v < WORD32
    ensures |r| == |m|
    ensures Load32(r, a) == v && SameOutside(m, r, a, a + 4)
  {
    CapacityValues();
    LoadStored(m, a, SIZE32, v);
    StoreOutside(m, a, SIZE32, v);
    Store(m, a, SIZE32, v)
  }

  function Store64(m: seq<Byte>, a: nat, v: nat): (r: seq<Byte>)
    requires InBounds(m, a, 8) && v < WORD64
    ensures |r| == |m|
    ensures Load64(r, a) == v && SameOutside(m, r, a, a + 8)
  {
    CapacityValues();
    LoadStored(m, a, SIZE64, v);
    StoreOutside(m, a, SIZE64, v);
    Store(m, a, SIZE64, v)
  }

  function Four(b0: nat, b1: nat, b2: nat, b3: nat): nat {
    b0 + 0x100 * b1 + 0x1_0000 * b2 + 0x100_0000 * b3
  }

  // Words lie low byte first.
  lemma LittleEndian(m: seq<Byte>, a: nat)
    ensures InBounds(m, a, 4) ==>
              Load32(m, a) == Four(m[a], m[a + 1], m[a + 2], m[a + 3])
    ensures InBounds(m, a, 8) ==> Load64(m, a) == Load32(m, a) + WORD32 * Load32(m, a + 4)
  {
    if InBounds(m, a, 4) { FourBytes(m, a); }
    if InBounds(m, a, 8) { EightBytes(m, a); }
  }

  lemma FourBytes(m: seq<Byte>, a: nat)
    requires InBounds(m, a, 4)
    ensures Load(m, a, 4) == Four(m[a], m[a + 1], m[a + 2], m[a + 3])
  {
    assert Load(m, a + 4, 0) == 0;
    assert Load(m, a + 3, 1) == m[a + 3];
    assert Load(m, a + 2, 2) == (m[a + 2] as nat) + 0x100 * (m[a + 3] as nat);
  }

  lemma EightBytes(m: seq<Byte>, a: nat)
    requires InBounds(m, a, 8)
    ensures Load(m, a, 8) == Load(m, a, 4) + WORD32 * Load(m, a + 4, 4)
  {
    FourBytes(m, a);
    assert Load(m, a + 3, 5) == (m[a + 3] as nat) + 0x100 * Load(m, a + 4, 4);
    assert Load(m, a + 2, 6) == (m[a + 2] as nat) + 0x100 * Load(m, a + 3, 5);
    assert Load(m, a + 1, 7) == (m[a + 1] as nat) + 0x100 * Load(m, a + 2, 6);
  }
}
