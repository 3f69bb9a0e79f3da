// The number formatters of kernel/memory.c and kernel/fb.c, and the parsers that undo
// them.
module Numbers {
  import opened Words
  import opened Bits

  // ------------------------------------------------------------------------- text

  predicate IsDigit(c: char) {
    '0' <= c <= '9'
  }

  function DigitChar(d: nat): (c: char)
    requires d < 10
    ensures IsDigit(c)
  {
    '0' + (d as char)
  }

  lemma TenDigitChars(d: nat)
    requires d < 10
    ensures DigitChar(d) == "0123456789"[d]
  {
  }

  function DigitValue(c: char): nat
    requires IsDigit(c)
  {
    c as nat - '0' as nat
  }

  predicate AllDigits(s: string) {
    forall i :: 0 <= i < |s| ==> IsDigit(s[i])
  }

  // Reads a decimal numeral.
  function Parse(s: string): nat
    requires AllDigits(s)
  {
    if s == [] then 0 else 10 * Parse(s[..|s| - 1]) + DigitValue(s[|s| - 1])
  }

  predicate IsNumeral(s: string) {
    s != [] && if s[0] == '-' then AllDigits(s[1..]) else AllDigits(s)
  }

  function ParseInt(s: string): int
    requires IsNumeral(s)
  {
    if s[0] == '-' then 0 - Parse(s[1..]) else Parse(s)
  }

  // ------------------------------------------------------------------- decimal output

  // The digits of n, none for 0.
  function Digits(n: nat): (s: string)
    ensures AllDigits(s)
  {
    if n == 0 then [] else Digits(n / 10) + [DigitChar(n % 10)]
  }

  function Decimal(n: nat): (s: string)
    ensures AllDigits(s)
  {
    if n == 0 then "0" else Digits(n)
  }

  function Signed(n: int): string {
    if n < 0 then ['-'] + Decimal(-n) else Decimal(n)
  }

  lemma SignedIs(n: int)
    ensures Signed(n) == if n < 0 then "-" + Decimal(0 - n) else Decimal(n)
  {
  }

  lemma {:induction false} ParseDigits(n: nat)
    ensures Parse(Digits(n)) == n
    ensures n > 0 ==> Digits(n) != [] && Digits(n)[0] != '0'
  {
    if n > 0 {
      ParseDigits(n / 10);
      assert Digits(n)[..|Digits(n)| - 1] == Digits(n / 10);
    }
  }

  function Pow10(k: nat): (p: nat)
    ensures p > 0
  {
    if k == 0 then 1 else 10 * Pow10(k - 1)
  }

  // With n == a * x + t and x == q * p + r, n / (a * p) == q.
  lemma NestedQuotient(n: nat, a: nat, p: nat, q: nat, r: nat, t: nat)
    requires r < p && t < a && n == a * (q * p + r) + t
    ensures a * p > 0 && n / (a * p) == q
  {
    RemainderBound(a, p, r, t);
    assert n == q * (a * p) + (a * r + t);
    DivModUnique(n, a * p, q, a * r + t);
  }

  lemma RemainderBound(a: nat, p: nat, r: nat, t: nat)
    requires r < p && t < a
    ensures a * r + t < a * p
  {
    var d := p - (r + 1);
    assert a * p == a * r + a + a * d;
  }

  lemma QuotRem(n: nat, d: nat)
    requires d > 0
    ensures n % d < d && n == d * (n / d) + n % d
  {
  }

  lemma DivDiv(n: nat, a: nat, p: nat)
    requires a > 0 && p > 0
    ensures a * p > 0 && n / (a * p) == n / a / p
  {
    var x := n / a;
    QuotRem(n, a);
    QuotRem(x, p);
    NestedQuotient(n, a, p, x / p, x % p, n % a);
  }

  // Position k holds the digit of weight 10 ^ (count - 1 - k).
  lemma {:induction false} DigitAt(n: nat, k: nat)
    requires k < |Digits(n)|
    ensures Digits(n)[k] == DigitChar(n / Pow10(|Digits(n)| - 1 - k) % 10)
  {
    var last := |Digits(n)| - 1;
    assert n / Pow10(0) == n;
    if k < last {
      DigitAt(n / 10, k);
      DivDiv(n, 10, Pow10(last - 1 - k));
    }
  }

  lemma {:induction false} DigitCount(n: nat, k: nat)
    requires n < Pow10(k)
    ensures |Digits(n)| <= k
    decreases k
  {
    if n > 0 { DigitCount(n / 10, k - 1); }
  }

  lemma TenDigits(n: nat)
    requires n < WORD32
    ensures |Digits(n)| <= 10
  {
    assert Pow10(5) == 100000;
    assert Pow10(10) == 10000000000;
    DigitCount(n, 10);
  }

  // Parsing undoes printing, and no numeral but "0" starts with a zero.
  lemma ParseUndoesDecimal(n: nat)
    ensures Parse(Decimal(n)) == n && Decimal(n) != []
    ensures Decimal(n)[0] == '0' <==> n == 0
    ensures n < WORD32 ==> |Decimal(n)| <= 10
  {
    ParseDigits(n);
    if n == 0 {
      assert "0"[..0] == [];
      assert Parse("0") == 10 * Parse([]) + DigitValue('0');
    }
    if n < WORD32 { TenDigits(n); }
  }

  lemma ParseNegated(s: string, m: nat)
    requires AllDigits(s) && Parse(s) == m
    ensures IsNumeral(['-'] + s) && ParseInt(['-'] + s) == 0 - m
  {
    assert (['-'] + s)[1..] == s;
  }

  lemma ParsePlain(s: string, m: nat)
    requires AllDigits(s) && s != [] && Parse(s) == m
    ensures IsNumeral(s) && ParseInt(s) == m
  {
    assert IsDigit(s[0]);
  }

  lemma ParseNegative(m: nat)
    requires m > 0
    ensures IsNumeral(Signed(0 - m)) && ParseInt(Signed(0 - m)) == 0 - m
  {
    ParseUndoesDecimal(m);
    ParseNegated(Decimal(m), m);
  }

  lemma ParsePositive(m: nat)
    ensures IsNumeral(Signed(m)) && ParseInt(Signed(m)) == m
  {
    ParseUndoesDecimal(m);
    ParsePlain(Decimal(m), m);
  }

  lemma ParseUndoesSigned(n: int)
    ensures IsNumeral(Signed(n)) && ParseInt(Signed(n)) == n
  {
    if n < 0 { ParseNegative(-n); } else { ParsePositive(n); }
  }

  function Reverse(s: string): string {
    if s == [] then [] else Reverse(s[1..]) + [s[0]]
  }

  lemma {:induction false} ReverseAppend(s: string, c: char)
    ensures Reverse(s + [c]) == [c] + Reverse(s)
  {
    if s == [] {
      assert s + [c] == [c] && [c][1..] == [];
    } else {
      assert (s + [c])[1..] == s[1..] + [c];
      ReverseAppend(s[1..], c);
    }
  }

  // The first loop of both decimal formatters: digits into an 11-byte temporary, low end
  // first.
  method TakeDigits(value: nat) returns (tmp: array<char>, i: nat)
    requires value < WORD32
    ensures fresh(tmp) && i == |Digits(value)| <= tmp.Length && Digits(value) == Reverse(tmp[..i])
  {
    tmp := new char[11];
    var n := value;
    i := 0;
    TenDigits(value);
    while n > 0
      invariant i + |Digits(n)| == |Digits(value)| && i <= 10
      invariant Digits(value) == Digits(n) + Reverse(tmp[..i])
      decreases n
    {
      ghost var was := tmp[..i];
      tmp[i] := DigitChar(n % 10);
      ReverseAppend(was, tmp[i]);
      assert tmp[..i + 1] == was + [tmp[i]];
      n := n / 10;
      i := i + 1;
    }
  }

  // Both loops: the digits come out in order, in buf from position at on.
  method PutDigits(value: nat, buf: array<char>, at: nat) returns (j: nat)
    requires value < WORD32 && at + |Digits(value)| <= buf.Length
    modifies buf
    ensures j == at + |Digits(value)|
    ensures buf[..] == old(buf[..at]) + Digits(value) + old(buf[at + |Digits(value)|..])
  {
    var tmp, i := TakeDigits(value);
    j := CopyBack(tmp, i, buf, at);
  }

  method CopyBack(tmp: array<char>, count: nat, buf: array<char>, at: nat) returns (j: nat)
    requires count <= tmp.Length && at + count <= buf.Length && tmp != buf
    modifies buf
    ensures j == at + count && buf[..] == old(buf[..at]) + Reverse(tmp[..count]) + old(buf[at + count..])
  {
    var i := count;
    j := at;
    ghost var was := buf[..];
    while i > 0
      invariant 0 <= i <= count && j == at + (count - i)
      invariant buf[..j] + Reverse(tmp[..i]) == was[..at] + Reverse(tmp[..count])
      invariant buf[j..] == was[j..]
    {
      i := i - 1;
      ReverseAppend(tmp[..i], tmp[i]);
      assert tmp[..i + 1] == tmp[..i] + [tmp[i]];
      ghost var before := buf[..j];
      buf[j] := tmp[i];
      assert buf[..j + 1] == before + [tmp[i]];
      assert buf[j + 1..] == was[j..][1..];
      j := j + 1;
    }
    assert buf[..] == buf[..j] + buf[j..];
  }

  // The C string at the start of a buffer is s.
  ghost predicate HoldsText(b: seq<char>, s: string) {
    |s| < |b| && b[..|s|] == s && b[|s|] == '\0'
  }

  method UintToStr(n: nat, buf: array<char>)
    requires n < WORD32 && buf.Length >= 11
    modifies buf
    ensures HoldsText(buf[..], Decimal(n)) && |Decimal(n)| <= 10
  {
    ParseUndoesDecimal(n);
    if n == 0 {
      buf[0] := '0';
      buf[1] := '\0';
      return;
    }
    var j := PutDigits(n, buf, 0);
    buf[j] := '\0';
  }

  // int_to_str; for INT_MIN the negation overflows.
  method IntToStr(n: int, buf: array<char>)
    requires -0x8000_0000 < n < 0x8000_0000 && buf.Length >= 12
    modifies buf
    ensures HoldsText(buf[..], Signed(n)) && |Signed(n)| <= 11
  {
    if n == 0 {
      buf[0] := '0';
      buf[1] := '\0';
      return;
    }
    var j := 0;
    if n < 0 {
      buf[0] := '-';
      j := 1;
    }
    FinishInt(if n < 0 then -n else n, buf, j);
    assert n < 0 ==> buf[..1] == ['-'];
    assert Signed(n) == buf[..|Signed(n)|];
  }

  // The loops of int_to_str on the absolute value.
  method FinishInt(m: nat, buf: array<char>, at: nat)
    requires 0 < m < WORD32 && at <= 1 && buf.Length >= 12
    modifies buf
    ensures |Decimal(m)| <= 10 && buf[..at] == old(buf[..at])
    ensures buf[at..at + |Decimal(m)|] == Decimal(m) && buf[at + |Decimal(m)|] == '\0'
  {
    ParseUndoesDecimal(m);
    var j := PutAfter(m, buf, at);
    buf[j] := '\0';
  }

  method PutAfter(m: nat, buf: array<char>, at: nat) returns (j: nat)
    requires m < WORD32 && at + |Digits(m)| <= buf.Length
    modifies buf
    ensures j == at + |Digits(m)| && buf[..at] == old(buf[..at]) && buf[at..j] == Digits(m)
  {
    ghost var was := buf[..at];
    j := PutDigits(m, buf, at);
    assert buf[..at] == was;
  }

  // ---------------------------------------------------------------------- hexadecimal

  function HexChar(d: nat, upper: bool): char
    requires d < 16
  {
    if d < 10 then '0' + (d as char) else if upper then 'A' + ((d - 10) as char) else 'a' + ((d - 10) as char)
  }

  lemma HexDigits(d: nat)
    requires d < 16
    ensures d < 10 ==> HexChar(d, true) == HexChar(d, false) == "0123456789"[d]
    ensures d >= 10 ==> HexChar(d, true) == "ABCDEF"[d - 10] && HexChar(d, false) == "abcdef"[d - 10]
  {
  }

  function HexValue(c: char): nat {
    if '0' <= c <= '9' then c as nat - '0' as nat
    else if 'A' <= c <= 'F' then c as nat - 'A' as nat + 10
    else if 'a' <= c <= 'f' then c as nat - 'a' as nat + 10
    else 0
  }

  // The low `width` hexadecimal digits of n.
  function Hex(n: nat, width: nat, upper: bool): (s: string)
    ensures |s| == width
  {
    if width == 0 then [] else Hex(n / 16, width - 1, upper) + [HexChar(n % 16, upper)]
  }

  function ParseHex(s: string): nat {
    if s == [] then 0 else 16 * ParseHex(s[..|s| - 1]) + HexValue(s[|s| - 1])
  }

  function Pow16(k: nat): (p: nat)
    ensures p > 0
  {
    if k == 0 then 1 else 16 * Pow16(k - 1)
  }

  // Position k holds the digit of weight 16 ^ (width - 1 - k).
  lemma {:induction false} HexAt(n: nat, width: nat, upper: bool, k: nat)
    requires k < width
    ensures Hex(n, width, upper)[k] == HexChar(n / Pow16(width - 1 - k) % 16, upper)
    decreases width
  {
    if k == width - 1 {
      assert n / Pow16(0) == n;
    } else {
      HexAt(n / 16, width - 1, upper, k);
      DivDiv(n, 16, Pow16(width - 2 - k));
    }
  }

  lemma HexCharValue(d: nat, upper: bool)
    requires d < 16
    ensures HexValue(HexChar(d, upper)) == d
  {
  }

  lemma {:induction false} ParseUndoesHex(n: nat, width: nat, upper: bool)
    requires n < Pow16(width)
    ensures ParseHex(Hex(n, width, upper)) == n
    decreases width
  {
    if width > 0 {
      ParseUndoesHex(n / 16, width - 1, upper);
      HexCharValue(n % 16, upper);
      assert Hex(n, width, upper)[..width - 1] == Hex(n / 16, width - 1, upper);
    }
  }

  // Both hexadecimal formatters: "0x", then `width` digits from the low end down.
  method PutHex(value: nat, width: nat, upper: bool, buf: array<char>)
    requires buf.Length >= width + 3
    modifies buf
    ensures HoldsText(buf[..], "0x" + Hex(value, width, upper))
  {
    buf[0] := '0';
    buf[1] := 'x';
    HexLoop(value, width, upper, buf);
    buf[2 + width] := '\0';
    assert buf[..2 + width] == buf[..2] + buf[2..2 + width];
  }

  method HexLoop(value: nat, width: nat, upper: bool, buf: array<char>)
    requires buf.Length >= width + 3
    modifies buf
    ensures buf[..2] == old(buf[..2]) && buf[2..2 + width] == Hex(value, width, upper)
  {
    var n := value;
    var i := width;
    while i > 0
      invariant 0 <= i <= width && buf[..2] == old(buf[..2])
      invariant Hex(n, i, upper) + buf[2 + i..2 + width] == Hex(value, width, upper)
    {
      ghost var done, c := buf[2 + i..2 + width], HexChar(n % 16, upper);
      assert Hex(n, i, upper) + done == Hex(n / 16, i - 1, upper) + ([c] + done);
      i := i - 1;
      buf[2 + i] := HexChar(n % 16, upper);
      assert buf[2 + i..2 + width] == [c] + done;
      n := n / 16;
    }
  }

  lemma HexWidths()
    ensures Pow16(8) == WORD32 && Pow16(16) == WORD64
  {
    assert Pow16(4) == 0x1_0000;
    assert Pow16(12) == 0x1_0000_0000_0000;
  }

  method UintToHex(n: nat, buf: array<char>)
    requires n < WORD32 && buf.Length >= 11
    modifies buf
    ensures HoldsText(buf[..], "0x" + Hex(n, 8, true)) && ParseHex(Hex(n, 8, true)) == n
  {
    HexWidths();
    ParseUndoesHex(n, 8, true);
    PutHex(n, 8, true, buf);
  }

  method AddrToStr(addr: nat, buf: array<char>)
    requires addr < WORD64 && buf.Length >= 19
    modifies buf
    ensures HoldsText(buf[..], "0x" + Hex(addr, 16, false)) && ParseHex(Hex(addr, 16, false)) == addr
  {
    HexWidths();
    ParseUndoesHex(addr, 16, false);
    PutHex(addr, 16, false, buf);
  }

  // ----------------------------------------------------------------------- sizes

  // The number and the unit size_to_str prints; the count of KiB is cut to 32 bits.
  function SizeNumber(bytes: nat): nat {
    var kb := bytes / 1024 % WORD32;
    if kb >= 1024 then kb / 1024 else kb
  }

  function SizeText(bytes: nat): string {
    Decimal(SizeNumber(bytes)) + (if bytes / 1024 % WORD32 >= 1024 then " MB" else " KB")
  }

  lemma KiloCut(bytes: nat)
    ensures bytes / 0x400 % 0x1_0000_0000 == bytes % 0x400_0000_0000 / 0x400
  {
    var q, b := bytes / 0x400_0000_0000, bytes % 0x400_0000_0000;
    DivModUnique(bytes, 0x400, q * 0x1_0000_0000 + b / 0x400, b % 0x400);
    DivModUnique(bytes / 0x400, 0x1_0000_0000, q, b / 0x400);
  }

  // Megabytes from 1 MiB on and kilobytes below, rounded down; 4 TiB wrap to nothing.
  lemma SizeTextIs(bytes: nat)
    ensures var b := bytes % 0x400_0000_0000;
            SizeText(bytes) == if b >= 0x10_0000 then Decimal(b / 0x10_0000) + " MB" else Decimal(b / 0x400) + " KB"
  {
    KiloCut(bytes);
    SizeOfKilos(bytes, bytes % 0x400_0000_0000);
  }

  lemma SizeOfKilos(bytes: nat, b: nat)
    requires bytes / 1024 % WORD32 == b / 0x400
    ensures SizeText(bytes) == if b >= 0x10_0000 then Decimal(b / 0x10_0000) + " MB" else Decimal(b / 0x400) + " KB"
  {
  }

  // It fits the 12 bytes memory.h asks for, NUL included.
  lemma SizeTextFits(bytes: nat)
    ensures |SizeText(bytes)| + 1 <= 12
  {
    var n := SizeNumber(bytes);
    assert Pow10(4) == 10000;
    assert Pow10(7) == 10000000;
    DigitCount(n, 7);
  }

  method SizeToStr(bytes: nat, buf: array<char>)
    requires buf.Length >= 12
    modifies buf
    ensures HoldsText(buf[..], SizeText(bytes))
  {
    var kb := bytes / 1024 % WORD32;
    var tmp := new char[11];
    UintToStr(if kb >= 1024 then kb / 1024 else kb, tmp);
    SizeTextFits(bytes);
    var p := CopyText(tmp, Decimal(SizeNumber(bytes)), buf);
    PutUnit(buf, p, if kb >= 1024 then 'M' else 'K');
  }

  method PutUnit(buf: array<char>, p: nat, unit: char)
    requires p + 4 <= buf.Length
    modifies buf
    ensures HoldsText(buf[..], old(buf[..p]) + [' ', unit, 'B'])
  {
    ghost var num := buf[..p];
    buf[p] := ' ';
    buf[p + 1] := unit;
    buf[p + 2] := 'B';
    buf[p + 3] := '\0';
    assert buf[..p + 3] == num + [' ', unit, 'B'];
  }

  // Copies a C string without its NUL.
  method CopyText(tmp: array<char>, ghost num: string, buf: array<char>) returns (p: nat)
    requires HoldsText(tmp[..], num) && AllDigits(num) && |num| < buf.Length && tmp != buf
    modifies buf
    ensures p == |num| && buf[..p] == num
  {
    p := 0;
    while tmp[p] != '\0'
      invariant p <= |num| && buf[..p] == num[..p]
      decreases |num| - p
    {
      assert tmp[..|num|][p] == num[p];
      buf[p] := tmp[p];
      p := p + 1;
    }
    assert p < |num| ==> tmp[..|num|][p] == num[p] && IsDigit(num[p]);
  }
}
