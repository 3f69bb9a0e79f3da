// The two scancode tables of kernel/keyboard.c: which key gives which character.
module KeyTable {
  import opened Words

  const MAP_SIZE: nat := 58

  // scancode_map and uppercase_map.
  const LOWER: string :=
    "\0\0" + "1234567890-=" + "\0\0" + "qwertyuiop[]" + "\n\0" + "asdfghjkl;'`" + "\0" + "\\zxcvbnm,./" + "\0*\0 "
  const UPPER: string :=
    "\0\0" + "!@#$%^&*()_+" + "\0\0" + "QWERTYUIOP{}" + "\n\0" + "ASDFGHJKL:\"~" + "\0" + "|ZXCVBNM<>?" + "\0*\0 "

  lemma MapSizes()
    ensures |LOWER| == MAP_SIZE && |UPPER| == MAP_SIZE
  {
  }

  // The map the driver looks a key up in.
  function TheMap(shift: bool): (m: string)
    ensures |m| == MAP_SIZE
  {
    MapSizes();
    if shift then UPPER else LOWER
  }

  // The character a key gives; 0 for keys that give none.
  function KeyChar(shift: bool, code: nat): Byte
    requires code < MAP_SIZE
  {
    TheMap(shift)[code] as nat % 256
  }

  // ------------------------------------------------------- the rows of a keyboard

  // The four rows of the main block, without and with Shift, and their first scancodes.
  function Row(shift: bool, r: nat): (row: string)
    ensures |row| == if r < 3 then 12 else 11
  {
    if !shift then
      if r == 0 then "1234567890-="
      else if r == 1 then "qwertyuiop[]"
      else if r == 2 then "asdfghjkl;'`"
      else "\\zxcvbnm,./"
    else
      if r == 0 then "!@#$%^&*()_+"
      else if r == 1 then "QWERTYUIOP{}"
      else if r == 2 then "ASDFGHJKL:\"~"
      else "|ZXCVBNM<>?"
  }

  function FirstCode(r: nat): nat {
    if r == 0 then 0x02 else if r == 1 then 0x10 else if r == 2 then 0x1E else 0x2B
  }

  // A map is its rows and the codes between them.
  lemma RowsApart(d: string, t: string, h: string, b: string)
    requires |d| == |t| == |h| == 12 && |b| == 11
    ensures var m := "\0\0" + d + "\0\0" + t + "\n\0" + h + "\0" + b + "\0*\0 ";
            |m| == 58 && m[0x02..0x0E] == d && m[0x10..0x1C] == t && m[0x1E..0x2A] == h && m[0x2B..0x36] == b
  {
  }

  lemma LowerRows()
    ensures LOWER[0x02..0x0E] == Row(false, 0) && LOWER[0x10..0x1C] == Row(false, 1)
    ensures LOWER[0x1E..0x2A] == Row(false, 2) && LOWER[0x2B..0x36] == Row(false, 3)
  {
    RowsApart(Row(false, 0), Row(false, 1), Row(false, 2), Row(false, 3));
  }

  lemma UpperRows()
    ensures UPPER[0x02..0x0E] == Row(true, 0) && UPPER[0x10..0x1C] == Row(true, 1)
    ensures UPPER[0x1E..0x2A] == Row(true, 2) && UPPER[0x2B..0x36] == Row(true, 3)
  {
    RowsApart(Row(true, 0), Row(true, 1), Row(true, 2), Row(true, 3));
  }

  lemma RowSlice(shift: bool, r: nat)
    requires r < 4
    ensures var first := FirstCode(r);
            first + |Row(shift, r)| <= MAP_SIZE && TheMap(shift)[first..first + |Row(shift, r)|] == Row(shift, r)
  {
    LowerRows();
    UpperRows();
  }

  lemma SliceAt(t: string, a: nat, row: string, i: nat)
    requires a + |row| <= |t| && t[a..a + |row|] == row && i < |row|
    ensures t[a + i] == row[i]
  {
    assert t[a..a + |row|][i] == t[a + i];
  }

  // The i-th key of a row gives the row's i-th character.
  lemma RowKey(shift: bool, r: nat, i: nat)
    requires r < 4 && i < |Row(shift, r)|
    ensures FirstCode(r) + i < MAP_SIZE && TheMap(shift)[FirstCode(r) + i] == Row(shift, r)[i]
  {
    RowSlice(shift, r);
    SliceAt(TheMap(shift), FirstCode(r), Row(shift, r), i);
  }

  // The keys outside the rows: keypad star, space, and those without a character.
  lemma OtherKeys(shift: bool)
    ensures KeyChar(shift, 0x37) == 42 && KeyChar(shift, 0x39) == 32
    ensures KeyChar(shift, 0x00) == KeyChar(shift, 0x01) == KeyChar(shift, 0x0F) == 0
    ensures KeyChar(shift, 0x1D) == KeyChar(shift, 0x38) == 0
  {
  }

  // ------------------------------------------------------------ how rows relate

  predicate Below12(i: nat) {
    i == 0 || i == 1 || i == 2 || i == 3 || i == 4 || i == 5 || i == 6 || i == 7 || i == 8 || i == 9 || i == 10 ||
    i == 11
  }

  // Shift turns exactly the letters into capitals.
  lemma RowCapitals(r: nat, i: nat)
    requires r < 4 && i < |Row(false, r)|
    ensures 'a' <= Row(false, r)[i] <= 'z' <==> 'A' <= Row(true, r)[i] <= 'Z'
    ensures 'a' <= Row(false, r)[i] <= 'z' ==> Row(true, r)[i] as nat == Row(false, r)[i] as nat - 32
  {
    assert Below12(i);
  }

  lemma DigitRowDiffers(shift: bool, i: nat, q: nat, j: nat)
    requires i < 12 && q < 4 && j < |Row(shift, q)| && (q != 0 || i != j)
    ensures Row(shift, 0)[i] != Row(shift, q)[j]
  {
    assert Below12(i) && Below12(j);
  }

  lemma TopRowDiffers(shift: bool, i: nat, q: nat, j: nat)
    requires i < 12 && 1 <= q < 4 && j < |Row(shift, q)| && (q != 1 || i != j)
    ensures Row(shift, 1)[i] != Row(shift, q)[j]
  {
    assert Below12(i) && Below12(j);
  }

  lemma HomeRowDiffers(shift: bool, i: nat, q: nat, j: nat)
    requires i < 12 && 2 <= q < 4 && j < |Row(shift, q)| && (q != 2 || i != j)
    ensures Row(shift, 2)[i] != Row(shift, q)[j]
  {
    assert Below12(i) && Below12(j);
  }

  lemma BottomRowDiffers(shift: bool, i: nat, j: nat)
    requires i < 11 && j < 11 && i != j
    ensures Row(shift, 3)[i] != Row(shift, 3)[j]
  {
    assert Below12(i) && Below12(j);
  }

  // No two keys of the main block share a character.
  lemma KeysDiffer(shift: bool, r: nat, i: nat, q: nat, j: nat)
    requires r <= q < 4 && i < |Row(shift, r)| && j < |Row(shift, q)| && (r != q || i != j)
    ensures Row(shift, r)[i] != Row(shift, q)[j]
  {
    if r == 0 {
      DigitRowDiffers(shift, i, q, j);
    } else if r == 1 {
      TopRowDiffers(shift, i, q, j);
    } else if r == 2 {
      HomeRowDiffers(shift, i, q, j);
    } else {
      BottomRowDiffers(shift, i, j);
    }
  }
}
