// shell_exec of kernel/shell.c: a bounded copy of the command line and the in-place
// tokenizer that cuts it into arguments.
module Shell {
  import opened Words

  const BUF_SIZE: nat := 256
  const MAX_ARGS: nat := 16
  const SPACE: Byte := 32

  // ---------------------------------------------------------------- specification

  // The characters copied: up to the first NUL, at most n.
  function Taken(line: seq<Byte>, n: nat): (t: seq<Byte>)
    ensures |t| <= n && t <= line && 0 !in t
    ensures |t| < n && |t| < |line| ==> line[|t|] == 0
  {
    if n == 0 || line == [] || line[0] == 0 then [] else [line[0]] + Taken(line[1..], n - 1)
  }

  lemma NoNulInside(line: seq<Byte>, t: seq<Byte>)
    requires t <= line && 0 !in t
    ensures forall k :: 0 <= k < |t| ==> line[k] != 0
  {
    forall k | 0 <= k < |t| ensures line[k] != 0 {
      assert t[k] == line[k] && t[k] in t;
    }
  }

  lemma TakenInside(line: seq<Byte>, n: nat)
    requires |line| > n || 0 in line
    ensures |Taken(line, n)| < |line|
    ensures forall k :: 0 <= k < |Taken(line, n)| ==> line[k] != 0
  {
    NoNulInside(line, Taken(line, n));
  }

  // A maximal space-free run starts at i.
  predicate IsStart(t: seq<Byte>, i: nat) {
    i < |t| && t[i] != SPACE && (i == 0 || t[i - 1] == SPACE)
  }

  // The run from i on ends before e.
  predicate IsRun(t: seq<Byte>, i: nat, e: nat) {
    IsStart(t, i) && i < e <= |t| && (forall k :: i <= k < e ==> t[k] != SPACE) && (e == |t| || t[e] == SPACE)
  }

  function RunEnd(t: seq<Byte>, i: nat): (e: nat)
    requires i <= |t|
    ensures i <= e <= |t| && (forall k :: i <= k < e ==> t[k] != SPACE) && (e < |t| ==> t[e] == SPACE)
    decreases |t| - i
  {
    if i == |t| || t[i] == SPACE then i else RunEnd(t, i + 1)
  }

  // The starts of the first n maximal space-free runs at or after i.
  function Starts(t: seq<Byte>, i: nat, n: nat): seq<nat>
    requires i <= |t|
    decreases |t| - i
  {
    if n == 0 || i == |t| then []
    else if t[i] == SPACE then Starts(t, i + 1, n)
    else [i] + Starts(t, RunEnd(t, i), n - 1)
  }

  function Word(t: seq<Byte>, i: nat): seq<Byte>
    requires i <= |t|
  {
    t[i..RunEnd(t, i)]
  }

  // The C string at offset p of a buffer.
  function CString(b: seq<Byte>, p: nat): seq<Byte>
    requires p <= |b|
    decreases |b| - p
  {
    if p == |b| || b[p] == 0 then [] else [b[p]] + CString(b, p + 1)
  }

  lemma {:induction false} CStringIs(b: seq<Byte>, p: nat, w: seq<Byte>)
    requires p + |w| < |b| && b[p..p + |w|] == w && b[p + |w|] == 0 && 0 !in w
    ensures CString(b, p) == w
    decreases |w|
  {
    if w != [] {
      assert b[p] == w[0] && w[0] in w;
      assert b[p + 1..p + 1 + |w[1..]|] == w[1..] by { assert b[p..p + |w|][1..] == w[1..]; }
      CStringIs(b, p + 1, w[1..]);
    }
  }

  // -------------------------------------------------------------------- shell_exec

  // The arguments found so far: NUL-terminated in the buffer, all before offset p.
  ghost predicate Cut(b: seq<Byte>, t: seq<Byte>, args: seq<nat>, p: nat) {
    |t| < |b| && forall k :: 0 <= k < |args| ==> CutArg(b, t, args[k], p)
  }

  ghost predicate CutArg(b: seq<Byte>, t: seq<Byte>, a: nat, p: nat) {
    a < |t| < |b| && RunEnd(t, a) <= p && (RunEnd(t, a) < p || p == |t|) &&
    b[a..RunEnd(t, a)] == Word(t, a) && b[RunEnd(t, a)] == 0
  }

  // Ending the next argument cuts it off and leaves the earlier ones alone.
  lemma CutOneMore(b: seq<Byte>, c: seq<Byte>, t: seq<Byte>, args: seq<nat>, p: nat, start: nat, next: nat)
    requires Cut(b, t, args, p) && p <= start < |t| && t[start] != SPACE && b[start..|t|] == t[start..] && b[|t|] == 0
    requires var q := RunEnd(t, start);
             c == (if q < |t| then b[q := 0] else b) && next == (if q < |t| then q + 1 else q)
    ensures Cut(c, t, args + [start], next)
  {
    var q, out := RunEnd(t, start), args + [start];
    assert b[start..q] == b[start..|t|][..q - start] == Word(t, start);
    assert c[start..q] == b[start..q];
    forall k | 0 <= k < |out| ensures CutArg(c, t, out[k], next) {
      if k < |args| { CutArgStays(b, c, t, args[k], p, q, next); }
    }
  }

  lemma CutArgStays(b: seq<Byte>, c: seq<Byte>, t: seq<Byte>, a: nat, p: nat, q: nat, next: nat)
    requires CutArg(b, t, a, p) && p < |t| && p <= q <= next <= |t| && |b| == |c|
    requires forall x :: 0 <= x < |b| && x != q ==> c[x] == b[x]
    ensures CutArg(c, t, a, next)
  {
    assert c[a..RunEnd(t, a)] == b[a..RunEnd(t, a)];
  }

  class Tokenizer {
    const buf: array<Byte>

    constructor ()
      ensures buf.Length == BUF_SIZE && fresh(buf)
    {
      buf := new Byte[BUF_SIZE](_ => 0);
    }

    // The copy loop. The line holds a NUL or at least as many characters as buf.
    method Copy(line: array<Byte>) returns (j: nat)
      requires buf.Length == BUF_SIZE && line != buf && (line.Length >= BUF_SIZE || 0 in line[..])
      modifies buf
      ensures j < buf.Length && buf[..j] == Taken(line[..], buf.Length - 1) && buf[j] == 0
    {
      ghost var t := Taken(line[..], buf.Length - 1);
      TakenInside(line[..], buf.Length - 1);
      j := 0;
      while line[j] != 0 && j < 255
        invariant j <= |t| < buf.Length && buf[..j] == line[..j] && |t| < line.Length
        decreases buf.Length - j
      {
        buf[j] := line[j];
        j := j + 1;
      }
      buf[j] := 0;
    }

    // Steps over spaces.
    method SkipSpaces(start: nat, ghost t: seq<Byte>, ghost n: nat) returns (p: nat)
      requires start <= |t| < buf.Length && buf[start..|t|] == t[start..] && buf[|t|] == 0 && n > 0
      ensures start <= p <= |t| && Starts(t, p, n) == Starts(t, start, n)
      ensures p < |t| ==> t[p] != SPACE
    {
      p := start;
      while buf[p] == SPACE
        invariant start <= p <= |t| && Starts(t, p, n) == Starts(t, start, n)
        decreases |t| - p
      {
        assert buf[p] == buf[start..|t|][p - start];
        p := p + 1;
      }
      if p < |t| { assert buf[p] == buf[start..|t|][p - start]; }
    }

    // Steps to the end of a word.
    method SkipWord(start: nat, ghost t: seq<Byte>) returns (p: nat)
      requires start <= |t| < buf.Length && buf[start..|t|] == t[start..] && buf[|t|] == 0 && 0 !in t
      ensures start <= p <= |t| && p == RunEnd(t, start)
    {
      p := start;
      while buf[p] != 0 && buf[p] != SPACE
        invariant start <= p <= |t| && RunEnd(t, p) == RunEnd(t, start)
        decreases |t| - p
      {
        assert p < |t| ==> buf[p] == buf[start..|t|][p - start];
        p := p + 1;
      }
      if p < |t| { assert buf[p] == buf[start..|t|][p - start]; assert t[p] in t; }
    }

    // shell_exec up to the call of shell_exec_args: argv points at the first 16 maximal
    // space-free runs of the first 255 characters, each a C string of its own.
    method Exec(line: array<Byte>) returns (argv: seq<nat>)
      requires buf.Length == BUF_SIZE && line != buf && (line.Length >= BUF_SIZE || 0 in line[..])
      modifies buf
      ensures var t := Taken(line[..], 255);
              argv == Starts(t, 0, 16) &&
              forall k :: 0 <= k < |argv| ==> argv[k] < |t| && CString(buf[..], argv[k]) == Word(t, argv[k])
    {
      var end := Copy(line);
      ghost var t := Taken(line[..], buf.Length - 1);
      argv := Cuts(MAX_ARGS, t);
      forall k | 0 <= k < |argv| ensures argv[k] < |t| && CString(buf[..], argv[k]) == Word(t, argv[k]) {
        assert CutArg(buf[..], t, argv[k], |t|);
        CStringIs(buf[..], argv[k], Word(t, argv[k]));
      }
    }

    // The second half of a turn of the loop: end the word that starts at p.
    method EndWord(start: nat, ghost t: seq<Byte>, ghost done: seq<nat>, ghost from: nat) returns (p: nat)
      requires from <= start < |t| < buf.Length && 0 !in t && t[start] != SPACE
      requires buf[start..|t|] == t[start..] && buf[|t|] == 0 && Cut(buf[..], t, done, from)
      modifies buf
      ensures start < p <= |t| && buf[p..|t|] == t[p..] && buf[|t|] == 0
      ensures Cut(buf[..], t, done + [start], p)
      ensures forall n: nat :: n > 0 ==> Starts(t, start, n) == [start] + Starts(t, p, n - 1)
    {
      ghost var was := buf[..];
      p := SkipWord(start, t);
      if buf[p] != 0 {
        buf[p] := 0;
        p := p + 1;
      }
      CutOneMore(was, buf[..], t, done, from, start, p);
      assert buf[p..|t|] == was[start..|t|][p - start..];
      forall n: nat | n > 0 ensures Starts(t, start, n) == [start] + Starts(t, p, n - 1) {
        if RunEnd(t, start) < |t| { SkipOneSpace(t, RunEnd(t, start), n - 1); }
      }
    }

    // The tokenizer loop stands at offset p: the arguments so far are cut off, the text
    // from p on is as copied.
    ghost predicate Cutting(t: seq<Byte>, argv: seq<nat>, p: nat, limit: nat)
      reads buf
    {
      p <= |t| < buf.Length && 0 !in t && buf[p..|t|] == t[p..] && buf[|t|] == 0 && |argv| <= limit &&
      Starts(t, 0, limit) == argv + Starts(t, p, limit - |argv|) && Cut(buf[..], t, argv, p)
    }

    // One turn of the loop.
    method NextArg(start: nat, argv: seq<nat>, limit: nat, ghost t: seq<Byte>)
      returns (p: nat, args: seq<nat>, more: bool)
      requires Cutting(t, argv, start, limit) && |argv| < limit
      modifies buf
      ensures Cutting(t, args, p, limit) && (if more then p > start else buf[p] == 0)
    {
      p := SkipSpaces(start, t, limit - |argv|);
      assert buf[p..|t|] == buf[start..|t|][p - start..];
      args, more := argv, buf[p] != 0;
      if more {
        var word := p;
        p := EndWord(word, t, argv, start);
        args := argv + [word];
      } else {
        CutMoves(buf[..], t, argv, start, p);
      }
    }

    // The tokenizer loop on the copied text t.
    method Cuts(limit: nat, ghost t: seq<Byte>) returns (argv: seq<nat>)
      requires |t| < buf.Length && buf[..|t|] == t && buf[|t|] == 0 && 0 !in t
      modifies buf
      ensures argv == Starts(t, 0, limit)
      ensures Cut(buf[..], t, argv, |t|)
    {
      var p: nat, more := 0, true;
      argv := [];
      while buf[p] != 0 && |argv| < limit && more
        invariant Cutting(t, argv, p, limit)
        invariant more || buf[p] == 0
        decreases |t| - p, more
      {
        p, argv, more := NextArg(p, argv, limit, t);
      }
      assert p < |t| ==> buf[p] == buf[p..|t|][0] && t[p] in t;
      assert argv + [] == argv;
      CutMoves(buf[..], t, argv, p, |t|);
    }
  }

  lemma CutMoves(b: seq<Byte>, t: seq<Byte>, args: seq<nat>, p: nat, q: nat)
    requires Cut(b, t, args, p) && p <= q <= |t|
    ensures Cut(b, t, args, q)
  {
    forall k | 0 <= k < |args| ensures CutArg(b, t, args[k], q) {
      assert CutArg(b, t, args[k], p);
    }
  }

  // ------------------------------------------------------- which runs, and all of them

  lemma {:induction false} RunEndIsRun(t: seq<Byte>, i: nat)
    requires IsStart(t, i)
    ensures IsRun(t, i, RunEnd(t, i))
  {
  }

  // No run starts strictly inside a run.
  lemma NoStartInside(t: seq<Byte>, i: nat, j: nat)
    requires i < j <= |t| && j <= RunEnd(t, i)
    ensures !IsStart(t, j)
  {
  }

  ghost predicate Increasing(s: seq<nat>) {
    forall i, j :: 0 <= i < j < |s| ==> s[i] < s[j]
  }

  ghost predicate OrderedStarts(t: seq<Byte>, i: nat, s: seq<nat>) {
    Increasing(s) && forall k :: 0 <= k < |s| ==> i <= s[k] && IsStart(t, s[k])
  }

  lemma OrderedCons(t: seq<Byte>, i: nat, e: nat, rest: seq<nat>)
    requires IsStart(t, i) && i < e && OrderedStarts(t, e, rest)
    ensures OrderedStarts(t, i, [i] + rest)
  {
  }

  lemma {:induction false} StartsAreRuns(t: seq<Byte>, i: nat, n: nat)
    requires i <= |t| && (i == 0 || i == |t| || t[i] == SPACE || t[i - 1] == SPACE)
    ensures |Starts(t, i, n)| <= n && OrderedStarts(t, i, Starts(t, i, n))
    decreases |t| - i
  {
    if n > 0 && i < |t| {
      if t[i] == SPACE {
        StartsAreRuns(t, i + 1, n);
      } else {
        StartsAreRuns(t, RunEnd(t, i), n - 1);
        OrderedCons(t, i, RunEnd(t, i), Starts(t, RunEnd(t, i), n - 1));
      }
    }
  }

  lemma {:induction false} OtherStartsComeLater(t: seq<Byte>, i: nat, n: nat, j: nat)
    requires i <= j < |t| && IsStart(t, j) && j !in Starts(t, i, n)
    ensures |Starts(t, i, n)| == n && forall k :: 0 <= k < |Starts(t, i, n)| ==> Starts(t, i, n)[k] < j
    decreases |t| - i
  {
    if n > 0 {
      if t[i] == SPACE {
        OtherStartsComeLater(t, i + 1, n, j);
      } else {
        var s, e := Starts(t, i, n), RunEnd(t, i);
        assert s[0] == i && s[1..] == Starts(t, e, n - 1);
        if j < e { NoStartInside(t, i, j); }
        assert forall k :: 0 <= k < |s[1..]| ==> s[1..][k] == s[k + 1];
        OtherStartsComeLater(t, e, n - 1, j);
      }
    }
  }

  // The arguments are the first n maximal space-free runs in order, and all of them when
  // there are fewer than n.
  lemma StartsAreTheFirstRuns(t: seq<Byte>, n: nat)
    ensures var s := Starts(t, 0, n);
            |s| <= n && Increasing(s) &&
            (forall k :: 0 <= k < |s| ==> IsStart(t, s[k]) && IsRun(t, s[k], RunEnd(t, s[k]))) &&
            forall j :: IsStart(t, j) && j !in s ==> |s| == n && forall k :: 0 <= k < |s| ==> s[k] < j
  {
    var s := Starts(t, 0, n);
    StartsAreRuns(t, 0, n);
    forall k | 0 <= k < |s| ensures IsStart(t, s[k]) && IsRun(t, s[k], RunEnd(t, s[k])) {
      RunEndIsRun(t, s[k]);
    }
    forall j | IsStart(t, j) && j !in s ensures |s| == n && forall k :: 0 <= k < |s| ==> s[k] < j {
      OtherStartsComeLater(t, 0, n, j);
    }
  }

  // ------------------------------------------------------------------- round trip

  predicate IsWord(w: seq<Byte>) {
    w != [] && 32 !in w && 0 !in w
  }

  function Join(ws: seq<seq<Byte>>): seq<Byte> {
    if ws == [] then [] else if |ws| == 1 then ws[0] else ws[0] + [32] + Join(ws[1..])
  }

  function ArgsOf(t: seq<Byte>, starts: seq<nat>): seq<seq<Byte>>
    requires forall k :: 0 <= k < |starts| ==> starts[k] <= |t|
  {
    if starts == [] then [] else [Word(t, starts[0])] + ArgsOf(t, starts[1..])
  }

  lemma {:induction false} RunEndAt(t: seq<Byte>, i: nat, e: nat)
    requires i <= e <= |t| && (forall k :: i <= k < e ==> t[k] != SPACE) && (e < |t| ==> t[e] == SPACE)
    ensures RunEnd(t, i) == e
    decreases e - i
  {
    if i < e { RunEndAt(t, i + 1, e); }
  }

  // The first word of a joined text, and what follows it.
  lemma FirstWord(t: seq<Byte>, i: nat, ws: seq<seq<Byte>>)
    requires i <= |t| && t[i..] == Join(ws) && ws != [] && IsWord(ws[0])
    ensures var e := i + |ws[0]|;
            i < e <= |t| && t[i] != SPACE && RunEnd(t, i) == e && t[i..e] == ws[0] &&
            if |ws| == 1 then e == |t| else e < |t| && t[e] == SPACE && t[e + 1..] == Join(ws[1..])
  {
    var w, r := ws[0], t[i..];
    var e := i + |w|;
    assert r[..|w|] == w && t[i..e] == r[..|w|];
    forall k | i <= k < e ensures t[k] != SPACE { assert t[k] == w[k - i] && w[k - i] in w; }
    if |ws| > 1 {
      assert r[|w|] == SPACE && r[|w| + 1..] == Join(ws[1..]);
      assert t[e + 1..] == r[|w| + 1..];
    }
    RunEndAt(t, i, e);
  }

  // Tokenizing the tail of a text from its first word on.
  lemma {:induction false} JoinedWords(t: seq<Byte>, i: nat, ws: seq<seq<Byte>>, n: nat)
    requires i <= |t| && t[i..] == Join(ws) && |ws| <= n && forall k :: 0 <= k < |ws| ==> IsWord(ws[k])
    ensures var s := Starts(t, i, n);
            (forall k :: 0 <= k < |s| ==> s[k] <= |t|) && ArgsOf(t, s) == ws
    decreases |ws|, 1
  {
    if |ws| == 1 {
      FirstWord(t, i, ws);
      JoinedStep(t, i, ws, n);
    } else if |ws| > 1 {
      FirstWord(t, i, ws);
      JoinedTail(t, i, ws, n);
      JoinedStep(t, i, ws, n);
    }
  }

  lemma JoinedTail(t: seq<Byte>, i: nat, ws: seq<seq<Byte>>, n: nat)
    requires 1 < |ws| <= n && forall k :: 0 <= k < |ws| ==> IsWord(ws[k])
    requires i < |t| && RunEnd(t, i) < |t| && t[RunEnd(t, i)] == SPACE && t[RunEnd(t, i) + 1..] == Join(ws[1..])
    ensures var s := Starts(t, RunEnd(t, i), n - 1);
            (forall k :: 0 <= k < |s| ==> s[k] <= |t|) && ArgsOf(t, s) == ws[1..]
    decreases |ws|, 0
  {
    JoinedWords(t, RunEnd(t, i) + 1, ws[1..], n - 1);
    SkipOneSpace(t, RunEnd(t, i), n - 1);
  }

  lemma JoinedStep(t: seq<Byte>, i: nat, ws: seq<seq<Byte>>, n: nat)
    requires i < |t| && t[i] != SPACE && ws != [] && n > 0 && Word(t, i) == ws[0]
    requires var rest := Starts(t, RunEnd(t, i), n - 1);
             (forall k :: 0 <= k < |rest| ==> rest[k] <= |t|) && ArgsOf(t, rest) == ws[1..]
    ensures var s := Starts(t, i, n);
            (forall k :: 0 <= k < |s| ==> s[k] <= |t|) && ArgsOf(t, s) == ws
  {
    var s, rest := Starts(t, i, n), Starts(t, RunEnd(t, i), n - 1);
    assert s == [i] + rest && s[1..] == rest;
  }

  lemma SkipOneSpace(t: seq<Byte>, e: nat, n: nat)
    requires e < |t| && t[e] == SPACE
    ensures Starts(t, e, n) == Starts(t, e + 1, n)
  {
  }

  lemma {:induction false} JoinHasNoNul(ws: seq<seq<Byte>>)
    requires forall k :: 0 <= k < |ws| ==> IsWord(ws[k])
    ensures 0 !in Join(ws)
  {
    if |ws| > 1 { JoinHasNoNul(ws[1..]); }
  }

  lemma TakenWhole(line: seq<Byte>, n: nat, t: seq<Byte>)
    requires t <= line && |t| <= n && 0 !in t && (|t| < |line| ==> line[|t|] == 0 || |t| == n)
    ensures Taken(line, n) == t
  {
    NoNulInside(line, t);
    NoNulInside(line, Taken(line, n));
  }

  // ------------------------------------------------------------- what a line comes to

  lemma StartsInside(t: seq<Byte>, n: nat)
    ensures forall k :: 0 <= k < |Starts(t, 0, n)| ==> Starts(t, 0, n)[k] <= |t|
  {
    StartsAreRuns(t, 0, n);
    forall k | 0 <= k < |Starts(t, 0, n)| ensures Starts(t, 0, n)[k] <= |t| {
      assert IsStart(t, Starts(t, 0, n)[k]);
    }
  }

  // The words shell_exec makes of a command line.
  function Arguments(line: seq<Byte>): seq<seq<Byte>> {
    var t := Taken(line, 255);
    StartsInside(t, 16);
    ArgsOf(t, Starts(t, 0, 16))
  }

  // Up to 16 words without spaces or NULs, joined by spaces into at most 255 characters
  // and NUL-terminated, come back as the arguments.
  lemma TokenizeUndoesJoin(ws: seq<seq<Byte>>, line: seq<Byte>)
    requires |ws| <= 16 && |Join(ws)| <= 255 && forall k :: 0 <= k < |ws| ==> IsWord(ws[k])
    requires Join(ws) + [0] <= line
    ensures Arguments(line) == ws
  {
    var t := Join(ws);
    JoinHasNoNul(ws);
    assert line[|t|] == (t + [0])[|t|] == 0;
    TakenWhole(line, BUF_SIZE - 1, t);
    assert t[0..] == t;
    JoinedWords(t, 0, ws, MAX_ARGS);
  }

  // What stands behind the first NUL of the line does not matter.
  lemma TakenUpToNul(line: seq<Byte>, typed: seq<Byte>, n: nat)
    requires typed + [0] <= line
    ensures Taken(line, n) == Taken(typed, n)
  {
    var t := Taken(typed, n);
    assert t <= line by { assert typed <= line; }
    assert line[|typed|] == 0;
    assert |t| < |typed| ==> line[|t|] == typed[|t|];
    TakenWhole(line, n, t);
  }

  // The whole line is taken exactly when it holds no NUL and fits the buffer.
  lemma WholeLineIff(typed: seq<Byte>)
    ensures Taken(typed, 255) == typed <==> 0 !in typed && |typed| <= 255
  {
    if 0 !in typed && |typed| <= BUF_SIZE - 1 { TakenWhole(typed, BUF_SIZE - 1, typed); }
  }

  // The strings at these offsets of the buffer.
  function StringsAt(b: seq<Byte>, argv: seq<nat>): seq<seq<Byte>>
    requires forall k :: 0 <= k < |argv| ==> argv[k] <= |b|
  {
    if argv == [] then [] else [CString(b, argv[0])] + StringsAt(b, argv[1..])
  }

  lemma {:induction false} StringsAreArgs(b: seq<Byte>, t: seq<Byte>, argv: seq<nat>)
    requires forall k :: 0 <= k < |argv| ==> argv[k] <= |t| && argv[k] <= |b|
    requires forall k :: 0 <= k < |argv| ==> CString(b, argv[k]) == Word(t, argv[k])
    ensures StringsAt(b, argv) == ArgsOf(t, argv)
  {
    if argv != [] { StringsAreArgs(b, t, argv[1..]); }
  }

  // shell_exec on a NUL-terminated line: the strings shell_exec_args receives are its words.
  method ExecLine(shell: Tokenizer, line: array<Byte>, ghost typed: seq<Byte>) returns (args: seq<seq<Byte>>)
    requires shell.buf.Length == BUF_SIZE && line != shell.buf && typed + [0] <= line[..]
    modifies shell.buf
    ensures args == Arguments(typed)
  {
    assert line[..][|typed|] == (typed + [0])[|typed|] == 0;
    ghost var was := line[..];
    var argv := shell.Exec(line);
    TakenUpToNul(was, typed, BUF_SIZE - 1);
    StringsAreArgs(shell.buf[..], Taken(typed, BUF_SIZE - 1), argv);
    args := StringsAt(shell.buf[..], argv);
  }
}
