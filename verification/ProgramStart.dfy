/** Starting a program from the shell (src/kernel/shell.c): the command line, the argument block on the user stack, the flat-binary header. */
module ProgramStart {
  import opened Bytes
  import opened Options

  const MAX_ARGS := 16
  const USER_STACK := 0x7FF000
  const FLAT_BASE := 0x680000
  const FLAT_MAX := 0x10000
  const SPACE: byte := 32

  // ---------------------------------------------------------------- the argument block

  /** What a program reads through a `char *`: `base` is the address of the first byte of `m`. */
  function ReadString(m: seq<byte>, base: nat, p: nat): seq<byte> {
    if base <= p <= base + |m| then CString(m[p - base..]) else []
  }

  function ReadWord(m: seq<byte>, base: nat, p: nat): int {
    if base <= p && p - base + 4 <= |m| then ReadLe32(m, p - base) else -1
  }

  /** The arguments a C `_start(argc, argv)` sees when entered with this stack pointer. */
  function ReadArgs(m: seq<byte>, base: nat, argv: nat, argc: nat): seq<seq<byte>>
  {
    if argc == 0 then [] else
    ReadArgs(m, base, argv, argc - 1) + [ReadString(m, base, NatOr0(ReadWord(m, base, argv + 4 * (argc - 1))))]
  }

  function NatOr0(x: int): nat {
    if x < 0 then 0 else x
  }

  /** Nothing at or above this index has changed. */
  predicate SameFrom(a: seq<byte>, b: seq<byte>, low: nat) {
    |a| == |b| && forall k :: low <= k < |a| ==> a[k] == b[k]
  }

  lemma StringKept(a: seq<byte>, b: seq<byte>, low: nat, at: int, s: seq<byte>)
    requires SameFrom(a, b, low) && low <= at && Holds(a, at, s)
    ensures Holds(b, at, s)
  {
    assert b[at..at + |s| + 1] == a[at..at + |s| + 1];
  }

  lemma WordKept(a: seq<byte>, b: seq<byte>, low: nat, at: int)
    requires SameFrom(a, b, low) && low <= at && at + 4 <= |a|
    ensures ReadLe32(b, at) == ReadLe32(a, at)
  {
  }

  lemma StringReads(m: seq<byte>, base: nat, at: nat, s: seq<byte>)
    requires Holds(m, at, s) && IsCString(s)
    ensures ReadString(m, base, base + at) == s
  {
    HoldsReads(m, at, s);
  }

  /** How many bytes the strings take with their NULs. */
  function Total(argv: seq<seq<byte>>): nat {
    if argv == [] then 0 else Total(argv[..|argv| - 1]) + |argv[|argv| - 1]| + 1
  }

  function Clamped(argv: seq<seq<byte>>): seq<seq<byte>> {
    if |argv| > MAX_ARGS then argv[..MAX_ARGS] else argv
  }

  /** Only the four bytes at `at` differ. */
  predicate SameBut(a: seq<byte>, b: seq<byte>, at: nat, n: nat) {
    |a| == |b| && forall k :: 0 <= k < |a| && !(at <= k < at + n) ==> a[k] == b[k]
  }

  lemma WordElsewhere(a: seq<byte>, b: seq<byte>, at: nat, n: nat, p: nat)
    requires SameBut(a, b, at, n) && p + 4 <= |a| && (p + 4 <= at || at + n <= p)
    ensures ReadLe32(b, p) == ReadLe32(a, p)
  {
  }

  /** `*(unsigned int *)p = x`. */
  method StoreWord(m: array<byte>, at: nat, x: u32)
    requires at + 4 <= m.Length
    modifies m
    ensures ReadLe32(m[..], at) == x && SameBut(old(m[..]), m[..], at, 4)
  {
    var bytes := Le32(x);
    m[at] := bytes[0];
    m[at + 1] := bytes[1];
    m[at + 2] := bytes[2];
    m[at + 3] := bytes[3];
    assert m[..][at..at + 4] == bytes;
    ReadLe32OfLe32(m[..], at, x);
  }

  /** One argument string, copied with its NUL. */
  method CopyString(m: array<byte>, at: nat, s: seq<byte>)
    requires at + |s| + 1 <= m.Length
    modifies m
    ensures Holds(m[..], at, s) && SameBut(old(m[..]), m[..], at, |s| + 1)
  {
    var j := 0;
    while j < |s| + 1
      invariant 0 <= j <= |s| + 1
      invariant forall k :: 0 <= k < j ==> m[at + k] == (s + [0])[k]
      invariant forall k :: 0 <= k < m.Length && !(at <= k < at + j) ==> m[k] == old(m[k])
    {
      m[at + j] := if j < |s| then s[j] else 0;
      j := j + 1;
    }
    assert m[at..at + |s| + 1] == s + [0];
  }

  /** All strings stand above `low`, and the pointers say where. */
  predicate StringsPlaced(m: seq<byte>, base: nat, low: nat, argv: seq<seq<byte>>, ptrs: seq<u32>, n: nat) {
    n <= |argv| && n <= |ptrs|
    && forall k :: 0 <= k < n ==> ptrs[k] >= base + low && Holds(m, ptrs[k] - base, argv[k])
  }

  predicate WordAt(m: seq<byte>, at: nat, x: int) {
    at + 4 <= |m| && ReadLe32(m, at) == x
  }

  predicate PointersPlaced(m: seq<byte>, at: nat, ptrs: seq<u32>, n: nat) {
    n <= |ptrs| && forall k {:trigger ptrs[k]} :: 0 <= k < n ==> WordAt(m, at + 4 * k, ptrs[k])
  }

  /** A block that ends at USER_STACK and has room for the strings, the pointers and the entry frame. */
  predicate Room(m: array<byte>, base: nat, argv: seq<seq<byte>>) {
    base + m.Length == USER_STACK && Total(Clamped(argv)) + 4 * |Clamped(argv)| + 24 <= m.Length
  }

  /** The stack the program is entered with. */
  predicate EntryFrame(m: seq<byte>, base: nat, sp: nat, args: seq<seq<byte>>) {
    && base <= sp && sp % 4 == 0
    && ReadWord(m, base, sp) == 0 && ReadWord(m, base, sp + 4) == |args|
    && var argv := ReadWord(m, base, sp + 8);
       argv >= sp + 16 && ReadArgs(m, base, argv, |args|) == args
       && ReadWord(m, base, argv + 4 * |args|) == 0 && ReadWord(m, base, argv - 4) == 0
  }

  /** build_user_args: a program entered with the returned stack pointer finds exactly the given arguments, at most sixteen. */
  method BuildUserArgs(m: array<byte>, base: nat, argv: seq<seq<byte>>) returns (sp: nat)
    requires base % 4 == 0 && Room(m, base, argv) && forall i :: 0 <= i < |argv| ==> IsCString(argv[i])
    modifies m
    ensures EntryFrame(m[..], base, sp, Clamped(argv))
    ensures base <= sp <= USER_STACK && forall k :: 0 <= k < sp - base ==> m[k] == old(m[k])
  {
    hide ReadLe32, Le32, Total, ReadArgs, IsCString, StringsPlaced, PointersPlaced;
    var args := Clamped(argv);
    var ptrs;
    sp, ptrs := PlaceStrings(m, base, args);
    ghost var low := sp - base;
    ghost var strings := m[..];
    sp := sp - sp % 4;
    sp := sp - (|args| + 1) * 4;
    var argvPtr := sp;
    PlacePointers(m, sp - base, ptrs + [0]);
    StringsKept(strings, m[..], base, low, args, ptrs);
    ghost var pointers := m[..];
    sp := sp - 4;
    StoreWord(m, sp - base, 0);
    ghost var env := m[..];
    sp := sp - 12;
    StoreFrame(m, sp - base, |args|, argvPtr);
    WordElsewhere(env, m[..], sp - base, 12, sp + 12 - base);
    StringsKept(pointers, m[..], base, low, args, ptrs);
    PointersKept(pointers, m[..], argvPtr - base, ptrs + [0]);
    ArgsRead(m[..], base, low, args, ptrs, argvPtr, |args|);
    LastPointer(m[..], argvPtr - base, ptrs);
  }

  /** The strings, from the top of the stack down. */
  method PlaceStrings(m: array<byte>, base: nat, args: seq<seq<byte>>) returns (sp: nat, ptrs: seq<u32>)
    requires base + m.Length == USER_STACK && Total(args) <= m.Length
    modifies m
    ensures sp == USER_STACK - Total(args) && base <= sp && |ptrs| == |args|
    ensures StringsPlaced(m[..], base, sp - base, args, ptrs, |args|)
    ensures forall k :: 0 <= k < sp - base ==> m[k] == old(m[k])
  {
    hide Total;
    sp := USER_STACK;
    ptrs := [];
    NoTotal(args);
    var i := 0;
    while i < |args|
      invariant 0 <= i <= |args| == i + |args| - i && |ptrs| == i && sp == USER_STACK - Total(args[..i]) && base <= sp
      invariant StringsPlaced(m[..], base, sp - base, args, ptrs, i)
      invariant forall k :: 0 <= k < sp - base ==> m[k] == old(m[k])
    {
      TotalStep(args, i);
      ghost var before, above := m[..], sp - base;
      sp := sp - (|args[i]| + 1);
      CopyString(m, sp - base, args[i]);
      StringsGrow(before, m[..], base, sp - base, above, args, ptrs, i);
      ptrs := ptrs + [sp];
      i := i + 1;
    }
    assert args[..i] == args;
  }

  lemma NoTotal(args: seq<seq<byte>>)
    ensures Total(args[..0]) == 0
  {
  }

  /** The rest of the strings fits below. */
  lemma {:induction false} TotalStep(args: seq<seq<byte>>, i: nat)
    requires i < |args|
    ensures Total(args[..i + 1]) == Total(args[..i]) + |args[i]| + 1 && Total(args[..i + 1]) <= Total(args)
    decreases |args| - i
  {
    assert args[..i + 1][..i] == args[..i];
    if i + 1 < |args| {
      TotalStep(args, i + 1);
    } else {
      assert args[..i + 1] == args;
    }
  }

  lemma StringsGrow(a: seq<byte>, b: seq<byte>, base: nat, low: nat, above: nat, args: seq<seq<byte>>, ptrs: seq<u32>, i: nat)
    requires i < |args| && |ptrs| == i && StringsPlaced(a, base, above, args, ptrs, i) && above == low + |args[i]| + 1
    requires SameBut(a, b, low, |args[i]| + 1) && Holds(b, low, args[i]) && base + low < TWO32
    ensures StringsPlaced(b, base, low, args, ptrs + [base + low], i + 1)
  {
    hide Holds;
    forall k | 0 <= k < i ensures ptrs[k] >= base + low && Holds(b, ptrs[k] - base, args[k]) {
      StringKept(a, b, above, ptrs[k] - base, args[k]);
    }
  }

  lemma StringsKept(a: seq<byte>, b: seq<byte>, base: nat, low: nat, args: seq<seq<byte>>, ptrs: seq<u32>)
    requires StringsPlaced(a, base, low, args, ptrs, |args|) && SameFrom(a, b, low)
    ensures StringsPlaced(b, base, low, args, ptrs, |args|)
  {
    hide Holds;
    forall k | 0 <= k < |args| ensures Holds(b, ptrs[k] - base, args[k]) {
      StringKept(a, b, low, ptrs[k] - base, args[k]);
    }
  }

  /** The pointer array, upwards. */
  method PlacePointers(m: array<byte>, at: nat, ptrs: seq<u32>)
    requires at + 4 * |ptrs| <= m.Length
    modifies m
    ensures PointersPlaced(m[..], at, ptrs, |ptrs|) && SameBut(old(m[..]), m[..], at, 4 * |ptrs|)
  {
    hide ReadLe32;
    var i := 0;
    while i < |ptrs|
      invariant 0 <= i <= |ptrs| && PointersPlaced(m[..], at, ptrs, i) && SameBut(old(m[..]), m[..], at, 4 * |ptrs|)
    {
      ghost var before := m[..];
      StoreWord(m, at + 4 * i, ptrs[i]);
      forall k | 0 <= k < i ensures WordAt(m[..], at + 4 * k, ptrs[k]) {
        WordElsewhere(before, m[..], at + 4 * i, 4, at + 4 * k);
      }
      i := i + 1;
    }
  }

  lemma PointersKept(a: seq<byte>, b: seq<byte>, at: nat, ptrs: seq<u32>)
    requires PointersPlaced(a, at, ptrs, |ptrs|) && SameFrom(a, b, at)
    ensures PointersPlaced(b, at, ptrs, |ptrs|)
  {
    hide ReadLe32;
    forall k | 0 <= k < |ptrs| ensures WordAt(b, at + 4 * k, ptrs[k]) {
      assert WordAt(a, at + 4 * k, ptrs[k]);
      WordKept(a, b, at, at + 4 * k);
    }
  }

  lemma LastPointer(m: seq<byte>, at: nat, ptrs: seq<u32>)
    requires PointersPlaced(m, at, ptrs + [0], |ptrs| + 1)
    ensures at + 4 * |ptrs| + 4 <= |m| && ReadLe32(m, at + 4 * |ptrs|) == 0
  {
    assert (ptrs + [0])[|ptrs|] == 0;
  }

  /** The entry frame: a return address, argc and argv. */
  method StoreFrame(m: array<byte>, at: nat, argc: u32, argv: u32)
    requires at + 12 <= m.Length
    modifies m
    ensures ReadLe32(m[..], at) == 0 && ReadLe32(m[..], at + 4) == argc && ReadLe32(m[..], at + 8) == argv
    ensures SameBut(old(m[..]), m[..], at, 12)
  {
    hide ReadLe32;
    StoreWord(m, at, 0);
    ghost var one := m[..];
    StoreWord(m, at + 4, argc);
    ghost var two := m[..];
    WordElsewhere(one, two, at + 4, 4, at);
    StoreWord(m, at + 8, argv);
    WordElsewhere(two, m[..], at + 8, 4, at);
    WordElsewhere(two, m[..], at + 8, 4, at + 4);
  }

  /** Following the pointers gives the strings back. */
  lemma {:induction false} ArgsRead(m: seq<byte>, base: nat, low: nat, args: seq<seq<byte>>, ptrs: seq<u32>, argv: nat, n: nat)
    requires base <= argv && PointersPlaced(m, argv - base, ptrs + [0], |ptrs| + 1)
    requires StringsPlaced(m, base, low, args, ptrs, |args|)
    requires |ptrs| == |args| && n <= |args| && forall i :: 0 <= i < |args| ==> IsCString(args[i])
    ensures ReadArgs(m, base, argv, n) == args[..n]
  {
    hide ReadLe32, IsCString, ReadString;
    if n > 0 {
      ArgsRead(m, base, low, args, ptrs, argv, n - 1);
      assert (ptrs + [0])[n - 1] == ptrs[n - 1];
      StringReads(m, base, ptrs[n - 1] - base, args[n - 1]);
      assert args[..n] == args[..n - 1] + [args[n - 1]];
    }
  }

  // ---------------------------------------------------------------- the command line

  /** The words of a line, cut at spaces. */
  function Words(s: seq<byte>): seq<seq<byte>>
    decreases |s|
  {
    if s == [] then []
    else if s[0] == SPACE then Words(s[1..])
    else [s[..WordEnd(s)]] + Words(s[WordEnd(s)..])
  }

  function WordEnd(s: seq<byte>): (e: nat)
    ensures e <= |s| && (s != [] && s[0] != SPACE ==> e > 0)
    ensures forall k :: 0 <= k < e ==> s[k] != SPACE
    ensures e < |s| ==> s[e] == SPACE
  {
    if s == [] || s[0] == SPACE then 0 else 1 + WordEnd(s[1..])
  }

  lemma WordEndIs(s: seq<byte>, e: nat)
    requires e <= |s| && (forall k :: 0 <= k < e ==> s[k] != SPACE) && (e < |s| ==> s[e] == SPACE)
    ensures WordEnd(s) == e
  {
    var d := WordEnd(s);
    assert d < |s| ==> s[d] == SPACE;
  }

  lemma {:induction false} SkipSpaces(s: seq<byte>, n: nat)
    requires n <= |s| && forall k :: 0 <= k < n ==> s[k] == SPACE
    ensures Words(s) == Words(s[n..])
    decreases n
  {
    if n > 0 {
      SkipSpaces(s[1..], n - 1);
      assert s[1..][n - 1..] == s[n..];
    }
  }

  /** Words found so far, each ended by a NUL before position `p`. */
  predicate WordsFound(line: seq<byte>, argv: seq<nat>, words: seq<seq<byte>>, p: nat) {
    |argv| <= |words|
    && forall k {:trigger argv[k]} :: 0 <= k < |argv| ==> argv[k] + |words[k]| < p && Holds(line, argv[k], words[k])
  }

  lemma WordsKept(a: seq<byte>, b: seq<byte>, argv: seq<nat>, words: seq<seq<byte>>, p: nat, q: nat)
    requires WordsFound(a, argv, words, p) && |a| == |b| && p <= q && forall k :: 0 <= k < p && k < |a| ==> a[k] == b[k]
    ensures WordsFound(b, argv, words, q)
  {
    forall k | 0 <= k < |argv| ensures Holds(b, argv[k], words[k]) {
      assert b[argv[k]..argv[k] + |words[k]| + 1] == a[argv[k]..argv[k] + |words[k]| + 1];
    }
  }

  /** parse_line cuts the line in place: argument k is word k, and at most sixteen are taken. */
  method ParseLine(line: array<byte>, ghost s: seq<byte>) returns (argv: seq<nat>)
    requires |s| + 1 <= line.Length && line[..|s| + 1] == s + [0] && IsCString(s)
    modifies line
    ensures |argv| == |Clamped(Words(s))|
    ensures forall k {:trigger argv[k]} :: 0 <= k < |argv| ==> Holds(line[..], argv[k], Words(s)[k])
  {
    hide Words, WordEnd, Holds, WordsFound;
    ghost var n := |s|;
    NoneFound(line[..], n);
    argv := [];
    var p := 0;
    ghost var done: seq<seq<byte>> := [];
    assert s[0..] == s;
    while line[p] != 0 && |argv| < MAX_ARGS
      invariant 0 <= p <= n && |done| == |argv| <= MAX_ARGS && done + Words(s[p..]) == Words(s)
      invariant forall k :: p <= k < n ==> line[k] == s[k]
      invariant line[n] == 0 && WordsFound(line[..], argv, done, p + if p == n then 1 else 0)
      decreases n - p, MAX_ARGS - |argv|
    {
      ghost var from := p;
      p := SkipBlanks(line, s, p);
      SkipSpacesFrom(s, from, p);
      if line[p] == 0 {
        WordsKept(line[..], line[..], argv, done, from, p + 1);
        break;
      }
      var start := p;
      p := SkipWord(line, s, p);
      ghost var word := s[start..p];
      NextWord(s, start, p);
      ghost var before := line[..];
      ghost var end := p;
      if line[p] != 0 {
        line[p] := 0;
        p := p + 1;
        SpaceGone(s, end);
      }
      WordsKept(before, line[..], argv, done, from, end + 1);
      WordStored(line[..], s, start, end);
      FoundOneMore(line[..], argv, done, word, start, end + 1);
      argv := argv + [start];
      assert done + [word] + Words(s[p..]) == done + ([word] + Words(s[p..]));
      done := done + [word];
      WordsKept(line[..], line[..], argv, done, end + 1, p + if p == n then 1 else 0);
    }
    Counted(s, p, done);
    Found(line[..], argv, done);
  }

  /** The rest of the line is still the rest of the string. */
  predicate RestIs(line: seq<byte>, s: seq<byte>, p: nat) {
    p <= |s| < |line| && line[|s|] == 0 && forall k :: p <= k < |s| ==> line[k] == s[k]
  }

  method SkipBlanks(line: array<byte>, ghost s: seq<byte>, from: nat) returns (p: nat)
    requires IsCString(s) && RestIs(line[..], s, from)
    ensures from <= p <= |s| && line[p] != SPACE && forall k :: from <= k < p ==> s[k] == SPACE
  {
    p := from;
    while line[p] == SPACE
      invariant from <= p <= |s| && forall k :: from <= k < p ==> s[k] == SPACE
      decreases |s| - p
    {
      p := p + 1;
    }
  }

  method SkipWord(line: array<byte>, ghost s: seq<byte>, from: nat) returns (p: nat)
    requires IsCString(s) && RestIs(line[..], s, from) && line[from] != 0 && line[from] != SPACE
    ensures from < p <= |s| && (line[p] == 0 || line[p] == SPACE) && forall k :: from <= k < p ==> s[k] != SPACE
  {
    p := from;
    while line[p] != 0 && line[p] != SPACE
      invariant from <= p <= |s| && (p == from ==> line[p] != 0 && line[p] != SPACE)
      invariant forall k :: from <= k < p ==> s[k] != SPACE
      decreases |s| - p
    {
      p := p + 1;
    }
  }

  lemma NoneFound(line: seq<byte>, n: nat)
    ensures forall p :: WordsFound(line, [], [], p)
  {
  }

  lemma Found(line: seq<byte>, argv: seq<nat>, words: seq<seq<byte>>)
    requires exists p :: WordsFound(line, argv, words, p)
    ensures |argv| <= |words| && forall k {:trigger argv[k]} :: 0 <= k < |argv| ==> Holds(line, argv[k], words[k])
  {
  }

  lemma SkipSpacesFrom(s: seq<byte>, from: nat, p: nat)
    requires from <= p <= |s| && forall k :: from <= k < p ==> s[k] == SPACE
    ensures Words(s[from..]) == Words(s[p..])
  {
    SkipSpaces(s[from..], p - from);
    assert s[from..][p - from..] == s[p..];
  }

  lemma NextWord(s: seq<byte>, start: nat, p: nat)
    requires start < p <= |s| && (forall k :: start <= k < p ==> s[k] != SPACE) && (p < |s| ==> s[p] == SPACE)
    ensures Words(s[start..]) == [s[start..p]] + Words(s[p..])
  {
    var t := s[start..];
    WordEndIs(t, p - start);
    assert t[..p - start] == s[start..p] && t[p - start..] == s[p..];
  }

  lemma SpaceGone(s: seq<byte>, e: nat)
    requires e < |s| && s[e] == SPACE
    ensures Words(s[e..]) == Words(s[e + 1..])
  {
    SkipSpacesFrom(s, e, e + 1);
  }

  lemma WordStored(line: seq<byte>, s: seq<byte>, start: nat, end: nat)
    requires start <= end <= |s| && end < |line| && line[end] == 0 && forall k :: start <= k < end ==> line[k] == s[k]
    ensures Holds(line, start, s[start..end])
  {
  }

  lemma FoundOneMore(line: seq<byte>, argv: seq<nat>, words: seq<seq<byte>>, word: seq<byte>, start: nat, q: nat)
    requires WordsFound(line, argv, words, q) && |argv| == |words| && Holds(line, start, word) && start + |word| < q
    ensures WordsFound(line, argv + [start], words + [word], q)
  {
    hide Holds;
  }

  lemma Counted(s: seq<byte>, p: nat, done: seq<seq<byte>>)
    requires p <= |s| && done + Words(s[p..]) == Words(s) && |done| <= MAX_ARGS && (p == |s| || |done| == MAX_ARGS)
    ensures |done| == |Clamped(Words(s))| && forall k :: 0 <= k < |done| ==> done[k] == Words(s)[k]
  {
    assert p == |s| ==> s[p..] == [];
  }

  lemma {:induction false} WordsAreStrings(s: seq<byte>)
    requires IsCString(s)
    ensures forall k :: 0 <= k < |Words(s)| ==> IsCString(Words(s)[k])
    decreases |s|
  {
    if s != [] {
      var e := if s[0] == SPACE then 1 else WordEnd(s);
      WordsAreStrings(s[e..]);
    }
  }

  /** The words with their NULs take no more than the line with its own. */
  lemma {:induction false} WordsFit(s: seq<byte>)
    ensures Total(Words(s)) <= |s| + 1
    decreases |s|
  {
    if s != [] && s[0] == SPACE {
      WordsFit(s[1..]);
    } else if s != [] {
      var e := WordEnd(s);
      TotalCons(s[..e], Words(s[e..]));
      if e < |s| {
        SkipSpacesFrom(s, e, e + 1);
        WordsFit(s[e + 1..]);
      }
    }
  }

  lemma {:induction false} TotalCons(w: seq<byte>, rest: seq<seq<byte>>)
    ensures Total([w] + rest) == |w| + 1 + Total(rest)
    decreases rest
  {
    var all := [w] + rest;
    if rest == [] {
      assert all[..0] == [];
    } else {
      TotalCons(w, rest[..|rest| - 1]);
      assert all[..|all| - 1] == [w] + rest[..|rest| - 1];
    }
  }

  lemma ClampedFits(argv: seq<seq<byte>>)
    ensures Total(Clamped(argv)) <= Total(argv) && Clamped(Clamped(argv)) == Clamped(argv)
  {
    if |argv| > MAX_ARGS {
      TotalStep(argv, MAX_ARGS - 1);
    }
  }

  /** "run" and ">". */
  const RUN: seq<byte> := [114, 117, 110]
  const REDIRECT: seq<byte> := [62]

  /** The lines that reach shell_run_program: the command is run, a file is named and no word asks for redirection. */
  predicate ReachesLoader(words: seq<seq<byte>>) {
    |words| >= 2 && words[0] == RUN && forall k :: 1 <= k < |words| ==> words[k] != REDIRECT
  }

  lemma RestFits(argv: seq<seq<byte>>)
    requires argv != []
    ensures Total(argv[1..]) <= Total(argv)
  {
    TotalCons(argv[0], argv[1..]);
    assert [argv[0]] + argv[1..] == argv;
  }

  /** parse_line as `execute` sees it: the words as strings. */
  method LineWords(line: array<byte>, ghost s: seq<byte>) returns (words: seq<seq<byte>>)
    requires |s| + 1 <= line.Length && line[..|s| + 1] == s + [0] && IsCString(s)
    modifies line
    ensures words == Clamped(Words(s))
  {
    hide Words, IsCString, Holds;
    WordsAreStrings(s);
    var argv := ParseLine(line, s);
    ghost var cut := line[..];
    words := [];
    var i := 0;
    while i < |argv|
      invariant 0 <= i <= |argv| && |words| == i && forall k :: 0 <= k < i ==> words[k] == Words(s)[k]
      invariant line[..] == cut
      modifies {}
    {
      HoldsReads(cut, argv[i], Words(s)[i]);
      words := words + [CString(line[..][argv[i]..])];
      i := i + 1;
    }
    assert words == Clamped(Words(s));
  }

  /** execute and cmd_run, as far as the argument block: the program gets the words after the command, its own name first. */
  method Execute(line: array<byte>, ghost s: seq<byte>, m: array<byte>, base: nat) returns (sp: Option<nat>)
    requires |s| + 1 <= line.Length && line[..|s| + 1] == s + [0] && IsCString(s)
    requires line != m && base % 4 == 0 && base + m.Length == USER_STACK && |s| + 4 * MAX_ARGS + 25 <= m.Length
    modifies line, m
    ensures sp.Some? <==> ReachesLoader(Clamped(Words(s)))
    ensures sp.Some? ==> EntryFrame(m[..], base, sp.value, Clamped(Words(s))[1..])
    ensures sp.None? ==> m[..] == old(m[..])
  {
    hide Words, EntryFrame, Total, IsCString, Holds;
    WordsAreStrings(s);
    WordsFit(s);
    ClampedFits(Words(s));
    var words := LineWords(line, s);
    if words == [] {
      return None;
    }
    RestFits(words);
    var i := 1;
    while i < |words|
      invariant 1 <= i <= |words| && forall k :: 1 <= k < i ==> words[k] != REDIRECT
    {
      if words[i] == REDIRECT {
        return None;
      }
      i := i + 1;
    }
    if words[0] != RUN || |words| < 2 {
      return None;
    }
    var top := BuildUserArgs(m, base, words[1..]);
    sp := Some(top);
  }

  // ---------------------------------------------------------------- flat binaries

  /** "LUNB". */
  const MAGIC: seq<byte> := [76, 85, 78, 66]

  /** Magic, size and entry offset in front of the image. */
  function FlatFile(image: seq<byte>, entry: u32): (file: seq<byte>)
    requires |image| + 12 <= FLAT_MAX
    ensures |file| == |image| + 12
  {
    MAGIC + Le32(|image|) + Le32(entry) + image
  }

  /** The header and the image, or nothing when that does not fit a writable file. */
  method WriteFlat(image: seq<byte>, entry: u32) returns (file: seq<byte>)
    ensures file == if |image| + 12 > FLAT_MAX then [] else FlatFile(image, entry)
  {
    if |image| + 12 > FLAT_MAX {
      return [];
    }
    file := MAGIC + Le32(|image|) + Le32(entry) + image;
  }

  /** How the loader of shell_run_program takes a file: as a flat image with its entry address, as a plain program, or not at all. */
  datatype Loaded = Flat(image: seq<byte>, entry: nat) | Plain | Bad

  method LoadFlat(file: seq<byte>) returns (r: Loaded)
    requires |file| < 0x8000_0000
    ensures r.Flat? <==> |file| >= 12 && file[..4] == MAGIC && HeaderOk(file, ReadLe32(file, 4), ReadLe32(file, 8))
    ensures r.Flat? ==> r.image == file[12..12 + ReadLe32(file, 4)] && r.entry == FLAT_BASE + ReadLe32(file, 8)
    ensures r.Plain? <==> |file| < 12 || file[..4] != MAGIC
  {
    hide ReadLe32;
    if |file| >= 12 && file[..4] == MAGIC {
      var fsize, fentry := ReadLe32(file, 4), ReadLe32(file, 8);
      if fsize > |file| - 12 || (fsize + 12) % TWO32 > FLAT_MAX || (FLAT_BASE + fsize) % TWO32 > USER_STACK || fentry >= fsize {
        return Bad;
      }
      return Flat(file[12..12 + fsize], FLAT_BASE + fentry);
    }
    return Plain;
  }

  /** The image is all there, fits between the flat base and the stack, and holds its entry point. */
  predicate HeaderOk(file: seq<byte>, fsize: nat, fentry: nat) {
    12 + fsize <= |file| && fsize + 12 <= FLAT_MAX && FLAT_BASE + fsize <= USER_STACK && fentry < fsize
  }

  /** What tcc writes is taken back as the same image and entry exactly when the entry lies inside the image. */
  method FlatRoundTrip(image: seq<byte>, entry: u32, file: seq<byte>) returns (r: Loaded)
    requires |image| + 12 <= FLAT_MAX && file == FlatFile(image, entry)
    ensures if entry < |image| then r == Flat(image, FLAT_BASE + entry) else r == Bad
  {
    hide ReadLe32, Le32;
    assert file[..4] == MAGIC;
    assert file[4..8] == Le32(|image|) && file[8..12] == Le32(entry) && file[12..] == image;
    ReadLe32OfLe32(file, 4, |image|);
    ReadLe32OfLe32(file, 8, entry);
    r := LoadFlat(file);
  }

  // ---------------------------------------------------------------- words and spaces

  /** The words with so many spaces before each and behind the last. */
  function Spread(words: seq<seq<byte>>, gaps: seq<nat>): seq<byte>
    requires |gaps| == |words| + 1
    decreases words
  {
    if words == [] then seq(gaps[0], _ => 32) else seq(gaps[0], _ => 32) + words[0] + Spread(words[1..], gaps[1..])
  }

  predicate IsWord(w: seq<byte>) {
    w != [] && 32 !in w
  }

  /** Words with one space or more between them are found again, whatever the number of spaces. */
  lemma {:induction false} WordsOfSpread(words: seq<seq<byte>>, gaps: seq<nat>)
    requires |gaps| == |words| + 1 && (forall k :: 0 <= k < |words| ==> IsWord(words[k]))
    requires forall k :: 0 < k < |words| ==> gaps[k] >= 1
    ensures Words(Spread(words, gaps)) == words
    decreases words
  {
    var s, n := Spread(words, gaps), gaps[0];
    SkipSpaces(s, n);
    if words == [] {
      assert s[n..] == [];
    } else {
      var w, rest := words[0], Spread(words[1..], gaps[1..]);
      WordsOfSpread(words[1..], gaps[1..]);
      SpreadStart(words[1..], gaps[1..]);
      assert s[n..] == w + rest && (w + rest)[0] == w[0];
      WordEndIs(w + rest, |w|);
      assert (w + rest)[..|w|] == w && (w + rest)[|w|..] == rest;
      assert words == [w] + words[1..];
    }
  }

  /** Behind a word comes a space or the end. */
  lemma SpreadStart(words: seq<seq<byte>>, gaps: seq<nat>)
    requires |gaps| == |words| + 1 && (words != [] ==> gaps[0] >= 1)
    ensures var s := Spread(words, gaps); s == [] || s[0] == SPACE
  {
  }
}
