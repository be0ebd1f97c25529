/** Lines and columns of a text buffer, as src/home/edit.c counts them. */
module TextLines {
  import opened Bytes

  const TAB: byte := 9
  const NEWLINE: byte := 10
  const TAB_W := 4

  /** Position `p` is the start of a line. */
  predicate LineStart(t: seq<byte>, p: int) {
    0 <= p <= |t| && (p == 0 || t[p - 1] == NEWLINE)
  }

  function LineBegin(t: seq<byte>, p: nat): (b: nat)
    requires p <= |t|
    ensures b <= p && LineStart(t, b)
    ensures forall i :: b <= i < p ==> t[i] != NEWLINE
  {
    if p == 0 || t[p - 1] == NEWLINE then p else LineBegin(t, p - 1)
  }

  function LineEnd(t: seq<byte>, p: nat): (e: nat)
    requires p <= |t|
    ensures p <= e <= |t| && (e < |t| ==> t[e] == NEWLINE)
    ensures forall i :: p <= i < e ==> t[i] != NEWLINE
    decreases |t| - p
  {
    if p == |t| || t[p] == NEWLINE then p else LineEnd(t, p + 1)
  }

  /** The line start at or before `p` after which no newline comes is the beginning of `p`'s line. */
  lemma LineBeginIs(t: seq<byte>, b: nat, p: nat)
    requires b <= p <= |t| && LineStart(t, b) && forall i :: b <= i < p ==> t[i] != NEWLINE
    ensures LineBegin(t, p) == b
  {
    var c := LineBegin(t, p);
    assert b > 0 ==> t[b - 1] == NEWLINE;
    assert c > 0 ==> t[c - 1] == NEWLINE;
  }

  /** No line start lies between a line's beginning and a position on it. */
  lemma LineBeginIsLast(t: seq<byte>, s: nat, p: nat)
    requires s <= p <= |t| && LineStart(t, s)
    ensures s <= LineBegin(t, p)
  {
  }

  lemma LineEndIs(t: seq<byte>, p: nat, e: nat)
    requires p <= e <= |t| && (e < |t| ==> t[e] == NEWLINE) && forall i :: p <= i < e ==> t[i] != NEWLINE
    ensures LineEnd(t, p) == e
  {
    var d := LineEnd(t, p);
    assert d < |t| ==> t[d] == NEWLINE;
    assert e < |t| ==> t[e] == NEWLINE;
  }

  // ---------------------------------------------------------------- columns

  /** The column after a character: tabs go to the next stop. */
  function Advance(c: nat, ch: byte): (d: nat)
    ensures d > c
  {
    if ch == TAB then c + (TAB_W - c % TAB_W) else c + 1
  }

  /** The column of `p` when `start` has column zero. */
  function ColumnFrom(t: seq<byte>, start: nat, p: nat): nat
    requires start <= p <= |t|
  {
    if p == start then 0 else Advance(ColumnFrom(t, start, p - 1), t[p - 1])
  }

  function Column(t: seq<byte>, p: nat): nat
    requires p <= |t|
  {
    ColumnFrom(t, LineBegin(t, p), p)
  }

  /** Columns grow along a line. */
  lemma {:induction false} ColumnsGrow(t: seq<byte>, start: nat, p: nat, q: nat)
    requires start <= p < q <= |t|
    ensures ColumnFrom(t, start, p) < ColumnFrom(t, start, q)
    decreases q - p
  {
    if p + 1 < q {
      ColumnsGrow(t, start, p, q - 1);
    }
  }

  /** `p` is on the line starting at `start`, at or left of the target, and nothing further right is. */
  predicate LastAtOrBefore(t: seq<byte>, start: nat, target: nat, p: nat)
    requires start <= |t|
  {
    start <= p <= LineEnd(t, start) && ColumnFrom(t, start, p) <= target
    && forall q :: p < q <= LineEnd(t, start) ==> ColumnFrom(t, start, q) > target
  }

  /** So the position for a position's own column is that position. */
  lemma OwnColumn(t: seq<byte>, p: nat, q: nat)
    requires p <= |t| && LastAtOrBefore(t, LineBegin(t, p), Column(t, p), q)
    ensures q == p
  {
    OnOwnLine(t, p);
    if p < q {
      ColumnsGrow(t, LineBegin(t, p), p, q);
    }
  }

  lemma OnOwnLine(t: seq<byte>, p: nat)
    requires p <= |t|
    ensures LineEnd(t, LineBegin(t, p)) == LineEnd(t, p)
  {
    LineEndIs(t, LineBegin(t, p), LineEnd(t, p));
  }

  /** A line starts in column zero, a character takes one column, and a tab goes to the next multiple of four. */
  lemma NextColumn(t: seq<byte>, p: nat)
    requires p <= |t|
    ensures LineStart(t, p) ==> Column(t, p) == 0
    ensures p < |t| && t[p] != 10 && t[p] != 9 ==> Column(t, p + 1) == Column(t, p) + 1
    ensures p < |t| && t[p] == 9 ==> Column(t, p + 1) % 4 == 0 && Column(t, p) < Column(t, p + 1) <= Column(t, p) + 4
  {
  }

  // ---------------------------------------------------------------- counting lines

  /** How many newlines stand in `[a, b)`. */
  function Newlines(t: seq<byte>, a: nat, b: nat): (n: nat)
    requires b <= |t|
    ensures n == 0 ==> forall i :: a <= i < b ==> t[i] != NEWLINE
    decreases b - a
  {
    if a >= b then 0 else (if t[a] == NEWLINE then 1 else 0) + Newlines(t, a + 1, b)
  }

  lemma {:induction false} NewlinesSplit(t: seq<byte>, a: nat, m: nat, b: nat)
    requires a <= m <= b <= |t|
    ensures Newlines(t, a, b) == Newlines(t, a, m) + Newlines(t, m, b)
    decreases m - a
  {
    if a < m {
      NewlinesSplit(t, a + 1, m, b);
    }
  }

  lemma {:induction false} NoNewlines(t: seq<byte>, a: nat, b: nat)
    requires b <= |t| && forall i :: a <= i < b ==> t[i] != NEWLINE
    ensures Newlines(t, a, b) == 0
    decreases b - a
  {
    if a < b {
      NoNewlines(t, a + 1, b);
    }
  }

  /** From a line to the next there is one newline. */
  lemma NextLine(t: seq<byte>, p: nat)
    requires p <= |t| && LineEnd(t, p) < |t|
    ensures LineStart(t, LineEnd(t, p) + 1) && Newlines(t, p, LineEnd(t, p) + 1) == 1
  {
    var e := LineEnd(t, p);
    NewlinesSplit(t, p, e, e + 1);
    NoNewlines(t, p, e);
    assert Newlines(t, e, e + 1) == 1 + Newlines(t, e + 1, e + 1);
  }

  /** Between two line starts there is at least one newline. */
  lemma LinesApart(t: seq<byte>, a: nat, b: nat)
    requires a < b <= |t| && LineStart(t, b)
    ensures Newlines(t, a, b) >= 1
  {
    assert t[b - 1] == NEWLINE;
  }
}
