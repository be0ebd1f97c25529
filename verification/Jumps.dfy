/** Forward jumps of the i386 back end (i386-gen.c): lists of unresolved jumps threaded through their own operands. */
module JumpLists {
  import opened Bytes

  // ---------------------------------------------------------------- words in the code

  /** write32le. */
  function Put32(data: seq<byte>, at: nat, x: u32): (r: seq<byte>)
    requires at + 4 <= |data|
    ensures |r| == |data|
  {
    data[..at] + Le32(x) + data[at + 4..]
  }

  lemma Put32Reads(data: seq<byte>, at: nat, x: u32)
    requires at + 4 <= |data|
    ensures ReadLe32(Put32(data, at, x), at) == x
    ensures forall i :: 0 <= i < |data| && !(at <= i < at + 4) ==> Put32(data, at, x)[i] == data[i]
  {
    ReadLe32OfLe32(Put32(data, at, x), at, x);
  }

  /** Two words that do not overlap. */
  predicate Spaced(p: nat, q: nat) {
    p + 4 <= q || q + 4 <= p
  }

  lemma Put32Elsewhere(data: seq<byte>, at: nat, x: u32, p: nat)
    requires at + 4 <= |data| && p + 4 <= |data| && Spaced(at, p)
    ensures ReadLe32(Put32(data, at, x), p) == ReadLe32(data, p)
  {
    Put32Reads(data, at, x);
  }

  /** Where a jump with its 32-bit operand at `p` goes. */
  function Lands(data: seq<byte>, p: nat): u32
    requires p + 4 <= |data|
  {
    (p + 4 + ReadLe32(data, p)) % TWO32
  }

  function Operand(a: int, p: nat): u32 {
    (a - p - 4) % TWO32
  }

  lemma OperandLands(data: seq<byte>, p: nat, a: int)
    requires p + 4 <= |data|
    ensures ReadLe32(data, p) == Operand(a, p) ==> Lands(data, p) == a % TWO32
  {
    assert (p + 4 + (a - p - 4) % TWO32) % TWO32 == a % TWO32;
  }

  // ---------------------------------------------------------------- lists

  function Head(list: seq<nat>): nat {
    if list == [] then 0 else list[0]
  }

  predicate AllSpaced(list: seq<nat>) {
    forall i, j {:trigger Spaced(list[i], list[j])} :: 0 <= i < j < |list| ==> Spaced(list[i], list[j])
  }

  /** The operands at `list` hold the list: each points to the next, the last holds zero. */
  predicate IsList(data: seq<byte>, list: seq<nat>)
    decreases list
  {
    list == []
    || (0 < list[0] && list[0] + 4 <= |data| && ReadLe32(data, list[0]) == Head(list[1..]) && IsList(data, list[1..]))
  }

  predicate Avoids(list: seq<nat>, at: nat) {
    forall i {:trigger list[i]} :: 0 <= i < |list| ==> Spaced(at, list[i])
  }

  lemma {:induction false} ListBounds(data: seq<byte>, list: seq<nat>, i: nat)
    requires IsList(data, list) && i < |list|
    ensures 0 < list[i] && list[i] + 4 <= |data| && IsList(data, list[i..])
    decreases list
  {
    if i > 0 {
      ListBounds(data, list[1..], i - 1);
      assert list[1..][i - 1..] == list[i..];
    }
  }

  /** Writing away from a list leaves it alone. */
  lemma {:induction false} ListKept(data: seq<byte>, after: seq<byte>, list: seq<nat>)
    requires IsList(data, list) && |data| <= |after|
    requires forall i :: 0 <= i < |list| && list[i] + 4 <= |data| ==> ReadLe32(after, list[i]) == ReadLe32(data, list[i])
    ensures IsList(after, list)
    decreases list
  {
    if list != [] {
      assert forall i :: 0 <= i < |list[1..]| ==> list[1..][i] == list[i + 1];
      ListKept(data, after, list[1..]);
    }
  }

  /** gsym_addr on values. */
  function Patched(data: seq<byte>, list: seq<nat>, a: int): (r: seq<byte>)
    requires forall i :: 0 <= i < |list| ==> list[i] + 4 <= |data|
    ensures |r| == |data|
    decreases list
  {
    if list == [] then data else
    assert forall i :: 0 <= i < |list[1..]| ==> list[1..][i] == list[i + 1];
    Patched(Put32(data, list[0], Operand(a, list[0])), list[1..], a)
  }

  /** Every jump of the list lands on `a` modulo 2^32, and no byte outside their operands moves. */
  lemma {:induction false} PatchedLands(data: seq<byte>, list: seq<nat>, a: int)
    requires AllSpaced(list) && forall i :: 0 <= i < |list| ==> list[i] + 4 <= |data|
    ensures forall i :: 0 <= i < |list| ==> Lands(Patched(data, list, a), list[i]) == a % TWO32
    ensures forall p: nat :: p + 4 <= |data| && Avoids(list, p) ==> ReadLe32(Patched(data, list, a), p) == ReadLe32(data, p)
    ensures forall k :: 0 <= k < |data| && (forall i :: 0 <= i < |list| ==> !(list[i] <= k < list[i] + 4)) ==>
                          Patched(data, list, a)[k] == data[k]
    decreases list
  {
    hide Le32, ReadLe32, Operand, Put32;
    if list != [] {
      var t, rest := list[0], list[1..];
      assert forall i :: 0 <= i < |rest| ==> rest[i] == list[i + 1];
      var once := Put32(data, t, Operand(a, t));
      Put32Reads(data, t, Operand(a, t));
      PatchedLands(once, rest, a);
      assert Avoids(rest, t) by {
        forall i | 0 <= i < |rest| ensures Spaced(t, rest[i]) {
          assert Spaced(list[0], list[i + 1]);
        }
      }
      OperandLands(Patched(data, list, a), t, a);
      forall p: nat | p + 4 <= |data| && Avoids(list, p)
        ensures ReadLe32(Patched(data, list, a), p) == ReadLe32(data, p)
      {
        assert Spaced(p, list[0]);
        assert Avoids(rest, p);
        Put32Elsewhere(data, t, Operand(a, t), p);
      }
    }
  }

  /** gjmp_append on values: the last operand of `first` is made to point at the second list. */
  lemma {:induction false} Appended(data: seq<byte>, first: seq<nat>, second: seq<nat>)
    requires first != [] && IsList(data, first) && IsList(data, second) && AllSpaced(first + second)
    requires Head(second) < TWO32
    requires first[|first| - 1] + 4 <= |data|
    ensures IsList(Put32(data, first[|first| - 1], Head(second)), first + second)
    decreases first
  {
    hide ReadLe32, Le32, Put32;
    var last := first[|first| - 1];
    var after := Put32(data, last, Head(second));
    var list := first + second;
    Put32Reads(data, last, Head(second));
    if |first| == 1 {
      assert list[1..] == second;
      forall i | 0 <= i < |second| && second[i] + 4 <= |data|
        ensures ReadLe32(after, second[i]) == ReadLe32(data, second[i])
      {
        assert Spaced(list[0], list[i + 1]);
        Put32Elsewhere(data, last, Head(second), second[i]);
      }
      ListKept(data, after, second);
    } else {
      assert list[1..] == first[1..] + second;
      assert Head(list[1..]) == Head(first[1..]);
      assert AllSpaced(first[1..] + second) by {
        forall i, j | 0 <= i < j < |list| - 1 ensures Spaced(list[1..][i], list[1..][j]) {
          assert Spaced(list[i + 1], list[j + 1]);
        }
      }
      Appended(data, first[1..], second);
      assert Spaced(list[0], list[|first| - 1]);
      Put32Elsewhere(data, last, Head(second), first[0]);
    }
  }
}
