/** The string sections: str_hash and dwarf_string of tccdbg.c. */
module DebugStrings {
  import opened Bytes

  const BUCKETS := 251

  /** A dwarf_str_hash node: the length counts the NUL. */
  datatype Node = Node(len: nat, offset: nat)

  /** A section and the hash chains over it, each chain newest node first. */
  datatype Table = Table(data: seq<byte>, chains: seq<seq<Node>>)

  function Hash(s: seq<byte>, h: u32): u32
    decreases s
  {
    if s == [] then h else Hash(s[1..], (h + s[0] + h * 31) % TWO32)
  }

  function Bucket(s: seq<byte>): (h: nat)
    ensures h < BUCKETS
  {
    Hash(s, 5381) % BUCKETS
  }

  /** The node's string is `s`. */
  predicate Same(data: seq<byte>, n: Node, s: seq<byte>) {
    n.len == |s| + 1 && Holds(data, n.offset, s)
  }

  /** The node's string is longer and ends with `s`. */
  predicate EndsWith(data: seq<byte>, n: Node, s: seq<byte>) {
    n.len > |s| + 1 && Holds(data, n.offset + n.len - (|s| + 1), s)
  }

  function FindSame(data: seq<byte>, chain: seq<Node>, s: seq<byte>): (i: nat)
    ensures i <= |chain| && (i < |chain| ==> Same(data, chain[i], s))
    ensures forall j :: 0 <= j < i ==> !Same(data, chain[j], s)
  {
    if chain == [] || Same(data, chain[0], s) then 0 else 1 + FindSame(data, chain[1..], s)
  }

  function FindSuffix(data: seq<byte>, chain: seq<Node>, s: seq<byte>): (i: nat)
    ensures i <= |chain| && (i < |chain| ==> EndsWith(data, chain[i], s))
    ensures forall j :: 0 <= j < i ==> !EndsWith(data, chain[j], s)
  {
    if chain == [] || EndsWith(data, chain[0], s) then 0 else 1 + FindSuffix(data, chain[1..], s)
  }

  /** The offset handed out for `s`, and the table afterwards. */
  function Interned(t: Table, s: seq<byte>): (r: (Table, nat))
    requires |t.chains| == BUCKETS
    ensures |r.0.chains| == BUCKETS
  {
    var chain := t.chains[Bucket(s)];
    var same, suffix := FindSame(t.data, chain, s), FindSuffix(t.data, chain, s);
    if same < |chain| then (t, chain[same].offset)
    else if suffix < |chain| then
      var offset := chain[suffix].offset + chain[suffix].len - (|s| + 1);
      (Linked(t, Bucket(s), Node(|s| + 1, offset)), offset)
    else (Linked(t, Bucket(s), Node(|s| + 1, |t.data|)).(data := t.data + s + [0]), |t.data|)
  }

  function Linked(t: Table, bucket: nat, n: Node): Table
    requires bucket < |t.chains|
  {
    t.(chains := t.chains[bucket := [n] + t.chains[bucket]])
  }

  class StringSection {
    var data: seq<byte>
    var chains: seq<seq<Node>>

    ghost predicate Valid()
      reads this
    {
      Ok(Table(data, chains))
    }

    /** No strings yet, over whatever the section starts with. */
    constructor (initial: seq<byte>)
      ensures Valid() && data == initial && chains == seq(BUCKETS, i => [])
    {
      data := initial;
      chains := seq(BUCKETS, i => []);
    }

    static method StrHash(s: seq<byte>) returns (h: u32)
      ensures h == Hash(s, 5381)
    {
      h := 5381;
      var i := 0;
      while i < |s|
        invariant 0 <= i <= |s| && Hash(s[i..], h) == Hash(s, 5381)
      {
        h := (h + s[i] + h * 31) % TWO32;
        i := i + 1;
      }
    }

    /** dwarf_string: first an equal string of the bucket, then a longer one ending in it, else append. */
    method Intern(s: seq<byte>) returns (offset: nat)
      requires Valid() && IsCString(s)
      modifies this
      ensures Valid() && (Table(data, chains), offset) == Interned(old(Table(data, chains)), s)
    {
      hide Hash, Holds, Ok;
      ghost var before := Table(data, chains);
      OkShape(before);
      InternOk(before, s);
      var h := StrHash(s);
      h := h % BUCKETS;
      var len := |s| + 1;
      var chain := chains[h];
      var i := 0;
      while i < |chain| && !(chain[i].len == len && Holds(data, chain[i].offset, s))
        invariant 0 <= i <= |chain| && forall j :: 0 <= j < i ==> !Same(data, chain[j], s)
      {
        i := i + 1;
      }
      if i < |chain| {
        FirstSame(data, chain, s, i);
        offset := chain[i].offset;
        return;
      }
      FirstSame(data, chain, s, i);
      offset := |data|;
      i := 0;
      while i < |chain| && !(chain[i].len > len && Holds(data, chain[i].offset + chain[i].len - len, s))
        invariant 0 <= i <= |chain| && forall j :: 0 <= j < i ==> !EndsWith(data, chain[j], s)
      {
        i := i + 1;
      }
      FirstSuffix(data, chain, s, i);
      if i < |chain| {
        offset := chain[i].offset + chain[i].len - len;
      } else {
        data := data + s + [0];
      }
      chains := chains[h := [Node(len, offset)] + chain];
    }
  }

  lemma FirstSame(data: seq<byte>, chain: seq<Node>, s: seq<byte>, i: nat)
    requires i <= |chain| && (i < |chain| ==> Same(data, chain[i], s))
    requires forall j :: 0 <= j < i ==> !Same(data, chain[j], s)
    ensures FindSame(data, chain, s) == i
  {
    hide Same;
    var k := FindSame(data, chain, s);
  }

  lemma FirstSuffix(data: seq<byte>, chain: seq<Node>, s: seq<byte>, i: nat)
    requires i <= |chain| && (i < |chain| ==> EndsWith(data, chain[i], s))
    requires forall j :: 0 <= j < i ==> !EndsWith(data, chain[j], s)
    ensures FindSuffix(data, chain, s) == i
  {
    hide EndsWith;
    var k := FindSuffix(data, chain, s);
  }

  // ---------------------------------------------------------------- invariant

  /** The string a node stands for. */
  function Text(data: seq<byte>, n: Node): seq<byte>
    requires n.len >= 1 && n.offset + n.len <= |data|
  {
    data[n.offset..n.offset + n.len - 1]
  }

  /** A node denotes one NUL-terminated string, and sits in that string's bucket. */
  predicate NodeOk(data: seq<byte>, bucket: nat, n: Node) {
    n.len >= 1 && n.offset + n.len <= |data| && IsCString(Text(data, n)) && data[n.offset + n.len - 1] == 0
    && Bucket(Text(data, n)) == bucket
  }

  predicate Ok(t: Table) {
    |t.chains| == BUCKETS
    && forall h, i :: 0 <= h < BUCKETS && 0 <= i < |t.chains[h]| ==> NodeOk(t.data, h, t.chains[h][i])
  }

  lemma OkShape(t: Table)
    requires Ok(t)
    ensures |t.chains| == BUCKETS
  {
  }

  /** What the reader of the section sees at an offset. */
  function StringAt(data: seq<byte>, offset: nat): seq<byte> {
    if offset <= |data| then CString(data[offset..]) else []
  }

  lemma StringReads(data: seq<byte>, at: nat, s: seq<byte>)
    requires Holds(data, at, s) && IsCString(s)
    ensures StringAt(data, at) == s
  {
    HoldsReads(data, at, s);
  }

  lemma HoldsForever(data: seq<byte>, more: seq<byte>, at: int, s: seq<byte>)
    requires Holds(data, at, s)
    ensures Holds(data + more, at, s)
  {
    assert (data + more)[at..at + |s| + 1] == data[at..at + |s| + 1];
  }

  lemma NodeOkForever(data: seq<byte>, more: seq<byte>, h: nat, n: Node)
    requires NodeOk(data, h, n)
    ensures NodeOk(data + more, h, n) && Text(data + more, n) == Text(data, n)
  {
    assert Text(data + more, n) == Text(data, n);
  }

  /** A node for a string standing in the section is a good node of its bucket. */
  lemma HoldsNodeOk(data: seq<byte>, at: nat, s: seq<byte>)
    requires Holds(data, at, s) && IsCString(s)
    ensures NodeOk(data, Bucket(s), Node(|s| + 1, at))
  {
    hide Hash;
    var w := data[at..at + |s| + 1];
    assert Text(data, Node(|s| + 1, at)) == w[..|s|] == s;
    assert data[at + |s|] == w[|s|];
  }

  lemma LinkedOk(t: Table, data: seq<byte>, s: seq<byte>, n: Node)
    requires Ok(t) && t.data <= data && NodeOk(data, Bucket(s), n)
    ensures Ok(Linked(t, Bucket(s), n).(data := data))
  {
    hide Hash, NodeOk;
    var b := Bucket(s);
    var after := Linked(t, b, n).(data := data);
    forall h, i | 0 <= h < BUCKETS && 0 <= i < |after.chains[h]|
      ensures NodeOk(after.data, h, after.chains[h][i])
    {
      assert data == t.data + data[|t.data|..];
      if h != b {
        NodeOkForever(t.data, data[|t.data|..], h, t.chains[h][i]);
      } else if i > 0 {
        NodeOkForever(t.data, data[|t.data|..], h, t.chains[h][i - 1]);
      }
    }
  }

  /** The invariant is kept, the section only grows at its end, and the offset reads back as the string. */
  lemma InternOk(t: Table, s: seq<byte>)
    requires Ok(t) && IsCString(s)
    ensures Ok(Interned(t, s).0) && t.data <= Interned(t, s).0.data
    ensures Holds(Interned(t, s).0.data, Interned(t, s).1, s) && StringAt(Interned(t, s).0.data, Interned(t, s).1) == s
  {
    hide Hash, NodeOk, Bucket, CString, StringAt, Ok;
    OkShape(t);
    var (after, offset) := Interned(t, s);
    var chain := t.chains[Bucket(s)];
    if FindSame(t.data, chain, s) == |chain| {
      if FindSuffix(t.data, chain, s) == |chain| {
        assert (t.data + s + [0])[|t.data|..] == s + [0];
        assert t.data + s + [0] == t.data + (s + [0]);
      }
      HoldsNodeOk(after.data, offset, s);
      LinkedOk(t, after.data, s, Node(|s| + 1, offset));
    }
    StringReads(after.data, offset, s);
  }

  // ---------------------------------------------------------------- runs

  /** Interning one string after another. */
  function Run(t: Table, strings: seq<seq<byte>>): (r: (Table, seq<nat>))
    requires |t.chains| == BUCKETS
    ensures |r.0.chains| == BUCKETS && |r.1| == |strings|
    decreases strings
  {
    if strings == [] then (t, []) else
    var (t1, offset) := Interned(t, strings[0]);
    var (t2, rest) := Run(t1, strings[1..]);
    (t2, [offset] + rest)
  }

  predicate AllC(strings: seq<seq<byte>>) {
    forall i :: 0 <= i < |strings| ==> IsCString(strings[i])
  }

  /** Every offset ever handed out reads back as the string it was handed out for, at the end of any run. */
  lemma {:induction false} RunReadsBack(t: Table, strings: seq<seq<byte>>)
    requires Ok(t) && AllC(strings)
    ensures Ok(Run(t, strings).0) && t.data <= Run(t, strings).0.data
    ensures forall i :: 0 <= i < |strings| ==> StringAt(Run(t, strings).0.data, Run(t, strings).1[i]) == strings[i]
    decreases strings
  {
    hide Ok, Interned, StringAt, Holds;
    OkShape(t);
    if strings != [] {
      InternOk(t, strings[0]);
      var (t1, offset) := Interned(t, strings[0]);
      RunReadsBack(t1, strings[1..]);
      var last := Run(t1, strings[1..]).0.data;
      assert last == t1.data + last[|t1.data|..];
      HoldsForever(t1.data, last[|t1.data|..], offset, strings[0]);
      StringReads(last, offset, strings[0]);
    }
  }

  /** Some node of the bucket is this string at this offset, and no newer one is. */
  predicate Knows(t: Table, s: seq<byte>, offset: nat) {
    |t.chains| == BUCKETS
    && var chain := t.chains[Bucket(s)];
       var i := FindSame(t.data, chain, s);
       i < |chain| && chain[i].offset == offset
  }

  lemma InternKnows(t: Table, s: seq<byte>)
    requires Ok(t) && IsCString(s)
    ensures Knows(Interned(t, s).0, s, Interned(t, s).1)
  {
    hide Hash, Bucket, Ok, IsCString, CString;
    OkShape(t);
    InternOk(t, s);
  }

  /** Once a string is known, interning any string leaves it known at the same offset. */
  lemma KnowsForever(t: Table, s: seq<byte>, offset: nat, other: seq<byte>)
    requires Ok(t) && IsCString(other) && Knows(t, s, offset)
    ensures Knows(Interned(t, other).0, s, offset)
  {
    hide Hash, Bucket, Ok, Holds, CString, IsCString;
    OkShape(t);
    InternOk(t, other);
    var after := Interned(t, other).0;
    var chain := t.chains[Bucket(s)];
    var i := FindSame(t.data, chain, s);
    ChainSame(t, after.data, s, i);
    if other == s {
    } else if Bucket(other) == Bucket(s) && after.chains != t.chains {
      var n := after.chains[Bucket(s)][0];
      assert after.chains[Bucket(s)] == [n] + chain;
      if Same(after.data, n, s) {
        NotBoth(after.data, n, other, s);
      }
      FirstSame(after.data, [n] + chain, s, i + 1);
    }
  }

  lemma NotBoth(data: seq<byte>, n: Node, a: seq<byte>, b: seq<byte>)
    requires Same(data, n, a) && Same(data, n, b)
    ensures a == b
  {
    assert a == (a + [0])[..|a|] == (b + [0])[..|b|] == b;
  }

  /** Appending changes no comparison with an existing node. */
  lemma ChainSame(t: Table, data: seq<byte>, s: seq<byte>, i: nat)
    requires Ok(t) && t.data <= data
    requires var chain := t.chains[Bucket(s)]; i < |chain| && FindSame(t.data, chain, s) == i
    ensures FindSame(data, t.chains[Bucket(s)], s) == i
  {
    hide Hash, Bucket;
    var chain := t.chains[Bucket(s)];
    forall j | 0 <= j < |chain|
      ensures Same(data, chain[j], s) <==> Same(t.data, chain[j], s)
    {
      assert NodeOk(t.data, Bucket(s), chain[j]);
      if chain[j].len == |s| + 1 {
        assert data[chain[j].offset..chain[j].offset + |s| + 1] == t.data[chain[j].offset..chain[j].offset + |s| + 1];
      }
    }
    FirstSame(data, chain, s, i);
  }

  lemma {:induction false} RunKnows(t: Table, s: seq<byte>, offset: nat, strings: seq<seq<byte>>)
    requires Ok(t) && AllC(strings) && Knows(t, s, offset)
    ensures Knows(Run(t, strings).0, s, offset)
    ensures forall i :: 0 <= i < |strings| && strings[i] == s ==> Run(t, strings).1[i] == offset
    decreases strings
  {
    hide Ok, Interned, Knows, IsCString;
    OkShape(t);
    RunReadsBack(t, strings);
    if strings != [] {
      InternOk(t, strings[0]);
      InternKnows(t, strings[0]);
      KnowsForever(t, s, offset, strings[0]);
      KnownAt(Interned(t, strings[0]).0, s, offset, Interned(t, strings[0]).1, strings[0]);
      RunKnows(Interned(t, strings[0]).0, s, offset, strings[1..]);
    }
  }

  lemma KnownAt(t: Table, s: seq<byte>, offset: nat, offset2: nat, s2: seq<byte>)
    requires Knows(t, s, offset) && Knows(t, s2, offset2)
    ensures s == s2 ==> offset == offset2
  {
  }

  /** A string already interned never grows the section or changes the table again, and always gets the same offset. */
  lemma {:induction false} RunIsStable(t: Table, strings: seq<seq<byte>>, i: nat)
    requires Ok(t) && AllC(strings) && i < |strings|
    ensures Interned(Run(t, strings).0, strings[i]) == (Run(t, strings).0, Run(t, strings).1[i])
    ensures forall j :: 0 <= j < |strings| && strings[j] == strings[i] ==> Run(t, strings).1[j] == Run(t, strings).1[i]
    decreases strings
  {
    hide Ok, Hash, IsCString, Same, EndsWith;
    OkShape(t);
    InternOk(t, strings[0]);
    RunReadsBack(t, strings);
    OkShape(Run(t, strings).0);
    var (t1, offset) := Interned(t, strings[0]);
    InternKnows(t, strings[0]);
    RunKnows(t1, strings[0], offset, strings[1..]);
    if i > 0 {
      RunIsStable(t1, strings[1..], i - 1);
      assert strings[1..][i - 1] == strings[i];
    }
  }

  /** Sharing never costs space: the section ends up no longer than if every string had been appended. */
  lemma {:induction false} RunSize(t: Table, strings: seq<seq<byte>>)
    requires Ok(t) && AllC(strings)
    ensures |Run(t, strings).0.data| <= |t.data| + Total(strings)
    decreases strings
  {
    hide Ok, Hash, IsCString, Same, EndsWith;
    OkShape(t);
    if strings != [] {
      InternOk(t, strings[0]);
      RunSize(Interned(t, strings[0]).0, strings[1..]);
    }
  }

  function Total(strings: seq<seq<byte>>): nat {
    if strings == [] then 0 else |strings[0]| + 1 + Total(strings[1..])
  }

  // ---------------------------------------------------------------- a string inside a longer one

  lemma {:induction false} HashJoin(a: seq<byte>, b: seq<byte>, h: u32)
    ensures Hash(a + b, h) == Hash(b, Hash(a, h))
    decreases a
  {
    if a == [] {
      assert a + b == b;
    } else {
      assert (a + b)[1..] == a[1..] + b;
      HashJoin(a[1..], b, (h + a[0] + h * 31) % TWO32);
    }
  }

  /** How much of the hash before still counts when five bits have been shifted out `j` times. */
  function Shifted(j: nat): (m: int)
    ensures m > 0
  {
    if j == 0 then 1 else if j == 1 then 0x20 else if j == 2 then 0x400 else if j == 3 then 0x8000 else if j == 4 then 0x10_0000
    else if j == 5 then 0x200_0000 else if j == 6 then 0x4000_0000 else TWO32
  }

  lemma ShiftStep(h: u32, g: u32, c: byte, j: nat, q: int) returns (r: int)
    requires j < 7 && h - g == q * Shifted(j)
    ensures (h + c + h * 31) % TWO32 - (g + c + g * 31) % TWO32 == r * Shifted(j + 1)
  {
    var k := (h + c + h * 31) / TWO32 - (g + c + g * 31) / TWO32;
    r := if j == 0 then q - 0x800_0000 * k else if j == 1 then q - 0x40_0000 * k else if j == 2 then q - 0x2_0000 * k
         else if j == 3 then q - 0x1000 * k else if j == 4 then q - 0x80 * k else if j == 5 then q - 4 * k else 8 * q - k;
  }

  /** Seven bytes shift everything before them out of the hash. */
  lemma {:induction false} HashForgets(s: seq<byte>, h: u32, g: u32, j: nat, q: int)
    requires j <= 7 && |s| >= 7 - j && h - g == q * Shifted(j)
    ensures Hash(s, h) == Hash(s, g)
    decreases s
  {
    if j < 7 {
      var r := ShiftStep(h, g, s[0], j, q);
      HashForgets(s[1..], (h + s[0] + h * 31) % TWO32, (g + s[0] + g * 31) % TWO32, j + 1, r);
    }
  }

  /** So a string of seven bytes or more has the bucket of every longer string that ends in it. */
  lemma SuffixBucket(front: seq<byte>, s: seq<byte>)
    requires |s| >= 7
    ensures Bucket(front + s) == Bucket(s)
  {
    HashJoin(front, s, 5381);
    HashForgets(s, Hash(front, 5381), 5381, 0, Hash(front, 5381) - 5381);
  }

  /** A string in which a known longer one of its bucket ends takes no space. */
  lemma SuffixTakesNoSpace(t: Table, front: seq<byte>, s: seq<byte>, offset: nat)
    requires Ok(t) && IsCString(s) && front != [] && Knows(t, front + s, offset) && Bucket(front + s) == Bucket(s)
    ensures Interned(t, s).0.data == t.data
  {
    hide Hash, Bucket, Ok, IsCString, CString;
    OkShape(t);
    var chain := t.chains[Bucket(s)];
    var n := chain[FindSame(t.data, chain, front + s)];
    SuffixHolds(t.data, n.offset, front, s);
    assert EndsWith(t.data, n, s);
  }

  lemma SuffixHolds(data: seq<byte>, at: nat, front: seq<byte>, s: seq<byte>)
    requires Holds(data, at, front + s)
    ensures Holds(data, at + |front|, s)
  {
    var w := data[at..at + |front + s| + 1];
    assert w[|front|..] == s + [0];
    assert data[at + |front|..at + |front| + |s| + 1] == w[|front|..];
  }

  /** At the end of any run a string of seven bytes or more in which one of the run's strings ends takes no space. */
  lemma EndingsAreShared(t: Table, strings: seq<seq<byte>>, i: nat, front: seq<byte>, s: seq<byte>)
    requires Ok(t) && AllC(strings) && i < |strings| && strings[i] == front + s && |s| >= 7
    ensures Interned(Run(t, strings).0, s).0.data == Run(t, strings).0.data
  {
    hide Hash, Bucket, Ok, Interned, Knows, Run, IsCString;
    OkShape(t);
    RunIsStable(t, strings, i);
    RunReadsBack(t, strings);
    var last := Run(t, strings).0;
    InternKnows(last, strings[i]);
    EndingIsC(front, s);
    if front == [] {
      assert front + s == s;
    } else {
      SuffixBucket(front, s);
      SuffixTakesNoSpace(last, front, s, Run(t, strings).1[i]);
    }
  }

  lemma EndingIsC(front: seq<byte>, s: seq<byte>)
    requires IsCString(front + s)
    ensures IsCString(s)
  {
    assert forall k :: 0 <= k < |s| ==> s[k] == (front + s)[|front| + k];
  }
}
