/**
 The ordered byte store under both halves (core/src/storage.rs): prefix scans as
 half-open intervals, ordered scans, and atomic batches applied in order.
 */
module Storage {
  import opened Types
  import opened Keys

  // ----- byte order is a strict total order ---------------------------------------------

  lemma {:induction false} LessIrreflexive(a: Bytes)
    ensures !BytesLess(a, a)
  {
    if a != [] {
      LessIrreflexive(a[1..]);
    }
  }

  lemma {:induction false} LessTransitive(a: Bytes, b: Bytes, c: Bytes)
    requires BytesLess(a, b) && BytesLess(b, c)
    ensures BytesLess(a, c)
  {
    if a != [] && a[0] == b[0] && b[0] == c[0] {
      LessTransitive(a[1..], b[1..], c[1..]);
    }
  }

  lemma {:induction false} LessTotal(a: Bytes, b: Bytes)
    ensures BytesLess(a, b) || a == b || BytesLess(b, a)
  {
    if a != [] && b != [] && a[0] == b[0] {
      LessTotal(a[1..], b[1..]);
      assert a == [a[0]] + a[1..] && b == [b[0]] + b[1..];
    }
  }

  lemma {:induction false} TupleAfterCommon(x: Tuple, a: Tuple, b: Tuple)
    ensures TupleLess(x + a, x + b) <==> TupleLess(a, b)
  {
    if x == [] {
      assert x + a == a && x + b == b;
    } else {
      TupleAfterCommon(x[1..], a, b);
      assert (x + a)[1..] == x[1..] + a && (x + b)[1..] == x[1..] + b;
    }
  }

  /** Two tuples that part after `x` compare as the components where they part. */
  lemma {:induction false} TuplesPart(x: Tuple, p: Tuple, q: Tuple)
    requires |x| < |p| && |x| < |q| && x == p[..|x|] && x == q[..|x|] && BytesLess(p[|x|], q[|x|])
    ensures TupleLess(p, q)
  {
    LessIrreflexive(p[|x|]);
    assert p == x + p[|x|..] && q == x + q[|x|..];
    TupleAfterCommon(x, p[|x|..], q[|x|..]);
  }

  // ----- prefixes as intervals ---------------------------------------------------------

  /** The least byte string above every string starting with `p`, if there is one. */
  function Successor(p: Bytes): Option<Bytes> {
    if p == [] then None
    else if p[|p| - 1] < 255 then Some(p[..|p| - 1] + [p[|p| - 1] + 1])
    else Successor(p[..|p| - 1])
  }

  method PrefixSuccessor(prefix: Bytes) returns (bound: Option<Bytes>)
    ensures bound == Successor(prefix)
  {
    var out := prefix;
    while out != []
      invariant Successor(prefix) == Successor(out)
      decreases |out|
    {
      var last := |out| - 1;
      if out[last] < 255 {
        assert out[last := out[last] + 1] == out[..last] + [out[last] + 1];
        out := out[last := out[last] + 1];
        return Some(out);
      }
      out := out[..last];
    }
    return None;
  }

  /** The successor seen from the front: keep the first byte while the rest has one. */
  lemma {:induction false} SuccessorCons(b: Byte, p: Bytes)
    ensures Successor([b] + p) ==
            if Successor(p).Some? then Some([b] + Successor(p).value) else if b < 255 then Some([b + 1]) else None
  {
    var q := [b] + p;
    if p == [] {
      assert q == [b] && q[..0] == [];
      assert b < 255 ==> [] + [b + 1] == [b + 1];
    } else {
      assert q[..|q| - 1] == [b] + p[..|p| - 1];
      if p[|p| - 1] == 255 {
        SuccessorCons(b, p[..|p| - 1]);
      } else {
        assert [b] + p[..|p| - 1] + [p[|p| - 1] + 1] == [b] + (p[..|p| - 1] + [p[|p| - 1] + 1]);
      }
    }
  }

  predicate Below(k: Bytes, bound: Option<Bytes>) { bound.Some? ==> BytesLess(k, bound.value) }

  /** A byte string starts with `p` exactly when it lies in `[p, Successor(p))`. */
  lemma {:induction false} PrefixIsInterval(p: Bytes, k: Bytes)
    ensures p <= k <==> !BytesLess(k, p) && Below(k, Successor(p))
  {
    if p != [] {
      assert p == [p[0]] + p[1..];
      SuccessorCons(p[0], p[1..]);
      if k != [] {
        assert k == [k[0]] + k[1..];
        PrefixIsInterval(p[1..], k[1..]);
        assert p <= k <==> p[0] == k[0] && p[1..] <= k[1..];
        if Successor(p[1..]).Some? {
          assert Successor(p).value[1..] == Successor(p[1..]).value;
        } else if Successor(p).Some? {
          assert Successor(p).value == [p[0] + 1] && Successor(p).value[1..] == [];
          assert BytesLess(k, Successor(p).value) <==> k[0] <= p[0];
        }
      }
    }
  }

  // ----- the store ------------------------------------------------------------------------

  datatype Op<V> = Put(key: Bytes, value: V) | Remove(key: Bytes)

  function Effect<V>(m: map<Bytes, V>, op: Op<V>): map<Bytes, V> {
    match op
    case Put(k, v) => m[k := v]
    case Remove(k) => m - {k}
  }

  function ApplyOps<V>(m: map<Bytes, V>, ops: seq<Op<V>>): map<Bytes, V> {
    if ops == [] then m else Effect(ApplyOps(m, ops[..|ops| - 1]), ops[|ops| - 1])
  }

  /** Index of the last operation on a key, if any. */
  ghost predicate LastOn<V>(ops: seq<Op<V>>, k: Bytes, i: nat) {
    i < |ops| && ops[i].key == k && forall j :: i < j < |ops| ==> ops[j].key != k
  }

  /** An untouched key keeps its value. */
  lemma {:induction false} UntouchedStays<V>(m: map<Bytes, V>, ops: seq<Op<V>>, k: Bytes)
    requires forall i :: 0 <= i < |ops| ==> ops[i].key != k
    ensures (k in ApplyOps(m, ops) <==> k in m) && (k in m ==> ApplyOps(m, ops)[k] == m[k])
  {
    if ops != [] {
      UntouchedStays(m, ops[..|ops| - 1], k);
    }
  }

  /** The last operation on a key decides it. */
  lemma {:induction false} LastOpWins<V>(m: map<Bytes, V>, ops: seq<Op<V>>, k: Bytes, i: nat)
    requires LastOn(ops, k, i)
    ensures (k in ApplyOps(m, ops) <==> ops[i].Put?) && (ops[i].Put? ==> ApplyOps(m, ops)[k] == ops[i].value)
  {
    if i < |ops| - 1 {
      var front := ops[..|ops| - 1];
      assert LastOn(front, k, i);
      LastOpWins(m, front, k, i);
    }
  }

  /** Puts to distinct keys: each lands, and nothing else moves. */
  predicate DistinctPuts<V>(ops: seq<Op<V>>) {
    && (forall i :: 0 <= i < |ops| ==> ops[i].Put?)
    && forall i, j :: 0 <= i < j < |ops| ==> ops[i].key != ops[j].key
  }

  lemma {:induction false} PutsLand<V>(m: map<Bytes, V>, ops: seq<Op<V>>)
    requires DistinctPuts(ops)
    ensures forall i :: 0 <= i < |ops| ==>
            ops[i].key in ApplyOps(m, ops) && ApplyOps(m, ops)[ops[i].key] == ops[i].value
    ensures forall k :: (forall i :: 0 <= i < |ops| ==> ops[i].key != k) ==>
              (k in ApplyOps(m, ops) <==> k in m) && (k in m ==> ApplyOps(m, ops)[k] == m[k])
  {
    if ops != [] {
      PutsLand(m, ops[..|ops| - 1]);
    }
  }

  lemma {:induction false} ApplyConcat<V>(m: map<Bytes, V>, a: seq<Op<V>>, b: seq<Op<V>>)
    ensures ApplyOps(m, a + b) == ApplyOps(ApplyOps(m, a), b)
  {
    if b == [] {
      assert a + b == a;
    } else {
      ApplyConcat(m, a, b[..|b| - 1]);
      assert (a + b)[..|a + b| - 1] == a + b[..|b| - 1];
    }
  }

  ghost predicate IsLeast(keys: set<Bytes>, least: Bytes) {
    least in keys && forall j :: j in keys ==> j == least || BytesLess(least, j)
  }

  lemma {:induction false} LeastKey(keys: set<Bytes>) returns (least: Bytes)
    requires keys != {}
    ensures IsLeast(keys, least)
  {
    var x :| x in keys;
    if keys == {x} {
      least := x;
    } else {
      var k := LeastKey(keys - {x});
      LessTotal(k, x);
      least := if BytesLess(x, k) then x else k;
      forall j | j in keys ensures j == least || BytesLess(least, j) {
        if j != x && j != k {
          assert j in keys - {x};
          if least == x {
            LessTransitive(x, k, j);
          }
        }
      }
    }
  }

  predicate Ascends<V>(rows: seq<(Bytes, V)>) {
    forall i, j :: 0 <= i < j < |rows| ==> BytesLess(rows[i].0, rows[j].0)
  }

  /** `rows` lists exactly the entries of `m` with keys in `keys`, in key order. */
  ghost predicate Lists<V>(m: map<Bytes, V>, keys: set<Bytes>, rows: seq<(Bytes, V)>) {
    && Ascends(rows)
    && (forall i :: 0 <= i < |rows| ==> rows[i].0 in keys && rows[i].0 in m && rows[i].1 == m[rows[i].0])
    && (forall k :: k in keys ==> exists i :: 0 <= i < |rows| && rows[i].0 == k)
  }

  method Collect<V>(m: map<Bytes, V>, keys: set<Bytes>) returns (rows: seq<(Bytes, V)>)
    requires keys <= m.Keys
    ensures Lists(m, keys, rows)
  {
    rows := [];
    var rest := keys;
    while rest != {}
      invariant rest <= keys && Lists(m, keys - rest, rows)
      invariant forall i, k :: 0 <= i < |rows| && k in rest ==> BytesLess(rows[i].0, k)
      decreases |rest|
    {
      ghost var known := LeastKey(rest);
      var least :| least in rest && forall j :: j in rest ==> j == least || BytesLess(least, j);
      ghost var before := rows;
      rows := rows + [(least, m[least])];
      forall k | k in keys - (rest - {least}) ensures exists i :: 0 <= i < |rows| && rows[i].0 == k {
        if k == least {
          assert rows[|before|].0 == k;
        } else {
          assert k in keys - rest;
          var i :| 0 <= i < |before| && before[i].0 == k;
          assert rows[i].0 == k;
        }
      }
      rest := rest - {least};
    }
    assert keys - {} == keys;
  }

  function KeysIn<V>(m: map<Bytes, V>, start: Bytes, end: Option<Bytes>): set<Bytes> {
    set k | k in m && !BytesLess(k, start) && Below(k, end)
  }

  function KeysUnder<V>(m: map<Bytes, V>, prefix: Bytes): set<Bytes> {
    set k | k in m && prefix <= k
  }

  class MemoryStore<V> {
    var data: map<Bytes, V>

    constructor ()
      ensures data == map[]
    {
      data := map[];
    }

    method Get(k: Bytes) returns (v: Option<V>)
      ensures v == if k in data then Some(data[k]) else None
    {
      return if k in data then Some(data[k]) else None;
    }

    /** Entries with keys in `[start, end)`, in key order. */
    method Scan(start: Bytes, end: Option<Bytes>) returns (rows: seq<(Bytes, V)>)
      ensures Lists(data, KeysIn(data, start, end), rows)
    {
      rows := Collect(data, KeysIn(data, start, end));
    }

    /** Entries whose key starts with `prefix`, in key order. */
    method ScanPrefix(prefix: Bytes) returns (rows: seq<(Bytes, V)>)
      ensures Lists(data, KeysUnder(data, prefix), rows)
    {
      var end := PrefixSuccessor(prefix);
      rows := Scan(prefix, end);
      forall k | k in data ensures prefix <= k <==> !BytesLess(k, prefix) && Below(k, end) {
        PrefixIsInterval(prefix, k);
      }
      assert KeysIn(data, prefix, end) == KeysUnder(data, prefix);
    }

    /** Apply a batch in order, all of it. */
    method Apply(ops: seq<Op<V>>)
      modifies this
      ensures data == ApplyOps(old(data), ops)
    {
      for i := 0 to |ops|
        invariant data == ApplyOps(old(data), ops[..i])
      {
        assert ops[..i + 1][..i] == ops[..i];
        match ops[i]
        case Put(k, v) => data := data[k := v];
        case Remove(k) => data := data - {k};
      }
      assert ops[..|ops|] == ops;
    }
  }
}
