/**
 Column order of a table (multilite/src/catalog.rs).

 Every column names its predecessor when it is added and keeps it for good.
 The predecessors form a tree, and the columns are listed in pre-order with
 siblings by identity: concurrent additions after the same column land in the
 same order everywhere.
 */
module ColumnOrder {
  import opened Types
  import opened Keys
  import opened Storage

  type ColumnId = Bytes

  datatype Node = Node(pred: Option<ColumnId>, active: bool)

  type Nodes = map<ColumnId, Node>

  // ----- the order, by root paths -----------------------------------------------------------

  /** A path of predecessors starting at a root. */
  predicate Chain(nodes: Nodes, p: Tuple) {
    p != [] && forall i :: 0 <= i < |p| ==> LinkAt(nodes, p, i)
  }

  predicate LinkAt(nodes: Nodes, p: Tuple, i: nat)
    requires i < |p|
  {
    p[i] in nodes && nodes[p[i]].pred == if i == 0 then None else Some(p[i - 1])
  }

  predicate PathTo(nodes: Nodes, n: ColumnId, p: Tuple) { Chain(nodes, p) && p[|p| - 1] == n }

  ghost predicate Rooted(nodes: Nodes, n: ColumnId) { exists p :: PathTo(nodes, n, p) }

  ghost function PathOf(nodes: Nodes, n: ColumnId): (p: Tuple)
    requires Rooted(nodes, n)
    ensures PathTo(nodes, n, p)
  {
    var p :| PathTo(nodes, n, p);
    p
  }

  /** A node comes before its descendants, and among siblings the lesser identity first. */
  ghost predicate Before(nodes: Nodes, a: ColumnId, b: ColumnId)
    requires Rooted(nodes, a) && Rooted(nodes, b)
  {
    TupleLess(PathOf(nodes, a), PathOf(nodes, b))
  }

  ghost predicate InOrder(nodes: Nodes, out: seq<ColumnId>) {
    && (forall n :: n in out ==> Rooted(nodes, n))
    && forall i, j :: 0 <= i < j < |out| ==> Before(nodes, out[i], out[j])
  }

  /** Predecessors are known, there is one root, and every column hangs from it. */
  ghost predicate IsTree(nodes: Nodes) {
    PredsKnown(nodes) && (exists root :: SoleRoot(nodes, root)) && AllRooted(nodes)
  }

  predicate PredsKnown(nodes: Nodes) { forall n :: n in nodes && nodes[n].pred.Some? ==> nodes[n].pred.value in nodes }

  ghost predicate AllRooted(nodes: Nodes) { forall n :: n in nodes ==> Rooted(nodes, n) }

  predicate IsRoot(nodes: Nodes, n: ColumnId) { n in nodes && nodes[n].pred == None }

  ghost predicate HasActive(nodes: Nodes) { exists n :: n in nodes && nodes[n].active }

  /** The active columns, each once, in order. */
  ghost predicate Linearizes(nodes: Nodes, out: seq<ColumnId>) {
    && InOrder(nodes, out)
    && forall n :: n in out <==> n in nodes && nodes[n].active
  }

  // ----- paths --------------------------------------------------------------------------------

  lemma {:induction false} ChainFront(nodes: Nodes, p: Tuple)
    requires Chain(nodes, p) && |p| > 1
    ensures PathTo(nodes, p[|p| - 2], p[..|p| - 1])
    ensures p[|p| - 1] in nodes && nodes[p[|p| - 1]].pred == Some(p[|p| - 2])
  {
    var front := p[..|p| - 1];
    assert LinkAt(nodes, p, |p| - 1);
    forall i | 0 <= i < |front| ensures LinkAt(nodes, front, i) {
      assert LinkAt(nodes, p, i);
    }
  }

  lemma {:induction false} PathUnique(nodes: Nodes, n: ColumnId, p: Tuple, q: Tuple)
    requires PathTo(nodes, n, p) && PathTo(nodes, n, q)
    ensures p == q
    decreases |p|
  {
    assert LinkAt(nodes, p, |p| - 1) && LinkAt(nodes, q, |q| - 1);
    if |p| > 1 {
      ChainFront(nodes, p);
      ChainFront(nodes, q);
      PathUnique(nodes, p[|p| - 2], p[..|p| - 1], q[..|q| - 1]);
      assert p == p[..|p| - 1] + [n] && q == q[..|q| - 1] + [n];
    } else {
      assert |q| == 1;
    }
  }

  lemma {:induction false} PathIs(nodes: Nodes, n: ColumnId, p: Tuple)
    requires PathTo(nodes, n, p)
    ensures Rooted(nodes, n) && PathOf(nodes, n) == p
  {
    PathUnique(nodes, n, p, PathOf(nodes, n));
  }

  lemma {:induction false} ChainExtends(nodes: Nodes, p: Tuple, c: ColumnId)
    requires c in nodes && (p == [] || Chain(nodes, p))
    requires nodes[c].pred == if p == [] then None else Some(p[|p| - 1])
    ensures PathTo(nodes, c, p + [c])
  {
    forall i | 0 <= i < |p + [c]| ensures LinkAt(nodes, p + [c], i) {
      assert i < |p| ==> LinkAt(nodes, p, i);
    }
  }

  // ----- tuple order ----------------------------------------------------------------------------

  lemma {:induction false} PrefixIsBefore(p: Tuple, q: Tuple)
    requires p < q
    ensures TupleLess(p, q)
  {
    assert q == p + q[|p|..] && p == p + [];
    TupleAfterCommon(p, [], q[|p|..]);
  }

  lemma {:induction false} TupleOrder(a: Tuple, b: Tuple, c: Tuple)
    ensures !TupleLess(a, a)
    ensures TupleLess(a, b) && TupleLess(b, c) ==> TupleLess(a, c)
    ensures TupleLess(a, b) || a == b || TupleLess(b, a)
  {
    EncodingPreservesOrder(a, a);
    EncodingPreservesOrder(a, b);
    EncodingPreservesOrder(b, a);
    EncodingPreservesOrder(b, c);
    EncodingPreservesOrder(a, c);
    LessIrreflexive(Enc(a));
    LessTotal(Enc(a), Enc(b));
    if TupleLess(a, b) && TupleLess(b, c) {
      LessTransitive(Enc(a), Enc(b), Enc(c));
    }
    if Enc(a) == Enc(b) {
      EncodingIsInjective(a, b);
    }
  }

  // ----- the order is determined -------------------------------------------------------------

  lemma {:induction false} FirstIsLeast(nodes: Nodes, a: seq<ColumnId>, b: seq<ColumnId>)
    requires InOrder(nodes, a) && InOrder(nodes, b) && a != [] && b != [] && forall n :: n in a <==> n in b
    ensures a[0] == b[0]
  {
    assert a[0] in b && b[0] in a;
    var i :| 0 <= i < |b| && b[i] == a[0];
    var j :| 0 <= j < |a| && a[j] == b[0];
    if i > 0 && j > 0 {
      assert Before(nodes, a[0], a[j]) && Before(nodes, b[0], b[i]);
      TupleOrder(PathOf(nodes, a[0]), PathOf(nodes, b[0]), PathOf(nodes, a[0]));
    }
  }

  lemma {:induction false} InOrderTail(nodes: Nodes, a: seq<ColumnId>)
    requires InOrder(nodes, a) && a != []
    ensures InOrder(nodes, a[1..]) && forall n :: n in a[1..] <==> n in a && n != a[0]
  {
    forall n ensures n in a[1..] <==> n in a && n != a[0] {
      if n in a[1..] {
        var i :| 0 <= i < |a[1..]| && a[1..][i] == n;
        assert a[i + 1] == n && Before(nodes, a[0], a[i + 1]);
        TupleOrder(PathOf(nodes, a[0]), PathOf(nodes, n), PathOf(nodes, n));
      }
    }
    forall i, j | 0 <= i < j < |a[1..]| ensures Before(nodes, a[1..][i], a[1..][j]) {
      assert a[1..][i] == a[i + 1] && a[1..][j] == a[j + 1];
    }
  }

  lemma {:induction false} SameEmptiness(a: seq<ColumnId>, b: seq<ColumnId>)
    requires forall n :: n in a <==> n in b
    ensures a == [] <==> b == []
  {
    assert a != [] ==> a[0] in a;
    assert b != [] ==> b[0] in b;
  }

  /** Two listings of the same columns in order are the same listing. */
  lemma {:induction false} OrderIsUnique(nodes: Nodes, a: seq<ColumnId>, b: seq<ColumnId>)
    requires InOrder(nodes, a) && InOrder(nodes, b) && forall n :: n in a <==> n in b
    ensures a == b
    decreases |a|
  {
    SameEmptiness(a, b);
    if a != [] {
      FirstIsLeast(nodes, a, b);
      InOrderTail(nodes, a);
      InOrderTail(nodes, b);
      OrderIsUnique(nodes, a[1..], b[1..]);
      assert a == [a[0]] + a[1..] && b == [b[0]] + b[1..];
    }
  }

  // ----- the traversal ------------------------------------------------------------------------

  /** The columns strictly below a path; the empty path stands above the roots. */
  ghost predicate Below(nodes: Nodes, p: Tuple, n: ColumnId) { Rooted(nodes, n) && p < PathOf(nodes, n) }

  /** The columns below `p` through one of the first `i` of its children `cs`. */
  ghost predicate Among(nodes: Nodes, p: Tuple, cs: seq<ColumnId>, i: nat, n: ColumnId)
    requires i <= |cs|
  {
    Below(nodes, p, n) && PathOf(nodes, n)[|p|] in cs[..i]
  }

  predicate Ascend(cs: seq<ColumnId>) { forall i, j :: 0 <= i < j < |cs| ==> BytesLess(cs[i], cs[j]) }

  /** `cs` lists the columns whose predecessor is `parent`, in ascending order. */
  ghost predicate ListsChildren(nodes: Nodes, parent: Option<ColumnId>, cs: seq<ColumnId>) {
    Ascend(cs) && forall c :: c in cs <==> c in nodes && nodes[c].pred == parent
  }

  type Children = map<Option<ColumnId>, seq<ColumnId>>

  function ChildrenOf(children: Children, parent: Option<ColumnId>): seq<ColumnId> {
    if parent in children then children[parent] else []
  }

  ghost predicate ChildrenOk(nodes: Nodes, children: Children) {
    forall parent :: ListsChildren(nodes, parent, ChildrenOf(children, parent))
  }

  /** `parent` is the column `p` leads to. */
  ghost predicate Stands(nodes: Nodes, p: Tuple, parent: Option<ColumnId>) {
    if p == [] then parent == None else Chain(nodes, p) && parent == Some(p[|p| - 1])
  }

  lemma {:induction false} NextOnPath(nodes: Nodes, p: Tuple, parent: Option<ColumnId>, n: ColumnId)
    requires Stands(nodes, p, parent) && Below(nodes, p, n)
    ensures PathOf(nodes, n)[|p|] in nodes && nodes[PathOf(nodes, n)[|p|]].pred == parent
  {
    var q := PathOf(nodes, n);
    assert LinkAt(nodes, q, |p|);
    assert |p| > 0 ==> q[|p| - 1] == p[|p| - 1];
  }

  /** Everything below a path hangs from one of its children. */
  lemma {:induction false} AllAreAmong(nodes: Nodes, p: Tuple, parent: Option<ColumnId>, cs: seq<ColumnId>, n: ColumnId)
    requires Stands(nodes, p, parent) && ListsChildren(nodes, parent, cs)
    ensures Among(nodes, p, cs, |cs|, n) <==> Below(nodes, p, n)
  {
    assert cs[..|cs|] == cs;
    if Below(nodes, p, n) {
      NextOnPath(nodes, p, parent, n);
    }
  }

  lemma {:induction false} ChildPath(nodes: Nodes, p: Tuple, parent: Option<ColumnId>, cs: seq<ColumnId>, i: nat)
    requires Stands(nodes, p, parent) && ListsChildren(nodes, parent, cs) && i < |cs|
    ensures PathTo(nodes, cs[i], p + [cs[i]]) && Rooted(nodes, cs[i]) && PathOf(nodes, cs[i]) == p + [cs[i]]
    ensures Stands(nodes, p + [cs[i]], Some(cs[i]))
  {
    assert cs[i] in cs;
    ChainExtends(nodes, p, cs[i]);
    PathIs(nodes, cs[i], p + [cs[i]]);
  }

  /** One more child adds that child and what is below it. */
  lemma {:induction false} AmongStep(nodes: Nodes, p: Tuple, parent: Option<ColumnId>, cs: seq<ColumnId>, i: nat,
                                     n: ColumnId)
    requires Stands(nodes, p, parent) && ListsChildren(nodes, parent, cs) && i < |cs|
    ensures Among(nodes, p, cs, i + 1, n) <==> Among(nodes, p, cs, i, n) || n == cs[i] || Below(nodes, p + [cs[i]], n)
    ensures Among(nodes, p, cs, i, n) ==> n != cs[i] && !Below(nodes, p + [cs[i]], n)
    ensures !Below(nodes, p + [cs[i]], cs[i])
  {
    var c := cs[i];
    ChildPath(nodes, p, parent, cs, i);
    assert cs[..i + 1] == cs[..i] + [c];
    assert c !in cs[..i] by {
      if c in cs[..i] {
        var j :| 0 <= j < i && cs[j] == c;
        LessIrreflexive(c);
      }
    }
    if Rooted(nodes, n) {
      var q := PathOf(nodes, n);
      if p < q && q[|p|] == c {
        assert p + [c] <= q;
        if q == p + [c] {
          assert q[|q| - 1] == c;
        }
      }
      if p + [c] < q {
        assert q[|p|] == (p + [c])[|p|] == c && p <= q;
      }
    }
  }

  /** Columns through an earlier child come before those through a later one. */
  lemma {:induction false} EarlierChildFirst(nodes: Nodes, p: Tuple, parent: Option<ColumnId>, cs: seq<ColumnId>,
                                             i: nat, a: ColumnId, b: ColumnId)
    requires Stands(nodes, p, parent) && ListsChildren(nodes, parent, cs) && i < |cs|
    requires Among(nodes, p, cs, i, a) && (b == cs[i] || Below(nodes, p + [cs[i]], b))
    ensures Rooted(nodes, b) && Before(nodes, a, b)
  {
    ChildPath(nodes, p, parent, cs, i);
    AmongStep(nodes, p, parent, cs, i, b);
    var x, y := PathOf(nodes, a), PathOf(nodes, b);
    assert y[|p|] == cs[i] by {
      assert (p + [cs[i]])[|p|] == cs[i];
    }
    var j :| 0 <= j < i && cs[j] == x[|p|];
    TuplesPart(p, x, y);
  }

  lemma {:induction false} ParentFirst(nodes: Nodes, p: Tuple, parent: Option<ColumnId>, cs: seq<ColumnId>, i: nat,
                                       b: ColumnId)
    requires Stands(nodes, p, parent) && ListsChildren(nodes, parent, cs) && i < |cs| && Below(nodes, p + [cs[i]], b)
    ensures Rooted(nodes, cs[i]) && Before(nodes, cs[i], b)
  {
    ChildPath(nodes, p, parent, cs, i);
    PrefixIsBefore(p + [cs[i]], PathOf(nodes, b));
  }

  /** Nothing below `p` has been visited yet. */
  ghost predicate Fresh(nodes: Nodes, p: Tuple, visited: set<ColumnId>) {
    forall n :: Below(nodes, p, n) ==> n !in visited
  }

  ghost predicate ListedBelow(nodes: Nodes, p: Tuple, out: seq<ColumnId>) {
    InOrder(nodes, out) && forall n :: n in out <==> n in nodes && nodes[n].active && Below(nodes, p, n)
  }

  /** The traversal of the first `i` children: what is visited and what is listed. */
  ghost predicate Walked(nodes: Nodes, p: Tuple, cs: seq<ColumnId>, i: nat, before: set<ColumnId>,
                         visited: set<ColumnId>, out: seq<ColumnId>)
    requires i <= |cs|
  {
    && (forall n :: n in visited <==> n in before || Among(nodes, p, cs, i, n))
    && InOrder(nodes, out)
    && forall n :: n in out <==> n in nodes && nodes[n].active && Among(nodes, p, cs, i, n)
  }

  lemma {:induction false} ChildIsFresh(nodes: Nodes, p: Tuple, parent: Option<ColumnId>, cs: seq<ColumnId>, i: nat,
                                        before: set<ColumnId>, visited: set<ColumnId>, out: seq<ColumnId>)
    requires Stands(nodes, p, parent) && ListsChildren(nodes, parent, cs) && i < |cs|
    requires Fresh(nodes, p, before) && Walked(nodes, p, cs, i, before, visited, out)
    ensures cs[i] !in visited && Fresh(nodes, p + [cs[i]], visited + {cs[i]})
  {
    ChildPath(nodes, p, parent, cs, i);
    AmongStep(nodes, p, parent, cs, i, cs[i]);
    AllAreAmong(nodes, p, parent, cs, cs[i]);
    forall n | Below(nodes, p + [cs[i]], n) ensures n !in visited + {cs[i]} {
      AmongStep(nodes, p, parent, cs, i, n);
      AllAreAmong(nodes, p, parent, cs, n);
    }
  }

  lemma {:induction false} InOrderConcat(nodes: Nodes, a: seq<ColumnId>, b: seq<ColumnId>)
    requires InOrder(nodes, a) && InOrder(nodes, b) && forall x, y :: x in a && y in b ==> Before(nodes, x, y)
    ensures InOrder(nodes, a + b)
  {
    var all := a + b;
    forall n | n in all ensures Rooted(nodes, n) {}
    forall i, j | 0 <= i < j < |all| ensures Before(nodes, all[i], all[j]) {
      if i < |a| <= j {
        assert a[i] in a && b[j - |a|] in b;
      }
    }
  }

  lemma {:induction false} SubtreeInOrder(nodes: Nodes, p: Tuple, parent: Option<ColumnId>, cs: seq<ColumnId>, i: nat,
                                          below: seq<ColumnId>)
    requires Stands(nodes, p, parent) && ListsChildren(nodes, parent, cs) && i < |cs|
             && ListedBelow(nodes, p + [cs[i]], below)
    ensures InOrder(nodes, [cs[i]] + below)
  {
    ChildPath(nodes, p, parent, cs, i);
    forall x, y | x in [cs[i]] && y in below ensures Before(nodes, x, y) {
      ParentFirst(nodes, p, parent, cs, i, y);
    }
    InOrderConcat(nodes, [cs[i]], below);
  }

  lemma {:induction false} WalkedStep(nodes: Nodes, p: Tuple, parent: Option<ColumnId>, cs: seq<ColumnId>, i: nat,
                                      before: set<ColumnId>, visited: set<ColumnId>, out: seq<ColumnId>,
                                      visited': set<ColumnId>, below: seq<ColumnId>)
    requires Stands(nodes, p, parent) && ListsChildren(nodes, parent, cs) && i < |cs| && cs[i] in nodes
    requires Walked(nodes, p, cs, i, before, visited, out)
    requires forall n :: n in visited' <==> n in visited || n == cs[i] || Below(nodes, p + [cs[i]], n)
    requires ListedBelow(nodes, p + [cs[i]], below)
    ensures Walked(nodes, p, cs, i + 1, before, visited', out + ((if nodes[cs[i]].active then [cs[i]] else []) + below))
  {
    var seg := (if nodes[cs[i]].active then [cs[i]] else []) + below;
    SubtreeInOrder(nodes, p, parent, cs, i, below);
    assert InOrder(nodes, seg) by {
      assert [] + below == below;
    }
    forall x, y | x in out && y in seg ensures Before(nodes, x, y) {
      EarlierChildFirst(nodes, p, parent, cs, i, x, y);
    }
    InOrderConcat(nodes, out, seg);
    forall n
      ensures Among(nodes, p, cs, i + 1, n) <==> Among(nodes, p, cs, i, n) || n == cs[i] || Below(nodes, p + [cs[i]], n)
    {
      AmongStep(nodes, p, parent, cs, i, n);
    }
  }

  method Visit(parent: Option<ColumnId>, nodes: Nodes, children: Children, before: set<ColumnId>, ghost p: Tuple)
    returns (ok: bool, visited: set<ColumnId>, out: seq<ColumnId>)
    requires ChildrenOk(nodes, children) && Stands(nodes, p, parent) && before <= nodes.Keys
    ensures before <= visited <= nodes.Keys
    ensures Fresh(nodes, p, before) ==>
              && ok && (forall n :: n in visited <==> n in before || Below(nodes, p, n))
              && ListedBelow(nodes, p, out)
    decreases nodes.Keys - before
  {
    var cs := ChildrenOf(children, parent);
    assert ListsChildren(nodes, parent, cs);
    visited, out := before, [];
    for i := 0 to |cs|
      invariant before <= visited <= nodes.Keys
      invariant Fresh(nodes, p, before) ==> Walked(nodes, p, cs, i, before, visited, out)
    {
      var column := cs[i];
      assert column in cs;
      if Fresh(nodes, p, before) {
        ChildIsFresh(nodes, p, parent, cs, i, before, visited, out);
      }
      if column in visited {
        return false, visited, out;
      }
      ChildPath(nodes, p, parent, cs, i);
      var deeper, after, below := Visit(Some(column), nodes, children, visited + {column}, p + [column]);
      if !deeper {
        return false, after, out;
      }
      if Fresh(nodes, p, before) {
        WalkedStep(nodes, p, parent, cs, i, before, visited, out, after, below);
      }
      visited, out := after, out + ((if nodes[column].active then [column] else []) + below);
    }
    forall n ensures Among(nodes, p, cs, |cs|, n) <==> Below(nodes, p, n) {
      AllAreAmong(nodes, p, parent, cs, n);
    }
    return true, visited, out;
  }

  // ----- building the graph -------------------------------------------------------------------

  datatype Row = Row(id: ColumnId, pred: Option<ColumnId>, name: Option<string>)

  datatype CatalogError = DuplicateIdentity | NoOrderingRoot | UnknownPredecessor | InvalidRoot | Cycle | Disconnected

  predicate Distinct(rows: seq<Row>) { forall i, j :: 0 <= i < j < |rows| ==> rows[i].id != rows[j].id }

  function NodesOf(rows: seq<Row>): Nodes {
    if rows == [] then map[]
    else
      var last := rows[|rows| - 1];
      NodesOf(rows[..|rows| - 1])[last.id := Node(last.pred, last.name.Some?)]
  }

  lemma {:induction false} NodesKeys(rows: seq<Row>, n: ColumnId)
    ensures n in NodesOf(rows) <==> exists i :: 0 <= i < |rows| && rows[i].id == n
  {
    if rows != [] {
      var front := rows[..|rows| - 1];
      NodesKeys(front, n);
      if i :| 0 <= i < |front| && front[i].id == n {
        assert rows[i].id == n;
      }
      if i :| 0 <= i < |rows| && rows[i].id == n {
        assert i < |front| ==> front[i].id == n;
      }
      assert rows[|rows| - 1].id == n ==> n in NodesOf(rows);
    }
  }

  /** Read the rows into a map; a repeated identity is an error. */
  method CollectNodes(rows: seq<Row>) returns (nodes: Option<Nodes>)
    ensures nodes.Some? <==> Distinct(rows)
    ensures nodes.Some? ==> nodes.value == NodesOf(rows)
  {
    var out: Nodes := map[];
    for i := 0 to |rows|
      invariant Distinct(rows[..i]) && out == NodesOf(rows[..i])
    {
      assert rows[..i + 1][..i] == rows[..i];
      NodesKeys(rows[..i], rows[i].id);
      if rows[i].id in out {
        ghost var j :| 0 <= j < i && rows[..i][j].id == rows[i].id;
        assert rows[j].id == rows[i].id;
        return None;
      }
      forall j | 0 <= j < i ensures rows[j].id != rows[i].id {
        assert rows[..i][j].id == rows[j].id;
      }
      out := out[rows[i].id := Node(rows[i].pred, rows[i].name.Some?)];
    }
    assert rows[..|rows|] == rows;
    return Some(out);
  }

  /** Insert into an ascending list. */
  method InsertSorted(cs: seq<ColumnId>, c: ColumnId) returns (out: seq<ColumnId>)
    requires Ascend(cs) && c !in cs
    ensures Ascend(out) && forall x :: x in out <==> x in cs || x == c
  {
    var i := 0;
    while i < |cs| && BytesLess(cs[i], c)
      invariant 0 <= i <= |cs|
      invariant forall j :: 0 <= j < i ==> BytesLess(cs[j], c)
    {
      i := i + 1;
    }
    out := cs[..i] + [c] + cs[i..];
    forall j | i <= j < |cs| ensures BytesLess(c, cs[j]) {
      LessTotal(c, cs[i]);
      assert cs[i] in cs;
      if j > i {
        LessTransitive(c, cs[i], cs[j]);
      }
    }
    assert cs == cs[..i] + cs[i..];
  }

  /** Sort a list of distinct siblings. */
  method SortSiblings(cs: seq<ColumnId>) returns (out: seq<ColumnId>)
    requires forall i, j :: 0 <= i < j < |cs| ==> cs[i] != cs[j]
    ensures Ascend(out) && forall x :: x in out <==> x in cs
  {
    out := [];
    for i := 0 to |cs|
      invariant Ascend(out) && forall x :: x in out <==> x in cs[..i]
    {
      assert cs[..i + 1] == cs[..i] + [cs[i]];
      out := InsertSorted(out, cs[i]);
    }
    assert cs[..|cs|] == cs;
  }

  /** Siblings gathered so far, in the order they were met. */
  ghost predicate Gathered(nodes: Nodes, seen: set<ColumnId>, children: Children) {
    && (forall parent :: parent in children ==> children[parent] != [])
    && (forall parent, i, j :: parent in children && 0 <= i < j < |children[parent]| ==>
      children[parent][i] != children[parent][j])
    && (forall parent, c :: c in ChildrenOf(children, parent) <==> c in seen && c in nodes && nodes[c].pred == parent)
  }

  /** Group the columns by predecessor, rejecting an unknown one. */
  method GatherChildren(nodes: Nodes) returns (children: Option<Children>)
    ensures children.Some? <==> PredsKnown(nodes)
    ensures children.Some? ==> Gathered(nodes, nodes.Keys, children.value)
  {
    var out: Children := map[];
    var seen: set<ColumnId> := {};
    while seen != nodes.Keys
      invariant seen <= nodes.Keys && Gathered(nodes, seen, out)
      invariant forall n :: n in seen && nodes[n].pred.Some? ==> nodes[n].pred.value in nodes
      decreases nodes.Keys - seen
    {
      SomethingLeft(nodes.Keys, seen);
      var column :| column in nodes && column !in seen;
      var pred := nodes[column].pred;
      if pred.Some? && pred.value !in nodes {
        return None;
      }
      GatherStep(nodes, seen, out, column);
      out := out[pred := ChildrenOf(out, pred) + [column]];
      seen := seen + {column};
    }
    return Some(out);
  }

  lemma {:induction false} GatherStep(nodes: Nodes, seen: set<ColumnId>, children: Children, column: ColumnId)
    requires Gathered(nodes, seen, children) && column in nodes && column !in seen
    ensures Gathered(nodes, seen + {column},
            children[nodes[column].pred := ChildrenOf(children, nodes[column].pred) + [column]])
  {
    var pred := nodes[column].pred;
    var next := children[pred := ChildrenOf(children, pred) + [column]];
    assert column !in ChildrenOf(children, pred);
    forall parent, c
      ensures c in ChildrenOf(next, parent) <==> c in seen + {column} && c in nodes && nodes[c].pred == parent
    {
      if parent != pred {
        assert ChildrenOf(next, parent) == ChildrenOf(children, parent);
      }
    }
  }

  method SortAll(children: Children, ghost nodes: Nodes) returns (sorted: Children)
    requires Gathered(nodes, nodes.Keys, children)
    ensures sorted.Keys == children.Keys && ChildrenOk(nodes, sorted)
  {
    sorted := map[];
    var rest := children.Keys;
    while rest != {}
      invariant rest <= children.Keys && sorted.Keys == children.Keys - rest
      invariant forall parent :: parent in sorted ==> Ascend(sorted[parent]) && forall x :: x in sorted[parent] <==>
                x in children[parent]
      decreases |rest|
    {
      var parent :| parent in rest;
      var cs := SortSiblings(children[parent]);
      sorted := sorted[parent := cs];
      rest := rest - {parent};
    }
    forall parent ensures ListsChildren(nodes, parent, ChildrenOf(sorted, parent)) {
      assert forall c :: c in ChildrenOf(sorted, parent) <==> c in ChildrenOf(children, parent);
    }
  }

  // ----- the whole operation -----------------------------------------------------------------

  lemma {:induction false} BelowNothing(nodes: Nodes, n: ColumnId)
    ensures Below(nodes, [], n) <==> Rooted(nodes, n)
    ensures Rooted(nodes, n) ==> n in nodes
  {
    if Rooted(nodes, n) {
      var p := PathOf(nodes, n);
      assert LinkAt(nodes, p, |p| - 1);
    }
  }

  ghost predicate SoleRoot(nodes: Nodes, root: ColumnId) {
    IsRoot(nodes, root) && forall n :: IsRoot(nodes, n) ==> n == root
  }

  lemma {:induction false} RootsListed(nodes: Nodes, roots: seq<ColumnId>, root: ColumnId)
    requires ListsChildren(nodes, None, roots) && SoleRoot(nodes, root)
    ensures |roots| == 1
  {
    assert root in roots;
    if |roots| > 1 {
      assert roots[0] in roots && roots[1] in roots;
      assert IsRoot(nodes, roots[0]) && IsRoot(nodes, roots[1]);
      LessIrreflexive(root);
    }
  }

  lemma {:induction false} OneRoot(nodes: Nodes, roots: seq<ColumnId>)
    requires ListsChildren(nodes, None, roots)
    ensures |roots| == 1 <==> exists root :: SoleRoot(nodes, root)
  {
    if root :| SoleRoot(nodes, root) {
      RootsListed(nodes, roots, root);
    }
    if |roots| == 1 {
      assert roots[0] in roots;
      forall n | IsRoot(nodes, n) ensures n == roots[0] {
        assert n in roots;
      }
      assert SoleRoot(nodes, roots[0]);
    }
  }

  lemma {:induction false} AllVisited(all: set<ColumnId>, visited: set<ColumnId>)
    requires visited <= all
    ensures |visited| == |all| <==> visited == all
  {
    assert |all| == |visited| + |all - visited|;
  }

  /** What is wrong with a graph, if anything. A cycle hangs from no root, so it shows as a disconnected graph. */
  ghost function GraphFault(nodes: Nodes): Option<CatalogError> {
    if nodes == map[] then Some(NoOrderingRoot)
    else if !PredsKnown(nodes) then Some(UnknownPredecessor)
    else if !exists root :: SoleRoot(nodes, root) then Some(InvalidRoot)
    else if !AllRooted(nodes) || !HasActive(nodes) then Some(Disconnected)
    else None
  }

  ghost function RowsFault(rows: seq<Row>): Option<CatalogError> {
    if !Distinct(rows) then Some(DuplicateIdentity) else GraphFault(NodesOf(rows))
  }

  lemma {:induction false} NoFaultIffTree(nodes: Nodes)
    ensures GraphFault(nodes).None? <==> IsTree(nodes) && HasActive(nodes)
  {
    if root :| SoleRoot(nodes, root) {
      assert IsRoot(nodes, root);
    }
  }

  lemma {:induction false} NoNodesIffNoRows(rows: seq<Row>)
    ensures NodesOf(rows) == map[] <==> rows == []
  {
    if rows != [] {
      assert rows[|rows| - 1].id in NodesOf(rows);
    }
  }

  /** Linearize the columns of a table. */
  method ColumnOrder(rows: seq<Row>) returns (r: Result<seq<ColumnId>, CatalogError>)
    ensures r.Ok? <==> Distinct(rows) && IsTree(NodesOf(rows)) && HasActive(NodesOf(rows))
    ensures r.Ok? ==> Linearizes(NodesOf(rows), r.value)
    ensures r.Err? ==> RowsFault(rows) == Some(r.error)
    ensures r.Err? ==>
              && (r.error == DuplicateIdentity <==> !Distinct(rows))
              && (r.error == NoOrderingRoot <==> rows == [])
              && (r.error == UnknownPredecessor ==> !PredsKnown(NodesOf(rows)))
              && (r.error == InvalidRoot ==> PredsKnown(NodesOf(rows)) && !exists root :: SoleRoot(NodesOf(rows), root))
              && (r.error == Disconnected ==> !AllRooted(NodesOf(rows)) || !HasActive(NodesOf(rows)))
              && r.error != Cycle
  {
    NoNodesIffNoRows(rows);
    var collected := CollectNodes(rows);
    if collected.None? {
      return Err(DuplicateIdentity);
    }
    r := OrderNodes(collected.value);
  }

  method Traverse(nodes: Nodes, children: Children) returns (ok: bool, visited: set<ColumnId>, active: seq<ColumnId>)
    requires ChildrenOk(nodes, children)
    ensures ok && visited <= nodes.Keys && forall n :: n in visited <==> Rooted(nodes, n)
    ensures InOrder(nodes, active) && forall n :: n in active <==> n in nodes && nodes[n].active && Rooted(nodes, n)
  {
    ok, visited, active := Visit(None, nodes, children, {}, []);
    forall n ensures (Below(nodes, [], n) <==> Rooted(nodes, n)) && (Rooted(nodes, n) ==> n in nodes) {
      BelowNothing(nodes, n);
    }
  }

  lemma {:induction false} DisconnectedIff(nodes: Nodes, visited: set<ColumnId>, active: seq<ColumnId>)
    requires visited <= nodes.Keys && forall n :: n in visited <==> Rooted(nodes, n)
    requires forall n :: n in active <==> n in nodes && nodes[n].active && Rooted(nodes, n)
    ensures |visited| != |nodes| || active == [] <==> !AllRooted(nodes) || !HasActive(nodes)
  {
    AllVisited(nodes.Keys, visited);
    if active != [] {
      assert active[0] in active;
    }
    if AllRooted(nodes) && HasActive(nodes) {
      var n :| n in nodes && nodes[n].active;
      assert Rooted(nodes, n) && n in active;
    }
  }

  method OrderNodes(nodes: Nodes) returns (r: Result<seq<ColumnId>, CatalogError>)
    ensures r.Ok? <==> IsTree(nodes) && HasActive(nodes)
    ensures r.Ok? ==> Linearizes(nodes, r.value)
    ensures r.Err? ==> GraphFault(nodes) == Some(r.error)
  {
    NoFaultIffTree(nodes);
    if nodes == map[] {
      return Err(NoOrderingRoot);
    }
    var gathered := GatherChildren(nodes);
    if gathered.None? {
      return Err(UnknownPredecessor);
    }
    var children := SortAll(gathered.value, nodes);
    assert ListsChildren(nodes, None, ChildrenOf(children, None));
    OneRoot(nodes, ChildrenOf(children, None));
    if |ChildrenOf(children, None)| != 1 {
      return Err(InvalidRoot);
    }
    var ok, visited, active := Traverse(nodes, children);
    DisconnectedIff(nodes, visited, active);
    r := if !ok then Err(Cycle) else if |visited| != |nodes| || active == [] then Err(Disconnected) else Ok(active);
  }

  // ----- what the order is good for ---------------------------------------------------------

  lemma {:induction false} RowIsNode(rows: seq<Row>, i: nat)
    requires Distinct(rows) && i < |rows|
    ensures rows[i].id in NodesOf(rows) && NodesOf(rows)[rows[i].id] == Node(rows[i].pred, rows[i].name.Some?)
  {
    if i < |rows| - 1 {
      RowIsNode(rows[..|rows| - 1], i);
      assert rows[|rows| - 1].id != rows[i].id;
    }
  }

  /** The graph depends only on which rows there are, not on the order they were read in. */
  lemma {:induction false} GraphIsOfTheSet(a: seq<Row>, b: seq<Row>)
    requires Distinct(a) && Distinct(b) && forall row :: row in a <==> row in b
    ensures NodesOf(a) == NodesOf(b)
  {
    forall n ensures n in NodesOf(a) <==> n in NodesOf(b) {
      NodesKeys(a, n);
      NodesKeys(b, n);
      if i :| 0 <= i < |a| && a[i].id == n {
        assert a[i] in b;
      }
      if i :| 0 <= i < |b| && b[i].id == n {
        assert b[i] in a;
      }
    }
    forall n | n in NodesOf(a) ensures NodesOf(a)[n] == NodesOf(b)[n] {
      NodesKeys(a, n);
      var i :| 0 <= i < |a| && a[i].id == n;
      assert a[i] in b;
      var j :| 0 <= j < |b| && b[j] == a[i];
      RowIsNode(a, i);
      RowIsNode(b, j);
    }
  }

  /** Any two tables with the same rows list their columns in the same order. */
  lemma {:induction false} SameRowsSameOrder(a: seq<Row>, b: seq<Row>, x: seq<ColumnId>, y: seq<ColumnId>)
    requires Distinct(a) && Distinct(b) && forall row :: row in a <==> row in b
    requires Linearizes(NodesOf(a), x) && Linearizes(NodesOf(b), y)
    ensures x == y
  {
    GraphIsOfTheSet(a, b);
    OrderIsUnique(NodesOf(a), x, y);
  }

  /** Adding a column, or changing which columns are active, moves no path. */
  ghost predicate Extends(nodes: Nodes, more: Nodes) {
    forall n :: n in nodes ==> n in more && more[n].pred == nodes[n].pred
  }

  lemma {:induction false} PathsAreStable(nodes: Nodes, more: Nodes, n: ColumnId)
    requires Extends(nodes, more) && Rooted(nodes, n)
    ensures Rooted(more, n) && PathOf(more, n) == PathOf(nodes, n)
  {
    var p := PathOf(nodes, n);
    forall i | 0 <= i < |p| ensures LinkAt(more, p, i) {
      assert LinkAt(nodes, p, i);
    }
    PathIs(more, n, p);
  }

  lemma {:induction false} OrderIsStable(nodes: Nodes, more: Nodes, out: seq<ColumnId>)
    requires Extends(nodes, more) && forall n :: n in out ==> Rooted(nodes, n)
    ensures InOrder(more, out) <==> InOrder(nodes, out)
  {
    forall n | n in out ensures Rooted(more, n) && PathOf(more, n) == PathOf(nodes, n) {
      PathsAreStable(nodes, more, n);
    }
    if InOrder(more, out) {
      forall i, j | 0 <= i < j < |out| ensures Before(nodes, out[i], out[j]) {
        assert Before(more, out[i], out[j]) && out[i] in out && out[j] in out;
      }
    }
    if InOrder(nodes, out) {
      forall i, j | 0 <= i < j < |out| ensures Before(more, out[i], out[j]) {
        assert Before(nodes, out[i], out[j]) && out[i] in out && out[j] in out;
      }
    }
  }

  function Without(out: seq<ColumnId>, c: ColumnId): seq<ColumnId> {
    if out == [] then []
    else if out[0] == c then Without(out[1..], c)
    else [out[0]] + Without(out[1..], c)
  }

  lemma {:induction false} WithoutMembers(out: seq<ColumnId>, c: ColumnId)
    ensures forall n :: n in Without(out, c) <==> n in out && n != c
  {
    if out != [] {
      WithoutMembers(out[1..], c);
      assert out == [out[0]] + out[1..];
    }
  }

  lemma {:induction false} WithoutInOrder(nodes: Nodes, out: seq<ColumnId>, c: ColumnId)
    requires InOrder(nodes, out)
    ensures InOrder(nodes, Without(out, c))
  {
    if out != [] {
      InOrderTail(nodes, out);
      WithoutInOrder(nodes, out[1..], c);
      if out[0] != c {
        WithoutMembers(out[1..], c);
        assert out[0] in out;
        forall x, y | x in [out[0]] && y in Without(out[1..], c) ensures Before(nodes, x, y) {
          var j :| 0 <= j < |out[1..]| && out[1..][j] == y;
          assert Before(nodes, out[0], out[j + 1]);
        }
        InOrderConcat(nodes, [out[0]], Without(out[1..], c));
      }
    }
  }

  /** A column added after a known one joins the tree. */
  lemma {:induction false} AddingKeepsTree(nodes: Nodes, c: ColumnId, pred: ColumnId)
    requires IsTree(nodes) && c !in nodes && pred in nodes
    ensures IsTree(nodes[c := Node(Some(pred), true)])
  {
    var more := nodes[c := Node(Some(pred), true)];
    forall n | n in nodes ensures Rooted(more, n) {
      PathsAreStable(nodes, more, n);
    }
    ChainExtends(more, PathOf(more, pred), c);
    PathIs(more, c, PathOf(more, pred) + [c]);
    var root :| SoleRoot(nodes, root);
    assert IsRoot(more, root);
    forall n | IsRoot(more, n) ensures n == root {
      assert IsRoot(nodes, n);
    }
    assert SoleRoot(more, root);
  }

  /** Adding a column keeps the relative order of all the others. */
  lemma {:induction false} AddingKeepsOrder(nodes: Nodes, c: ColumnId, pred: ColumnId, before: seq<ColumnId>,
                                            after: seq<ColumnId>)
    requires IsTree(nodes) && c !in nodes && pred in nodes
    requires Linearizes(nodes, before) && Linearizes(nodes[c := Node(Some(pred), true)], after)
    ensures Without(after, c) == before
  {
    var more := nodes[c := Node(Some(pred), true)];
    WithoutMembers(after, c);
    WithoutInOrder(more, after, c);
    OrderIsStable(nodes, more, before);
    OrderIsUnique(more, Without(after, c), before);
  }

  /** Retiring a column removes it and moves nothing. */
  lemma {:induction false} RetiringKeepsOrder(nodes: Nodes, c: ColumnId, before: seq<ColumnId>, after: seq<ColumnId>)
    requires IsTree(nodes) && c in nodes && nodes[c].active
    requires Linearizes(nodes, before) && Linearizes(nodes[c := nodes[c].(active := false)], after)
    ensures Without(before, c) == after
  {
    var less := nodes[c := nodes[c].(active := false)];
    WithoutMembers(before, c);
    WithoutInOrder(nodes, before, c);
    OrderIsStable(nodes, less, Without(before, c));
    OrderIsUnique(less, Without(before, c), after);
  }

  lemma {:induction false} PlaceInOrder(nodes: Nodes, out: seq<ColumnId>, k: nat, l: nat)
    requires InOrder(nodes, out) && k < |out| && l < |out|
    ensures out[k] in out && out[l] in out && (Before(nodes, out[k], out[l]) ==> k < l)
  {
    assert out[k] in out && out[l] in out;
    TupleOrder(PathOf(nodes, out[k]), PathOf(nodes, out[l]), PathOf(nodes, out[k]));
    assert l < k ==> Before(nodes, out[l], out[k]);
  }

  /** However a table grows, and whatever is retired or restored, two columns never swap places. */
  lemma {:induction false} RelativeOrderIsPermanent(nodes: Nodes, more: Nodes, before: seq<ColumnId>,
                                                    after: seq<ColumnId>, i: nat, j: nat, k: nat, l: nat)
    requires Extends(nodes, more) && Linearizes(nodes, before) && Linearizes(more, after)
    requires i < j < |before| && k < |after| && l < |after| && before[i] == after[k] && before[j] == after[l]
    ensures k < l
  {
    assert before[i] in before && before[j] in before;
    assert Before(nodes, before[i], before[j]);
    PathsAreStable(nodes, more, before[i]);
    PathsAreStable(nodes, more, before[j]);
    PlaceInOrder(more, after, k, l);
  }

  // ----- the table -----------------------------------------------------------------------------

  datatype Binding = Binding(pred: Option<ColumnId>, name: Option<string>)

  function Retired(rows: map<ColumnId, Binding>, c: ColumnId): map<ColumnId, Binding>
    requires c in rows
  {
    rows[c := rows[c].(name := None)]
  }

  function Restored(rows: map<ColumnId, Binding>, c: ColumnId, name: string): map<ColumnId, Binding>
    requires c in rows
  {
    rows[c := rows[c].(name := Some(name))]
  }

  function GraphOf(rows: map<ColumnId, Binding>): Nodes {
    map n | n in rows :: Node(rows[n].pred, rows[n].name.Some?)
  }

  /** The rows of a table, read in some order. */
  ghost predicate Reads(rows: map<ColumnId, Binding>, listed: seq<Row>) {
    && Distinct(listed)
    && forall row :: row in listed <==> row.id in rows && rows[row.id] == Binding(row.pred, row.name)
  }

  /** The graph that linearization builds from the rows is the table's graph. */
  lemma {:induction false} ReadGraph(rows: map<ColumnId, Binding>, listed: seq<Row>)
    requires Reads(rows, listed)
    ensures NodesOf(listed) == GraphOf(rows)
  {
    forall n ensures n in NodesOf(listed) <==> n in rows {
      NodesKeys(listed, n);
      if i :| 0 <= i < |listed| && listed[i].id == n {
        assert listed[i] in listed;
      }
      if n in rows {
        assert Row(n, rows[n].pred, rows[n].name) in listed;
      }
    }
    forall n | n in NodesOf(listed) ensures NodesOf(listed)[n] == GraphOf(rows)[n] {
      var row := Row(n, rows[n].pred, rows[n].name);
      assert row in listed;
      var i :| 0 <= i < |listed| && listed[i] == row;
      RowIsNode(listed, i);
    }
  }

  lemma {:induction false} SameGraph(rows: map<ColumnId, Binding>, c: ColumnId, name: string)
    requires c in rows && rows[c].name.Some?
    ensures GraphOf(Restored(Retired(rows, c), c, name)) == GraphOf(rows)
  {}

  /**
   Retiring a column and restoring it, under whatever name, gives back the same column
   order however the rows are read, and under the old name the same table.
   */
  lemma {:induction false} RestoreUndoesRetire(rows: map<ColumnId, Binding>, c: ColumnId, name: string,
                                               a: seq<Row>, b: seq<Row>, before: seq<ColumnId>, after: seq<ColumnId>)
    requires c in rows && rows[c].name.Some?
    requires Reads(rows, a) && Reads(Restored(Retired(rows, c), c, name), b)
    requires Linearizes(NodesOf(a), before) && Linearizes(NodesOf(b), after)
    ensures before == after
    ensures Some(name) == rows[c].name ==> Restored(Retired(rows, c), c, name) == rows
  {
    var again := Restored(Retired(rows, c), c, name);
    ReadGraph(rows, a);
    ReadGraph(again, b);
    SameGraph(rows, c, name);
    OrderIsUnique(GraphOf(rows), before, after);
  }

  /** The column rows of one table. */
  class ColumnTable {
    var rows: map<ColumnId, Binding>

    constructor (root: ColumnId, name: string)
      ensures rows == map[root := Binding(None, Some(name))]
    {
      rows := map[root := Binding(None, Some(name))];
    }

    function Graph(): Nodes
      reads this
    {
      GraphOf(rows)
    }

    /** The rows, in no particular order. */
    method Select() returns (listed: seq<Row>)
      ensures Reads(rows, listed)
    {
      listed := [];
      var rest := rows.Keys;
      while rest != {}
        invariant rest <= rows.Keys && Distinct(listed)
        invariant forall row :: row in listed <==>
                  row.id in rows && row.id !in rest && rows[row.id] == Binding(row.pred, row.name)
        decreases |rest|
      {
        var c :| c in rest;
        assert forall i :: 0 <= i < |listed| ==> listed[i] in listed;
        listed := listed + [Row(c, rows[c].pred, rows[c].name)];
        rest := rest - {c};
      }
    }

    /** The table's columns in order. */
    method Order() returns (r: Result<seq<ColumnId>, CatalogError>)
      ensures r.Ok? <==> IsTree(Graph()) && HasActive(Graph())
      ensures r.Ok? ==> Linearizes(Graph(), r.value)
      ensures r.Err? ==> GraphFault(Graph()) == Some(r.error)
    {
      var listed := Select();
      ReadGraph(rows, listed);
      r := ColumnOrder(listed);
    }

    method Insert(c: ColumnId, pred: ColumnId, name: string) returns (ok: bool)
      modifies this
      ensures ok <==> c !in old(rows)
      ensures rows == if ok then old(rows)[c := Binding(Some(pred), Some(name))] else old(rows)
      ensures ok ==> Graph() == old(Graph())[c := Node(Some(pred), true)]
      ensures Extends(old(Graph()), Graph())
    {
      if c in rows {
        return false;
      }
      rows := rows[c := Binding(Some(pred), Some(name))];
      return true;
    }

    /** A retired column keeps its place but loses its name. */
    method Retire(c: ColumnId) returns (ok: bool)
      modifies this
      ensures ok <==> c in old(rows) && old(rows)[c].name.Some?
      ensures rows == if ok then Retired(old(rows), c) else old(rows)
      ensures ok ==> Graph() == old(Graph())[c := old(Graph())[c].(active := false)]
      ensures Extends(old(Graph()), Graph())
    {
      if c !in rows || rows[c].name.None? {
        return false;
      }
      rows := rows[c := rows[c].(name := None)];
      return true;
    }

    method Restore(c: ColumnId, name: string) returns (ok: bool)
      modifies this
      ensures ok <==> c in old(rows) && old(rows)[c].name.None?
      ensures rows == if ok then Restored(old(rows), c, name) else old(rows)
      ensures ok ==> Graph() == old(Graph())[c := old(Graph())[c].(active := true)]
      ensures Extends(old(Graph()), Graph())
    {
      if c !in rows || rows[c].name.Some? {
        return false;
      }
      rows := rows[c := rows[c].(name := Some(name))];
      return true;
    }
  }
}
