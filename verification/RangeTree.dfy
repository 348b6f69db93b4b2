/**
 The augmented range tree of one space (server/src/schema.rs, server/src/space/data.rs).

 A range delete writes one tombstone and touches only the aggregates on its own
 path. Counts below it go stale and are read through `epoch`. This module gives
 the materialized state as a value, the effect of one admitted operation on it,
 and the proof that the lazily maintained state always agrees with a plain map.
 */
module RangeTree {
  import opened Types
  import opened DeviceHeads

  // ----- the hierarchy of ranges ---------------------------------------------

  function Depth(r: Range): nat {
    match r
    case Full => 0
    case Prefix(k) => |k|
  }

  function Ancestor(r: Range, depth: nat): Range
    requires depth <= Depth(r)
  {
    if depth == 0 then Full else Prefix(r.prefix[..depth])
  }

  /** Full followed by every component-wise ancestor through the range itself. */
  function AggregatePath(r: Range): (path: seq<Range>)
    ensures |path| == Depth(r) + 1 && path[|path| - 1] == r
  {
    seq(Depth(r) + 1, d requires 0 <= d <= Depth(r) => Ancestor(r, d))
  }

  lemma {:induction false} PathIsCovering(n: Range, r: Range)
    ensures n in AggregatePath(r) <==> n.CoversRange(r)
  {
    if n.CoversRange(r) {
      assert AggregatePath(r)[Depth(n)] == n;
    }
  }

  /** `n` is among the first `i` nodes on the path to `r`. */
  predicate Done(n: Range, r: Range, i: nat) { n.CoversRange(r) && Depth(n) < i }

  lemma {:induction false} NextNode(r: Range, i: nat, n: Range)
    requires i <= Depth(r)
    ensures Done(n, r, i + 1) <==> Done(n, r, i) || n == Ancestor(r, i)
    ensures i < Depth(r) <==> Ancestor(r, i) != r
    ensures !Done(Ancestor(r, i), r, i)
  {}

  lemma {:induction false} AllDone(r: Range, n: Range)
    ensures Done(n, r, Depth(r) + 1) <==> n.CoversRange(r)
  {}

  /** Two ranges over one key are comparable. */
  lemma {:induction false} CoversOfOneKeyCompare(a: Range, b: Range, k: Key)
    requires a.CoversKey(k) && b.CoversKey(k)
    ensures a.Overlaps(b)
  {
    if a.Prefix? && b.Prefix? {
      var p, q := a.prefix, b.prefix;
      assert p == k[..|p|] && q == k[..|q|];
      if |p| <= |q| {
        assert p == q[..|p|];
      } else {
        assert q == p[..|q|];
      }
    }
  }

  // ----- materialized state ----------------------------------------------------

  /** Latest tombstone at one exact range, with the history of that exact target. */
  datatype RangeRecord = RangeRecord(entry: AdmittedEntry, heads: Heads, maxVer: nat)

  datatype NodeMeta = NodeMeta(heads: Heads, maxVer: nat, liveCount: int, epoch: AdmissionOrder)

  const EMPTY_NODE := NodeMeta(EMPTY_HEADS, 0, 0, AdmissionOrder(0, 0))

  datatype Tree = Tree(points: map<Key, AdmittedEntry>, tombs: map<Range, RangeRecord>, nodes: map<Range, NodeMeta>)
  {
    function Node(n: Range): NodeMeta { if n in nodes then nodes[n] else EMPTY_NODE }
  }

  const EMPTY_TREE := Tree(map[], map[], map[])

  function Seen(e: AdmittedEntry): DeviceAdmission { DeviceAdmission(e.Device(), e.order.admissionSeq) }

  function NewRecord(e: AdmittedEntry): RangeRecord {
    RangeRecord(e, Observe(EMPTY_HEADS, Seen(e)), e.Ver())
  }

  function ObserveRecord(rec: RangeRecord, e: AdmittedEntry): RangeRecord {
    RangeRecord(
      if rec.entry.order.Less(e.order) then e else rec.entry,
      Observe(rec.heads, Seen(e)),
      Max(rec.maxVer, e.Ver()))
  }

  /** Some covering tombstone is newer than the epoch of a count taken at `n`. */
  predicate Stale(tombs: map<Range, RangeRecord>, n: Range, epoch: AdmissionOrder) {
    exists r :: r in tombs && r.CoversRange(n) && epoch.Less(tombs[r].entry.order)
  }

  /** How a reader interprets the count stored at `n`. */
  function EffectiveCount(t: Tree, n: Range): int {
    if Stale(t.tombs, n, t.Node(n).epoch) then 0 else t.Node(n).liveCount
  }

  /** A point is live when it is a Set newer than every tombstone covering its key. */
  predicate Visible(points: map<Key, AdmittedEntry>, tombs: map<Range, RangeRecord>, k: Key) {
    && k in points
    && points[k].Mutation().Set?
    && forall r :: r in tombs && r.CoversKey(k) ==> tombs[r].entry.order.Less(points[k].order)
  }

  function VisibleUnder(points: map<Key, AdmittedEntry>, tombs: map<Range, RangeRecord>, n: Range): set<Key> {
    set k | k in points && n.CoversKey(k) && Visible(points, tombs, k)
  }

  // ----- one admitted operation ------------------------------------------------

  function Bit(b: bool): int { if b then 1 else 0 }

  /** The count the write path leaves at a node on the operation's path. */
  function CountAfter(t: Tree, e: AdmittedEntry, n: Range): int {
    match e.Mutation()
    case Set(k, _) => EffectiveCount(t, n) + 1 - Bit(Visible(t.points, t.tombs, k))
    case Delete(k) => EffectiveCount(t, n) - Bit(Visible(t.points, t.tombs, k))
    case DeleteRange(r) => if n == r then 0 else EffectiveCount(t, n) - EffectiveCount(t, r)
  }

  function PointsAfter(points: map<Key, AdmittedEntry>, e: AdmittedEntry): map<Key, AdmittedEntry> {
    match e.Mutation()
    case Set(k, _) => points[k := e]
    case Delete(k) => points[k := e]
    case DeleteRange(_) => points
  }

  function TombsAfter(tombs: map<Range, RangeRecord>, e: AdmittedEntry): map<Range, RangeRecord> {
    match e.Mutation()
    case DeleteRange(r) => tombs[r := if r in tombs then ObserveRecord(tombs[r], e) else NewRecord(e)]
    case _ => tombs
  }

  function Touched(m: NodeMeta, e: AdmittedEntry, count: int): NodeMeta {
    NodeMeta(Observe(m.heads, Seen(e)), Max(m.maxVer, e.Ver()), count, e.order)
  }

  function PathSet(r: Range): set<Range> { set n | n in AggregatePath(r) }

  function NodesAfter(t: Tree, e: AdmittedEntry, path: set<Range>): map<Range, NodeMeta> {
    map n | n in t.nodes.Keys + path ::
      if n in path then Touched(t.Node(n), e, CountAfter(t, e, n)) else t.nodes[n]
  }

  /** The incremental write path: only nodes on the operation's own path change. */
  function Apply(t: Tree, e: AdmittedEntry): Tree {
    Tree(PointsAfter(t.points, e), TombsAfter(t.tombs, e), NodesAfter(t, e, PathSet(e.Mutation().Target())))
  }

  /** The audit's replay: the same records, but every touched count is recomputed by brute force. */
  function AuditApply(t: Tree, e: AdmittedEntry): Tree {
    Tree(PointsAfter(t.points, e), TombsAfter(t.tombs, e),
         AuditNodes(t, e, PathSet(e.Mutation().Target()), PointsAfter(t.points, e), TombsAfter(t.tombs, e)))
  }

  function AuditNodes(t: Tree, e: AdmittedEntry, path: set<Range>,
                      points: map<Key, AdmittedEntry>, tombs: map<Range, RangeRecord>): map<Range, NodeMeta>
  {
    map n | n in t.nodes.Keys + path ::
      if n in path then Touched(t.Node(n), e, |VisibleUnder(points, tombs, n)|) else t.nodes[n]
  }

  function Materialize(h: seq<AdmittedEntry>): Tree {
    if h == [] then EMPTY_TREE else Apply(Materialize(h[..|h| - 1]), h[|h| - 1])
  }

  function Audit(h: seq<AdmittedEntry>): Tree {
    if h == [] then EMPTY_TREE else AuditApply(Audit(h[..|h| - 1]), h[|h| - 1])
  }

  // ----- the reference: a plain map -------------------------------------------

  /** What Set, Delete and DeleteRange mean on a plain map. */
  function Effect(m: map<Key, Bytes>, mutation: Mutation): map<Key, Bytes> {
    match mutation
    case Set(k, v) => m[k := v]
    case Delete(k) => m - {k}
    case DeleteRange(r) => map k | k in m && !r.CoversKey(k) :: m[k]
  }

  /** A history applied eagerly, in admission order. */
  function Eager(h: seq<AdmittedEntry>): map<Key, Bytes> {
    if h == [] then map[] else Effect(Eager(h[..|h| - 1]), h[|h| - 1].Mutation())
  }

  function Under(m: map<Key, Bytes>, n: Range): set<Key> {
    set k | k in m && n.CoversKey(k)
  }

  /** Admission histories: sequence numbers start at 1 and orders strictly increase. */
  predicate Ordered(h: seq<AdmittedEntry>) {
    && (forall i :: 0 <= i < |h| ==> h[i].order.admissionSeq >= 1)
    && (forall i, j :: 0 <= i < j < |h| ==> h[i].order.Less(h[j].order))
  }

  // ----- the invariant -----------------------------------------------------------

  /** Everything stored comes from the history. */
  ghost predicate Sourced(t: Tree, h: seq<AdmittedEntry>) {
    && (forall k :: k in t.points ==> t.points[k] in h && t.points[k].Mutation().Target() == Prefix(k))
    && (forall r :: r in t.tombs ==> t.tombs[r].entry in h)
    && (forall n :: n in t.nodes ==> exists e :: e in h && e.order == t.nodes[n].epoch)
  }

  ghost predicate PointsAgree(t: Tree, m: map<Key, Bytes>) {
    forall k: Key ::
      && (Visible(t.points, t.tombs, k) <==> k in m)
      && (k in m ==> t.points[k].Mutation() == Set(k, m[k]))
  }

  ghost predicate CountsAgree(t: Tree, m: map<Key, Bytes>) {
    forall n :: EffectiveCount(t, n) == |Under(m, n)|
  }

  ghost predicate Agrees(t: Tree, h: seq<AdmittedEntry>) {
    Sourced(t, h) && PointsAgree(t, Eager(h)) && CountsAgree(t, Eager(h))
  }

  /** Every order stored in `t` precedes `o`. */
  ghost predicate Precedes(t: Tree, o: AdmissionOrder) {
    && o.admissionSeq >= 1
    && (forall k :: k in t.points ==> t.points[k].order.Less(o) && t.points[k].Mutation().Target() == Prefix(k))
    && (forall r :: r in t.tombs ==> t.tombs[r].entry.order.Less(o))
    && (forall n :: t.Node(n).epoch.Less(o))
  }

  lemma {:induction false} SourcedPrecedes(t: Tree, h: seq<AdmittedEntry>, e: AdmittedEntry)
    requires Sourced(t, h) && Ordered(h + [e])
    ensures Precedes(t, e.order)
  {
    var g := h + [e];
    assert g[|h|] == e;
    forall x | x in h ensures x.order.Less(e.order) {
      var i :| 0 <= i < |h| && h[i] == x;
      assert g[i] == x;
    }
  }

  lemma {:induction false} SourcedStep(t: Tree, h: seq<AdmittedEntry>, e: AdmittedEntry)
    requires Sourced(t, h)
    ensures Sourced(Apply(t, e), h + [e])
  {
    var t', g := Apply(t, e), h + [e];
    assert e in g;
    assert forall x :: x in h ==> x in g;
    forall n | n in t'.nodes ensures exists x :: x in g && x.order == t'.nodes[n].epoch {
      if n in PathSet(e.Mutation().Target()) {
        assert t'.nodes[n].epoch == e.order;
      } else {
        var x :| x in h && x.order == t.nodes[n].epoch;
        assert x in g;
      }
    }
  }

  lemma {:induction false} EagerStep(h: seq<AdmittedEntry>, e: AdmittedEntry)
    ensures Eager(h + [e]) == Effect(Eager(h), e.Mutation())
  {
    assert (h + [e])[..|h|] == h;
  }

  lemma {:induction false} VisibleStep(t: Tree, e: AdmittedEntry, k: Key)
    requires Precedes(t, e.order)
    ensures var t' := Apply(t, e);
      Visible(t'.points, t'.tombs, k) ==
      match e.Mutation()
      case Set(x, _) => k == x || Visible(t.points, t.tombs, k)
      case Delete(x) => k != x && Visible(t.points, t.tombs, k)
      case DeleteRange(r) => !r.CoversKey(k) && Visible(t.points, t.tombs, k)
  {
    var t' := Apply(t, e);
    if e.Mutation().DeleteRange? {
      var r := e.Mutation().range;
      assert t'.tombs[r].entry == e;
      if r.CoversKey(k) && k in t.points {
        assert t.points[k].order.Less(e.order);
        assert !e.order.Less(t.points[k].order);
      }
      assert forall x :: x in t.tombs ==> x in t'.tombs && (x != r ==> t'.tombs[x] == t.tombs[x]);
    } else {
      assert t'.tombs == t.tombs;
    }
  }

  lemma {:induction false} PointsAgreeStep(t: Tree, h: seq<AdmittedEntry>, e: AdmittedEntry)
    requires Precedes(t, e.order) && PointsAgree(t, Eager(h))
    ensures PointsAgree(Apply(t, e), Eager(h + [e]))
  {
    EagerStep(h, e);
    forall k: Key
      ensures Visible(Apply(t, e).points, Apply(t, e).tombs, k) <==> k in Eager(h + [e])
      ensures k in Eager(h + [e]) ==> Apply(t, e).points[k].Mutation() == Set(k, Eager(h + [e])[k])
    {
      VisibleStep(t, e, k);
    }
  }

  lemma {:induction false} TombsAfterStep(tombs: map<Range, RangeRecord>, e: AdmittedEntry, r: Range)
    requires forall x :: x in tombs ==> tombs[x].entry.order.Less(e.order)
    ensures e.Mutation() == DeleteRange(r) ==> r in TombsAfter(tombs, e) && TombsAfter(tombs, e)[r].entry == e
    ensures e.Mutation() != DeleteRange(r) ==> (r in tombs <==> r in TombsAfter(tombs, e))
    ensures e.Mutation() != DeleteRange(r) && r in tombs ==> TombsAfter(tombs, e)[r] == tombs[r]
  {}

  /** A new tombstone makes stale exactly what lies below it. */
  lemma {:induction false} StaleStep(tombs: map<Range, RangeRecord>, e: AdmittedEntry, n: Range, epoch: AdmissionOrder)
    requires forall x :: x in tombs ==> tombs[x].entry.order.Less(e.order)
    ensures !Stale(TombsAfter(tombs, e), n, e.order)
    ensures epoch.Less(e.order) ==>
              (Stale(TombsAfter(tombs, e), n, epoch) <==>
               Stale(tombs, n, epoch) || (e.Mutation().DeleteRange? && e.Mutation().range.CoversRange(n)))
  {
    var after := TombsAfter(tombs, e);
    forall r: Range
      ensures e.Mutation() == DeleteRange(r) ==> r in after && after[r].entry == e
      ensures e.Mutation() != DeleteRange(r) ==> (r in tombs <==> r in after) && (r in tombs ==> after[r] == tombs[r])
    {
      TombsAfterStep(tombs, e, r);
    }
  }

  /** How one operation moves staleness: a new tombstone resets exactly what lies below it. */
  lemma {:induction false} EffectiveStep(t: Tree, e: AdmittedEntry, n: Range)
    requires Precedes(t, e.order)
    ensures var target := e.Mutation().Target();
      EffectiveCount(Apply(t, e), n) ==
      if n.CoversRange(target) then CountAfter(t, e, n)
      else if e.Mutation().DeleteRange? && target.CoversRange(n) then 0
      else EffectiveCount(t, n)
  {
    PathIsCovering(n, e.Mutation().Target());
    StaleStep(t.tombs, e, n, t.Node(n).epoch);
  }

  lemma {:induction false} UnderSet(m: map<Key, Bytes>, k: Key, v: Bytes, n: Range)
    ensures |Under(m[k := v], n)| == |Under(m, n)| + Bit(n.CoversKey(k)) - Bit(n.CoversKey(k) && k in m)
  {
    if n.CoversKey(k) {
      assert Under(m[k := v], n) == Under(m, n) + {k};
    } else {
      assert Under(m[k := v], n) == Under(m, n);
    }
  }

  lemma {:induction false} UnderDelete(m: map<Key, Bytes>, k: Key, n: Range)
    ensures |Under(m - {k}, n)| == |Under(m, n)| - Bit(n.CoversKey(k) && k in m)
  {
    assert Under(m - {k}, n) == Under(m, n) - {k};
  }

  lemma {:induction false} UnderDeleteRange(m: map<Key, Bytes>, r: Range, n: Range)
    ensures |Under(Effect(m, DeleteRange(r)), n)| ==
            if n.CoversRange(r) then |Under(m, n)| - |Under(m, r)|
            else if r.CoversRange(n) then 0
            else |Under(m, n)|
  {
    var m' := Effect(m, DeleteRange(r));
    if n.CoversRange(r) {
      assert Under(m, r) <= Under(m, n);
      assert Under(m', n) == Under(m, n) - Under(m, r);
    } else if r.CoversRange(n) {
      assert Under(m', n) == {};
    } else {
      forall k | k in Under(m, n) ensures !r.CoversKey(k) {
        if r.CoversKey(k) {
          CoversOfOneKeyCompare(r, n, k);
        }
      }
      assert Under(m', n) == Under(m, n);
    }
  }

  lemma {:induction false} CountsAgreeStep(t: Tree, h: seq<AdmittedEntry>, e: AdmittedEntry)
    requires Precedes(t, e.order) && PointsAgree(t, Eager(h)) && CountsAgree(t, Eager(h))
    ensures CountsAgree(Apply(t, e), Eager(h + [e]))
  {
    var m := Eager(h);
    EagerStep(h, e);
    forall n ensures EffectiveCount(Apply(t, e), n) == |Under(Eager(h + [e]), n)| {
      EffectiveStep(t, e, n);
      assert EffectiveCount(t, n) == |Under(m, n)|;
      match e.Mutation()
      case Set(k, v) =>
        UnderSet(m, k, v, n);
        assert Visible(t.points, t.tombs, k) <==> k in m;
      case Delete(k) =>
        UnderDelete(m, k, n);
        assert Visible(t.points, t.tombs, k) <==> k in m;
      case DeleteRange(r) =>
        UnderDeleteRange(m, r, n);
        assert EffectiveCount(t, r) == |Under(m, r)|;
    }
  }

  lemma {:induction false} AgreesStep(t: Tree, h: seq<AdmittedEntry>, e: AdmittedEntry)
    requires Agrees(t, h) && Ordered(h + [e])
    ensures Agrees(Apply(t, e), h + [e])
  {
    SourcedPrecedes(t, h, e);
    SourcedStep(t, h, e);
    PointsAgreeStep(t, h, e);
    CountsAgreeStep(t, h, e);
  }

  lemma {:induction false} OrderedPrefix(h: seq<AdmittedEntry>)
    requires Ordered(h) && h != []
    ensures Ordered(h[..|h| - 1])
    ensures h == h[..|h| - 1] + [h[|h| - 1]]
  {}

  /** Lazy materialization agrees with the plain map after every history. */
  lemma {:induction false} MaterializationAgrees(h: seq<AdmittedEntry>)
    requires Ordered(h)
    ensures Agrees(Materialize(h), h)
  {
    if h == [] {
      assert forall n :: Under(Eager(h), n) == {};
    } else {
      OrderedPrefix(h);
      MaterializationAgrees(h[..|h| - 1]);
      AgreesStep(Materialize(h[..|h| - 1]), h[..|h| - 1], h[|h| - 1]);
    }
  }

  // ----- main results --------------------------------------------------------------

  /** A key reads as live, with its value, exactly when the plain map holds it. */
  lemma {:induction false} LazyVisibilityIsEager(h: seq<AdmittedEntry>, k: Key)
    requires Ordered(h)
    ensures var t := Materialize(h);
      && (Visible(t.points, t.tombs, k) <==> k in Eager(h))
      && (k in Eager(h) ==> t.points[k].Mutation() == Set(k, Eager(h)[k]))
  {
    MaterializationAgrees(h);
  }

  /** The count read at any node, stale or not, is the number of live keys below it. */
  lemma {:induction false} EffectiveCountIsExact(h: seq<AdmittedEntry>, n: Range)
    requires Ordered(h)
    ensures EffectiveCount(Materialize(h), n) == |Under(Eager(h), n)|
  {
    MaterializationAgrees(h);
  }

  lemma {:induction false} VisibleUnderIsUnder(t: Tree, m: map<Key, Bytes>, n: Range)
    requires PointsAgree(t, m)
    ensures VisibleUnder(t.points, t.tombs, n) == Under(m, n)
  {
    forall k: Key ensures k in VisibleUnder(t.points, t.tombs, n) <==> k in Under(m, n) {
      assert Visible(t.points, t.tombs, k) <==> k in m;
    }
  }

  lemma {:induction false} AuditCount(t: Tree, h: seq<AdmittedEntry>, e: AdmittedEntry, n: Range)
    requires Agrees(t, h) && Ordered(h + [e]) && n in PathSet(e.Mutation().Target())
    ensures CountAfter(t, e, n) == |VisibleUnder(PointsAfter(t.points, e), TombsAfter(t.tombs, e), n)|
  {
    SourcedPrecedes(t, h, e);
    AgreesStep(t, h, e);
    PathIsCovering(n, e.Mutation().Target());
    EffectiveStep(t, e, n);
    VisibleUnderIsUnder(Apply(t, e), Eager(h + [e]), n);
  }

  lemma {:induction false} AuditStep(t: Tree, h: seq<AdmittedEntry>, e: AdmittedEntry)
    requires Agrees(t, h) && Ordered(h + [e])
    ensures Apply(t, e) == AuditApply(t, e)
  {
    forall n | n in PathSet(e.Mutation().Target())
      ensures CountAfter(t, e, n) == |VisibleUnder(PointsAfter(t.points, e), TombsAfter(t.tombs, e), n)|
    {
      AuditCount(t, h, e, n);
    }
    assert Apply(t, e).nodes == AuditApply(t, e).nodes;
  }

  /** The incremental write path stores exactly what the brute-force audit recomputes. */
  lemma {:induction false} IncrementalEqualsAudit(h: seq<AdmittedEntry>)
    requires Ordered(h)
    ensures Materialize(h) == Audit(h)
  {
    if h != [] {
      OrderedPrefix(h);
      IncrementalEqualsAudit(h[..|h| - 1]);
      MaterializationAgrees(h[..|h| - 1]);
      AuditStep(Materialize(h[..|h| - 1]), h[..|h| - 1], h[|h| - 1]);
    }
  }
}
