/**
 What the aggregates are for: deciding admission (server/src/space/data.rs).

 A range assertion needs the greatest foreign admission under a prefix, and a
 mutation needs a version above everything it affects. The server answers both
 from one aggregate node and the tombstones on the path to it. Here those
 answers are shown to equal a scan of the whole admitted history.
 */
module AdmissionGate {
  import opened Types
  import opened DeviceHeads
  import opened RangeTree

  // ----- projections of the history --------------------------------------------

  /** An operation bears on a query: a point inside it, or a range overlapping it. */
  predicate Relevant(query: Range, m: Mutation) {
    match m
    case Set(k, _) => query.CoversKey(k)
    case Delete(k) => query.CoversKey(k)
    case DeleteRange(r) => query.Overlaps(r)
  }

  predicate DeletesExactly(r: Range, m: Mutation) { m == DeleteRange(r) }

  /** Observations of the operations filed at or below `n`. */
  function Below(h: seq<AdmittedEntry>, n: Range): seq<DeviceAdmission> {
    if h == [] then []
    else
      var last := h[|h| - 1];
      Below(h[..|h| - 1], n) + if n.CoversRange(last.Mutation().Target()) then [Seen(last)] else []
  }

  /** Observations of the range deletes at exactly `r`. */
  function At(h: seq<AdmittedEntry>, r: Range): seq<DeviceAdmission> {
    if h == [] then []
    else
      var last := h[|h| - 1];
      At(h[..|h| - 1], r) + if DeletesExactly(r, last.Mutation()) then [Seen(last)] else []
  }

  /** Observations of everything relevant to `query`: the reference answer. */
  function RelevantSeen(h: seq<AdmittedEntry>, query: Range): seq<DeviceAdmission> {
    if h == [] then []
    else
      var last := h[|h| - 1];
      RelevantSeen(h[..|h| - 1], query) + if Relevant(query, last.Mutation()) then [Seen(last)] else []
  }

  function TombHeads(t: Tree, r: Range): Heads { if r in t.tombs then t.tombs[r].heads else EMPTY_HEADS }

  function TombVer(t: Tree, r: Range): nat { if r in t.tombs then t.tombs[r].maxVer else 0 }

  /** Every node and every tombstone summarizes exactly its own slice of the history. */
  lemma {:induction false} RecordsSummarizeHistory(h: seq<AdmittedEntry>, n: Range)
    ensures Materialize(h).Node(n).heads == ObserveAll(EMPTY_HEADS, Below(h, n))
    ensures TombHeads(Materialize(h), n) == ObserveAll(EMPTY_HEADS, At(h, n))
  {
    if h != [] {
      var g, e := h[..|h| - 1], h[|h| - 1];
      RecordsSummarizeHistory(g, n);
      RecordStep(Materialize(g), e, n);
      ObserveAllAppend(Below(g, n), Seen(e));
      ObserveAllAppend(At(g, n), Seen(e));
    }
  }

  /** What one operation does to the records at `n`. */
  lemma {:induction false} RecordStep(t: Tree, e: AdmittedEntry, n: Range)
    ensures Apply(t, e).Node(n).heads ==
            if n.CoversRange(e.Mutation().Target()) then Observe(t.Node(n).heads, Seen(e)) else t.Node(n).heads
    ensures Apply(t, e).Node(n).maxVer ==
            if n.CoversRange(e.Mutation().Target()) then Max(t.Node(n).maxVer, e.Ver()) else t.Node(n).maxVer
    ensures TombHeads(Apply(t, e), n) ==
            if DeletesExactly(n, e.Mutation()) then Observe(TombHeads(t, n), Seen(e)) else TombHeads(t, n)
    ensures TombVer(Apply(t, e), n) ==
            if DeletesExactly(n, e.Mutation()) then Max(TombVer(t, n), e.Ver()) else TombVer(t, n)
  {
    PathIsCovering(n, e.Mutation().Target());
  }

  lemma {:induction false} ObserveAllAppend(obs: seq<DeviceAdmission>, o: DeviceAdmission)
    ensures ObserveAll(EMPTY_HEADS, obs + [o]) == Observe(ObserveAll(EMPTY_HEADS, obs), o)
    ensures obs + [] == obs
  {
    assert (obs + [o])[..|obs|] == obs;
  }

  // ----- effective history ---------------------------------------------------------

  /** The node's own heads merged with the tombstones at the first `i` ranges of its path. */
  function MergePath(t: Tree, query: Range, i: nat): Heads
    requires i <= Depth(query) + 1
  {
    if i == 0 then t.Node(query).heads
    else
      var before := MergePath(t, query, i - 1);
      var ancestor := Ancestor(query, i - 1);
      if ancestor in t.tombs then Merge(before, t.tombs[ancestor].heads) else before
  }

  function EffectiveHeads(t: Tree, query: Range): Heads { MergePath(t, query, Depth(query) + 1) }

  /** The maximum over a node and the first `i` ranges of its path. */
  function PathMax(own: nat, tombs: Range -> nat, query: Range, i: nat): nat
    requires i <= Depth(query) + 1
  {
    if i == 0 then own else Max(PathMax(own, tombs, query, i - 1), tombs(Ancestor(query, i - 1)))
  }

  /** Raising the node, or the tombstone at one range, raises the maximum if that range is on the path. */
  lemma {:induction false} PathMaxStep(own: nat, tombs: Range -> nat, own': nat, tombs': Range -> nat,
                                       query: Range, i: nat, below: bool, at: Option<Range>, v: nat)
    requires i <= Depth(query) + 1
    requires own' == if below then Max(own, v) else own
    requires forall n :: tombs'(n) == if at == Some(n) then Max(tombs(n), v) else tombs(n)
    ensures PathMax(own', tombs', query, i) ==
            if below || (at.Some? && Done(at.value, query, i)) then Max(PathMax(own, tombs, query, i), v)
            else PathMax(own, tombs, query, i)
  {
    if i > 0 {
      PathMaxStep(own, tombs, own', tombs', query, i - 1, below, at, v);
      if at.Some? {
        NextNode(query, i - 1, at.value);
      }
    }
  }

  lemma {:induction false} PathMaxZero(tombs: Range -> nat, query: Range, i: nat)
    requires i <= Depth(query) + 1 && forall n :: tombs(n) == 0
    ensures PathMax(0, tombs, query, i) == 0
  {
    if i > 0 {
      PathMaxZero(tombs, query, i - 1);
    }
  }

  function PathVer(t: Tree, query: Range, i: nat): nat
    requires i <= Depth(query) + 1
  {
    PathMax(t.Node(query).maxVer, n => TombVer(t, n), query, i)
  }

  function EffectiveVer(t: Tree, query: Range): nat { PathVer(t, query, Depth(query) + 1) }

  /** The same merge, computed by scanning each slice. */
  function PathScan(h: seq<AdmittedEntry>, query: Range, i: nat, who: Option<DeviceId>): nat
    requires i <= Depth(query) + 1
  {
    PathMax(Scan(Below(h, query), who), n => Scan(At(h, n), who), query, i)
  }

  lemma {:induction false} MergePathIsScan(h: seq<AdmittedEntry>, query: Range, i: nat, who: Option<DeviceId>)
    requires i <= Depth(query) + 1
    ensures MergePath(Materialize(h), query, i).Valid()
    ensures MergePath(Materialize(h), query, i).Greatest(who) == PathScan(h, query, i, who)
  {
    if i == 0 {
      RecordsSummarizeHistory(h, query);
      HeadsAnswerLikeScan(Below(h, query), who);
    } else {
      var a := Ancestor(query, i - 1);
      MergePathIsScan(h, query, i - 1, who);
      RecordsSummarizeHistory(h, a);
      HeadsAnswerLikeScan(At(h, a), who);
      MergeGreatest(MergePath(Materialize(h), query, i - 1), TombHeads(Materialize(h), a), who);
    }
  }

  lemma {:induction false} ScanAppend(obs: seq<DeviceAdmission>, o: DeviceAdmission, who: Option<DeviceId>)
    ensures Scan(obs + [o], who) ==
            if who == Some(o.device) then Scan(obs, who) else Max(Scan(obs, who), o.at)
    ensures obs + [] == obs
  {
    assert (obs + [o])[..|obs|] == obs;
  }

  lemma {:induction false} SliceStep(h: seq<AdmittedEntry>, e: AdmittedEntry, n: Range, who: Option<DeviceId>)
    ensures Scan(Below(h + [e], n), who) ==
            if n.CoversRange(e.Mutation().Target()) && who != Some(e.Device())
            then Max(Scan(Below(h, n), who), e.order.admissionSeq) else Scan(Below(h, n), who)
    ensures Scan(At(h + [e], n), who) ==
            if DeletesExactly(n, e.Mutation()) && who != Some(e.Device())
            then Max(Scan(At(h, n), who), e.order.admissionSeq) else Scan(At(h, n), who)
  {
    assert (h + [e])[..|h|] == h;
    ScanAppend(Below(h, n), Seen(e), who);
    ScanAppend(At(h, n), Seen(e), who);
  }

  function DeletedRange(m: Mutation): Option<Range> { if m.DeleteRange? then Some(m.range) else None }

  /** One more operation reaches the merge exactly when it is relevant. */
  lemma {:induction false} PathScanStep(h: seq<AdmittedEntry>, e: AdmittedEntry, query: Range, who: Option<DeviceId>)
    ensures PathScan(h + [e], query, Depth(query) + 1, who) ==
            if Relevant(query, e.Mutation()) && who != Some(e.Device())
            then Max(PathScan(h, query, Depth(query) + 1, who), e.order.admissionSeq)
            else PathScan(h, query, Depth(query) + 1, who)
  {
    forall n ensures Scan(At(h + [e], n), who) ==
                     if DeletesExactly(n, e.Mutation()) && who != Some(e.Device())
                     then Max(Scan(At(h, n), who), e.order.admissionSeq) else Scan(At(h, n), who)
    {
      SliceStep(h, e, n, who);
    }
    SliceStep(h, e, query, who);
    var foreign := who != Some(e.Device());
    PathMaxStep(Scan(Below(h, query), who), n => Scan(At(h, n), who),
                Scan(Below(h + [e], query), who), n => Scan(At(h + [e], n), who), query, Depth(query) + 1,
                query.CoversRange(e.Mutation().Target()) && foreign,
                if foreign then DeletedRange(e.Mutation()) else None, e.order.admissionSeq);
    RelevantByPath(query, e.Mutation());
  }

  /** Relevance splits into what is filed below the query and the tombstones on its path. */
  lemma {:induction false} RelevantByPath(query: Range, m: Mutation)
    ensures Relevant(query, m) <==>
            query.CoversRange(m.Target())
            || (m.DeleteRange? && Done(m.range, query, Depth(query) + 1))
  {
    if m.DeleteRange? {
      AllDone(query, m.range);
    }
  }

  lemma {:induction false} PathScanIsRelevantScan(h: seq<AdmittedEntry>, query: Range, who: Option<DeviceId>)
    ensures PathScan(h, query, Depth(query) + 1, who) == Scan(RelevantSeen(h, query), who)
  {
    if h == [] {
      PathMaxZero(n => Scan(At(h, n), who), query, Depth(query) + 1);
    } else {
      var g, e := h[..|h| - 1], h[|h| - 1];
      assert h == g + [e];
      PathScanIsRelevantScan(g, query, who);
      PathScanStep(g, e, query, who);
      ScanAppend(RelevantSeen(g, query), Seen(e), who);
    }
  }

  /** The greatest foreign admission bearing on a range, from O(depth) records. */
  lemma {:induction false} EffectiveHeadsAreExact(h: seq<AdmittedEntry>, query: Range, who: Option<DeviceId>)
    ensures EffectiveHeads(Materialize(h), query).Greatest(who) == Scan(RelevantSeen(h, query), who)
  {
    MergePathIsScan(h, query, Depth(query) + 1, who);
    PathScanIsRelevantScan(h, query, who);
  }

  /** One more operation joins the scanned history exactly when it is relevant. */
  lemma {:induction false} RelevantScanStep(h: seq<AdmittedEntry>, e: AdmittedEntry, query: Range,
                                            who: Option<DeviceId>)
    ensures Scan(RelevantSeen(h + [e], query), who) ==
            if Relevant(query, e.Mutation()) && who != Some(e.Device())
            then Max(Scan(RelevantSeen(h, query), who), e.order.admissionSeq) else Scan(RelevantSeen(h, query), who)
  {
    var seen := RelevantSeen(h, query);
    assert (h + [e])[..|h|] == h;
    assert RelevantSeen(h + [e], query) == seen + if Relevant(query, e.Mutation()) then [Seen(e)] else [];
    ScanAppend(seen, Seen(e), who);
  }

  lemma {:induction false} ScanBound(h: seq<AdmittedEntry>, query: Range, who: Option<DeviceId>, bound: nat)
    ensures Scan(RelevantSeen(h, query), who) <= bound <==>
            forall x :: x in h && who != Some(x.Device()) && Relevant(query, x.Mutation())
                        ==> x.order.admissionSeq <= bound
  {
    if h != [] {
      var g, e := h[..|h| - 1], h[|h| - 1];
      assert h == g + [e];
      ScanBound(g, query, who, bound);
      RelevantScanStep(g, e, query, who);
      assert forall x :: x in h <==> x in g || x == e;
    }
  }

  /** A range assertion passes exactly when no foreign operation after `upto` bears on its prefix. */
  lemma {:induction false} RangeAssertIsExact(h: seq<AdmittedEntry>, a: RangeAssert, device: DeviceId)
    ensures EffectiveHeads(Materialize(h), Prefix(a.prefix)).MaxExcluding(device) <= a.upto <==>
            forall x :: x in h && x.Device() != device && Relevant(Prefix(a.prefix), x.Mutation())
                        ==> x.order.admissionSeq <= a.upto
  {
    EffectiveHeadsAreExact(h, Prefix(a.prefix), Some(device));
    ScanBound(h, Prefix(a.prefix), Some(device), a.upto);
  }

  // ----- the version gate ------------------------------------------------------------

  predicate PointGate(t: Tree, k: Key, ver: nat) {
    && (k in t.points ==> t.points[k].Ver() < ver)
    && (forall r :: r in t.tombs && r.CoversKey(k) ==> t.tombs[r].maxVer < ver)
  }

  predicate RangeGate(t: Tree, r: Range, ver: nat) {
    EffectiveHeads(t, r).MaxSeq() != 0 ==> EffectiveVer(t, r) < ver
  }

  /** The server's version check for one mutation against current state. */
  predicate Gate(t: Tree, m: Mutation, ver: nat) {
    match m
    case Set(k, _) => PointGate(t, k, ver)
    case Delete(k) => PointGate(t, k, ver)
    case DeleteRange(r) => RangeGate(t, r, ver)
  }

  /** The earlier operations a mutation must outrank. */
  predicate Affects(earlier: Mutation, m: Mutation) {
    match m
    case DeleteRange(r) => Relevant(r, earlier)
    case _ => if earlier.DeleteRange? then earlier.range.CoversKey(m.key) else earlier.key == m.key
  }

  predicate Outranks(h: seq<AdmittedEntry>, m: Mutation, ver: nat) {
    forall x :: x in h && Affects(x.Mutation(), m) ==> x.Ver() < ver
  }

  /** A history in which every operation passed the gate when it was admitted. */
  predicate Admitted(h: seq<AdmittedEntry>) {
    h == [] || (Admitted(h[..|h| - 1]) && Gate(Materialize(h[..|h| - 1]), h[|h| - 1].Mutation(), h[|h| - 1].Ver()))
  }

  /** `points` holds, for every key, an operation on it with the greatest version in the history. */
  ghost predicate NewestPoint(h: seq<AdmittedEntry>, points: map<Key, AdmittedEntry>, k: Key) {
    && (k in points ==> points[k] in h && TouchesPoint(points[k], k))
    && (forall x :: x in h && TouchesPoint(x, k) ==> k in points && x.Ver() <= points[k].Ver())
  }

  predicate TouchesPoint(x: AdmittedEntry, k: Key) { !x.Mutation().DeleteRange? && x.Mutation().key == k }

  lemma {:induction false} NewestPointStep(h: seq<AdmittedEntry>, points: map<Key, AdmittedEntry>, e: AdmittedEntry,
                                           k: Key)
    requires NewestPoint(h, points, k) && (TouchesPoint(e, k) && k in points ==> points[k].Ver() < e.Ver())
    ensures NewestPoint(h + [e], PointsAfter(points, e), k)
  {
    var points' := PointsAfter(points, e);
    assert forall x :: x in h + [e] <==> x in h || x == e;
    if !TouchesPoint(e, k) {
      assert (k in points' <==> k in points) && (k in points ==> points'[k] == points[k]);
    }
  }

  /** The gate lets a point operation pass only above the stored record. */
  lemma {:induction false} GateAtPoint(t: Tree, e: AdmittedEntry, k: Key)
    requires Gate(t, e.Mutation(), e.Ver()) && TouchesPoint(e, k) && k in t.points
    ensures t.points[k].Ver() < e.Ver()
  {}

  lemma {:induction false} PointsStep(h: seq<AdmittedEntry>)
    requires h != []
    ensures Materialize(h).points == PointsAfter(Materialize(h[..|h| - 1]).points, h[|h| - 1])
  {}

  /** The stored point record carries the greatest version ever admitted at its key. */
  lemma {:induction false} PointRecordIsNewest(h: seq<AdmittedEntry>, k: Key)
    requires Admitted(h)
    ensures NewestPoint(h, Materialize(h).points, k)
  {
    if h != [] {
      var g, e := h[..|h| - 1], h[|h| - 1];
      PointRecordIsNewest(g, k);
      if TouchesPoint(e, k) && k in Materialize(g).points {
        GateAtPoint(Materialize(g), e, k);
      }
      PointsStep(h);
      NewestPointStep(g, Materialize(g).points, e, k);
      assert h == g + [e];
    }
  }

  /** The versions of the deletes at exactly this range are below `ver`. */
  predicate DeletesBelow(h: seq<AdmittedEntry>, r: Range, ver: nat) {
    forall x :: x in h && DeletesExactly(r, x.Mutation()) ==> x.Ver() < ver
  }

  lemma {:induction false} DeletesBelowStep(h: seq<AdmittedEntry>, e: AdmittedEntry, r: Range, ver: nat)
    ensures DeletesBelow(h + [e], r, ver) <==>
            DeletesBelow(h, r, ver) && (DeletesExactly(r, e.Mutation()) ==> e.Ver() < ver)
  {
    assert forall x :: x in h + [e] <==> x in h || x == e;
  }

  lemma {:induction false} TombVerIsExact(h: seq<AdmittedEntry>, r: Range, ver: nat)
    ensures r in Materialize(h).tombs ==> (Materialize(h).tombs[r].maxVer < ver <==> DeletesBelow(h, r, ver))
    ensures r !in Materialize(h).tombs ==> forall x :: x in h ==> !DeletesExactly(r, x.Mutation())
  {
    if h != [] {
      var g, e := h[..|h| - 1], h[|h| - 1];
      assert h == g + [e];
      TombVerIsExact(g, r, ver);
      DeletesBelowStep(g, e, r, ver);
      assert Materialize(h).tombs == TombsAfter(Materialize(g).tombs, e);
      if r !in Materialize(g).tombs {
        assert DeletesBelow(g, r, ver);
        assert r !in Materialize(h).tombs ==> !DeletesExactly(r, e.Mutation());
      }
    }
  }

  /** An admitted range delete over the key. */
  predicate Resets(x: AdmittedEntry, target: Range) {
    x.Mutation().DeleteRange? && x.Mutation().range.CoversRange(target)
  }

  predicate ResetsBelow(h: seq<AdmittedEntry>, target: Range, ver: nat) {
    forall x :: x in h && Resets(x, target) ==> x.Ver() < ver
  }

  /** The tombstones over a key carry the greatest version of every range delete over it. */
  lemma {:induction false} TombsBoundResets(h: seq<AdmittedEntry>, k: Key, ver: nat)
    ensures (forall r :: r in Materialize(h).tombs && r.CoversKey(k) ==> Materialize(h).tombs[r].maxVer < ver)
            <==> ResetsBelow(h, Prefix(k), ver)
  {
    var tombs := Materialize(h).tombs;
    if forall r :: r in tombs && r.CoversKey(k) ==> tombs[r].maxVer < ver {
      forall x | x in h && Resets(x, Prefix(k)) ensures x.Ver() < ver {
        TombVerIsExact(h, x.Mutation().range, ver);
        assert DeletesExactly(x.Mutation().range, x.Mutation());
      }
    }
    if ResetsBelow(h, Prefix(k), ver) {
      forall r | r in tombs && r.CoversKey(k) ensures tombs[r].maxVer < ver {
        TombVerIsExact(h, r, ver);
        assert forall x :: x in h && DeletesExactly(r, x.Mutation()) ==> Resets(x, Prefix(k));
      }
    }
  }

  /** A point write must outrank the writes at its own key and the range deletes over it. */
  lemma {:induction false} OutranksByParts(h: seq<AdmittedEntry>, k: Key, ver: nat)
    requires Admitted(h)
    ensures Outranks(h, Delete(k), ver) <==>
            && (k in Materialize(h).points ==> Materialize(h).points[k].Ver() < ver)
            && ResetsBelow(h, Prefix(k), ver)
  {
    var points := Materialize(h).points;
    PointRecordIsNewest(h, k);
    if Outranks(h, Delete(k), ver) {
      forall x | x in h && Resets(x, Prefix(k)) ensures x.Ver() < ver {
        assert Affects(x.Mutation(), Delete(k));
      }
      assert k in points ==> Affects(points[k].Mutation(), Delete(k));
    }
    if (k in points ==> points[k].Ver() < ver) && ResetsBelow(h, Prefix(k), ver) {
      forall x | x in h && Affects(x.Mutation(), Delete(k)) ensures x.Ver() < ver {
        assert x.Mutation().DeleteRange? ==> Resets(x, Prefix(k));
      }
    }
  }

  lemma {:induction false} PointGateIsExact(h: seq<AdmittedEntry>, k: Key, ver: nat)
    requires Admitted(h)
    ensures PointGate(Materialize(h), k, ver) <==> Outranks(h, Delete(k), ver)
  {
    TombsBoundResets(h, k, ver);
    OutranksByParts(h, k, ver);
  }

  // The range gate reads one maximum over everything relevant.

  function MaxRelevantVer(h: seq<AdmittedEntry>, query: Range): nat {
    if h == [] then 0
    else
      var last := h[|h| - 1];
      if Relevant(query, last.Mutation()) then Max(MaxRelevantVer(h[..|h| - 1], query), last.Ver())
      else MaxRelevantVer(h[..|h| - 1], query)
  }

  lemma {:induction false} PathVerStep(t: Tree, e: AdmittedEntry, query: Range)
    ensures EffectiveVer(Apply(t, e), query) ==
            if Relevant(query, e.Mutation()) then Max(EffectiveVer(t, query), e.Ver()) else EffectiveVer(t, query)
  {
    var t' := Apply(t, e);
    forall n
      ensures TombVer(t', n) == if DeletesExactly(n, e.Mutation()) then Max(TombVer(t, n), e.Ver()) else TombVer(t, n)
    {
      RecordStep(t, e, n);
    }
    RecordStep(t, e, query);
    PathMaxStep(t.Node(query).maxVer, n => TombVer(t, n), t'.Node(query).maxVer, n => TombVer(t', n),
                query, Depth(query) + 1, query.CoversRange(e.Mutation().Target()), DeletedRange(e.Mutation()), e.Ver());
    RelevantByPath(query, e.Mutation());
  }

  lemma {:induction false} EffectiveVerIsExact(h: seq<AdmittedEntry>, query: Range)
    ensures EffectiveVer(Materialize(h), query) == MaxRelevantVer(h, query)
  {
    if h == [] {
      PathMaxZero(n => TombVer(EMPTY_TREE, n), query, Depth(query) + 1);
    } else {
      var g, e := h[..|h| - 1], h[|h| - 1];
      EffectiveVerIsExact(g, query);
      PathVerStep(Materialize(g), e, query);
    }
  }

  lemma {:induction false} MaxRelevantVerBound(h: seq<AdmittedEntry>, query: Range, ver: nat)
    ensures (RelevantSeen(h, query) != [] ==> MaxRelevantVer(h, query) < ver) <==> Outranks(h, DeleteRange(query), ver)
    ensures RelevantSeen(h, query) == [] ==> MaxRelevantVer(h, query) == 0
  {
    if h != [] {
      var g, e := h[..|h| - 1], h[|h| - 1];
      assert h == g + [e];
      MaxRelevantVerBound(g, query, ver);
      assert Outranks(h, DeleteRange(query), ver) <==>
             Outranks(g, DeleteRange(query), ver) && (Relevant(query, e.Mutation()) ==> e.Ver() < ver)
      by {
        assert forall x :: x in h <==> x in g || x == e;
      }
    }
  }

  /** No head at all means nothing relevant was ever admitted. */
  lemma {:induction false} NoHeadNoHistory(h: seq<AdmittedEntry>, query: Range)
    requires Ordered(h)
    ensures Scan(RelevantSeen(h, query), None) == 0 <==> RelevantSeen(h, query) == []
  {
    if h != [] {
      OrderedPrefix(h);
      NoHeadNoHistory(h[..|h| - 1], query);
      ScanAppend(RelevantSeen(h[..|h| - 1], query), Seen(h[|h| - 1]), None);
    }
  }

  lemma {:induction false} RangeGateIsExact(h: seq<AdmittedEntry>, r: Range, ver: nat)
    requires Ordered(h)
    ensures RangeGate(Materialize(h), r, ver) <==> Outranks(h, DeleteRange(r), ver)
  {
    EffectiveHeadsAreExact(h, r, None);
    NoHeadNoHistory(h, r);
    EffectiveVerIsExact(h, r);
    MaxRelevantVerBound(h, r, ver);
  }

  /** The gate, read from O(depth) records, admits exactly the versions that outrank all affected history. */
  lemma {:induction false} GateIsExact(h: seq<AdmittedEntry>, m: Mutation, ver: nat)
    requires Ordered(h) && Admitted(h)
    ensures Gate(Materialize(h), m, ver) <==> Outranks(h, m, ver)
  {
    match m
    case DeleteRange(r) => RangeGateIsExact(h, r, ver);
    case Set(k, _) =>
      PointGateIsExact(h, k, ver);
      assert forall x :: x in h ==> Affects(x.Mutation(), m) == Affects(x.Mutation(), Delete(k));
    case Delete(k) => PointGateIsExact(h, k, ver);
  }

  /** In every admitted history, versions strictly increase along overlapping operations. */
  lemma {:induction false} VersionsIncrease(h: seq<AdmittedEntry>, i: nat, j: nat)
    requires Ordered(h) && Admitted(h) && i < j < |h|
    requires Affects(h[i].Mutation(), h[j].Mutation())
    ensures h[i].Ver() < h[j].Ver()
  {
    var g := h[..|h| - 1];
    OrderedPrefix(h);
    if j < |g| {
      VersionsIncrease(g, i, j);
    } else {
      GateIsExact(g, h[j].Mutation(), h[j].Ver());
      assert g[i] in g;
    }
  }
}
