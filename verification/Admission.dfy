/**
 The staged write path of one admission request (server/src/space/data.rs).

 A request folds its entries over staged copies of the touched records, consulting
 the store for everything else, and writes once at the end. This class is that
 fold: every check and every aggregate update reads the store and the staging
 area exactly as the server does, and is proved equal to admitting the
 operations one at a time.
 */
module Admission {
  import opened Types
  import opened DeviceHeads
  import opened RangeTree
  import opened AdmissionGate

  /** `reset` is the newest range delete in `h` covering `target`, if any. */
  ghost predicate IsReset(h: seq<AdmittedEntry>, target: Range, reset: Option<AdmissionOrder>) {
    match reset
    case None => forall x :: x in h ==> !Resets(x, target)
    case Some(o) =>
      && (exists x :: x in h && Resets(x, target) && x.order == o)
      && (forall x :: x in h && Resets(x, target) ==> !o.Less(x.order))
  }

  function Later(reset: Option<AdmissionOrder>, o: AdmissionOrder): AdmissionOrder {
    if reset.Some? && !reset.value.Less(o) then reset.value else o
  }

  /** `e` is the newest range delete at exactly `r`. */
  ghost predicate NewestAt(h: seq<AdmittedEntry>, r: Range, e: AdmittedEntry) {
    && e in h && DeletesExactly(r, e.Mutation())
    && forall x :: x in h && DeletesExactly(r, x.Mutation()) ==> !e.order.Less(x.order)
  }

  lemma {:induction false} ResetStep(h: seq<AdmittedEntry>, e: AdmittedEntry, target: Range,
                                     reset: Option<AdmissionOrder>)
    requires IsReset(h, target, reset)
    ensures IsReset(h + [e], target, if Resets(e, target) then Some(Later(reset, e.order)) else reset)
  {
    assert forall x :: x in h + [e] <==> x in h || x == e;
  }

  lemma {:induction false} EarlierThanNext(h: seq<AdmittedEntry>, e: AdmittedEntry)
    requires Ordered(h + [e])
    ensures forall x :: x in h ==> x.order.Less(e.order)
  {
    var g := h + [e];
    forall x | x in h ensures x.order.Less(e.order) {
      var i :| 0 <= i < |h| && h[i] == x;
      assert g[i] == x && g[|h|] == e;
    }
  }

  /** A tombstone keeps the newest range delete at its exact target. */
  lemma {:induction false} LastIsNewest(g: seq<AdmittedEntry>, e: AdmittedEntry, r: Range)
    requires Ordered(g + [e]) && DeletesExactly(r, e.Mutation())
    ensures NewestAt(g + [e], r, e)
  {
    EarlierThanNext(g, e);
    assert forall x :: x in g + [e] <==> x in g || x == e;
  }

  lemma {:induction false} NewestStays(g: seq<AdmittedEntry>, e: AdmittedEntry, r: Range, newest: AdmittedEntry)
    requires NewestAt(g, r, newest) && !DeletesExactly(r, e.Mutation())
    ensures NewestAt(g + [e], r, newest)
  {
    assert forall x :: x in g + [e] <==> x in g || x == e;
  }

  lemma {:induction false} TombIsNewest(h: seq<AdmittedEntry>, r: Range)
    requires Ordered(h)
    ensures r in Materialize(h).tombs ==> NewestAt(h, r, Materialize(h).tombs[r].entry)
    ensures r !in Materialize(h).tombs ==> forall x :: x in h ==> !DeletesExactly(r, x.Mutation())
  {
    if h != [] {
      var g, e := h[..|h| - 1], h[|h| - 1];
      OrderedPrefix(h);
      TombIsNewest(g, r);
      var tombs := Materialize(g).tombs;
      assert Materialize(h).tombs == TombsAfter(tombs, e);
      if DeletesExactly(r, e.Mutation()) {
        EarlierThanNext(g, e);
        assert TombsAfter(tombs, e)[r].entry == e;
        LastIsNewest(g, e, r);
      } else if r in tombs {
        NewestStays(g, e, r, tombs[r].entry);
      } else {
        assert forall x :: x in h <==> x in g || x == e;
      }
    }
  }

  /** Comparing an epoch with the newest reset decides staleness. */
  lemma {:induction false} ResetDecidesStale(h: seq<AdmittedEntry>, target: Range, reset: Option<AdmissionOrder>,
                                             epoch: AdmissionOrder)
    requires Ordered(h) && IsReset(h, target, reset)
    ensures Stale(Materialize(h).tombs, target, epoch) <==> reset.Some? && epoch.Less(reset.value)
  {
    var tombs := Materialize(h).tombs;
    forall r | r in tombs ensures tombs[r].entry in h && DeletesExactly(r, tombs[r].entry.Mutation()) {
      TombIsNewest(h, r);
    }
    if reset.Some? {
      var x :| x in h && Resets(x, target) && x.order == reset.value;
      var r := x.Mutation().range;
      TombIsNewest(h, r);
      assert DeletesExactly(r, x.Mutation());
      assert r in tombs && !tombs[r].entry.order.Less(x.order);
      assert Resets(tombs[r].entry, target);
    }
  }

  lemma {:induction false} ResetDecidesVisible(h: seq<AdmittedEntry>, k: Key, reset: Option<AdmissionOrder>)
    requires Ordered(h) && IsReset(h, Prefix(k), reset) && k in Materialize(h).points
    ensures Visible(Materialize(h).points, Materialize(h).tombs, k) <==>
            && Materialize(h).points[k].Mutation().Set?
            && (reset.Some? ==> reset.value.Less(Materialize(h).points[k].order))
  {
    var t := Materialize(h);
    forall r | r in t.tombs ensures t.tombs[r].entry in h && DeletesExactly(r, t.tombs[r].entry.Mutation()) {
      TombIsNewest(h, r);
    }
    if reset.Some? {
      var x :| x in h && Resets(x, Prefix(k)) && x.order == reset.value;
      var r := x.Mutation().range;
      TombIsNewest(h, r);
      assert DeletesExactly(r, x.Mutation());
      assert r in t.tombs && r.CoversKey(k) && !t.tombs[r].entry.order.Less(x.order);
      assert Resets(t.tombs[r].entry, Prefix(k));
      assert !x.order.Less(t.tombs[r].entry.order);
      assert forall s :: s in t.tombs && s.CoversKey(k) ==> Resets(t.tombs[s].entry, Prefix(k));
    } else {
      assert forall s :: s in t.tombs && s.CoversKey(k) ==> Resets(t.tombs[s].entry, Prefix(k));
    }
  }

  class StagedAdmission {
    /** The store as the request found it. */
    const base: Tree
    /** The history the store materializes. */
    ghost const before: seq<AdmittedEntry>

    var staged: map<Key, AdmittedEntry>
    var stagedRanges: map<Range, RangeRecord>
    var stagedNodes: map<Range, NodeMeta>
    var stagedEvents: seq<AdmittedEntry>

    ghost function History(): seq<AdmittedEntry>
      reads this
    {
      before + stagedEvents
    }

    /** What one atomic write of the staging area would leave in the store. */
    function View(): Tree
      reads this
    {
      Tree(base.points + staged, base.tombs + stagedRanges, base.nodes + stagedNodes)
    }

    /** The fold so far stands exactly where admitting the operations one by one would. */
    ghost predicate Valid()
      reads this
    {
      && base == Materialize(before)
      && Ordered(before) && Admitted(before)
      && Ordered(History()) && Admitted(History())
      && View() == Materialize(History())
    }

    constructor (store: Tree, ghost h: seq<AdmittedEntry>)
      requires Ordered(h) && Admitted(h) && store == Materialize(h)
      ensures Valid() && History() == h && base == store && before == h && stagedEvents == []
    {
      base, before := store, h;
      staged, stagedRanges, stagedNodes, stagedEvents := map[], map[], map[], [];
      new;
      assert History() == h;
      EmptyMerge(base.points);
      EmptyMerge(base.tombs);
      EmptyMerge(base.nodes);
    }

    /** Newest stored tombstone covering `target`: one read per component-wise ancestor. */
    method CoveringRangeDelete(target: Range) returns (newest: Option<AdmissionOrder>)
      requires base == Materialize(before) && Ordered(before)
      ensures IsReset(before, target, newest)
    {
      newest := None;
      var i := 0;
      while i <= Depth(target)
        invariant 0 <= i <= Depth(target) + 1
        invariant newest.None? ==> forall x :: x in before && Resets(x, target) ==> !Done(x.Mutation().range, target, i)
        invariant newest.Some? ==> exists x :: x in before && Resets(x, target) && x.order == newest.value
        invariant newest.Some? ==> forall x :: x in before && Resets(x, target) && Done(x.Mutation().range, target, i)
                                               ==> !newest.value.Less(x.order)
      {
        var node := Ancestor(target, i);
        TombIsNewest(before, node);
        forall x | x in before && Resets(x, target) && Done(x.Mutation().range, target, i + 1)
          ensures Done(x.Mutation().range, target, i) || DeletesExactly(node, x.Mutation())
        {
          NextNode(target, i, x.Mutation().range);
        }
        if node in base.tombs {
          var order := base.tombs[node].entry.order;
          assert Resets(base.tombs[node].entry, target);
          if newest.None? || newest.value.Less(order) {
            newest := Some(order);
          }
        }
        i := i + 1;
      }
      assert forall x :: x in before && Resets(x, target) ==> Done(x.Mutation().range, target, i);
    }

    /** The same question with the request's own earlier range deletes included. */
    method NewestCoveringReset(target: Range) returns (reset: Option<AdmissionOrder>)
      requires base == Materialize(before) && Ordered(before)
      ensures IsReset(History(), target, reset)
    {
      var stored := CoveringRangeDelete(target);
      reset := ResetAfter(before, stagedEvents, target, stored);
    }

    /** The record at `n`, with its count brought up to the newest reset. */
    method MaterializeAggregate(n: Range, ghost view: Tree) returns (record: NodeMeta)
      requires base == Materialize(before) && Ordered(before) && Ordered(History())
      requires view == Materialize(History())
      requires (if n in stagedNodes then stagedNodes[n] else base.Node(n)) == view.Node(n)
      ensures record.heads == view.Node(n).heads && record.maxVer == view.Node(n).maxVer
      ensures record.liveCount == EffectiveCount(view, n)
      ensures record.epoch == view.Node(n).epoch || exists x :: x in History() && x.order == record.epoch
    {
      record := if n in stagedNodes then stagedNodes[n] else if n in base.nodes then base.nodes[n] else EMPTY_NODE;
      var reset := NewestCoveringReset(n);
      ResetDecidesStale(History(), n, reset, record.epoch);
      if reset.Some? && record.epoch.Less(reset.value) {
        record := record.(liveCount := 0, epoch := reset.value);
      }
    }

    /** What a reader of the store takes the live count below `target` to be. */
    method EffectiveLiveCount(target: Range) returns (count: int)
      requires base == Materialize(before) && Ordered(before)
      ensures count == |Under(Eager(before), target)|
    {
      var record := base.Node(target);
      var reset := CoveringRangeDelete(target);
      ResetDecidesStale(before, target, reset, record.epoch);
      EffectiveCountIsExact(before, target);
      return if reset.Some? && record.epoch.Less(reset.value) then 0 else record.liveCount;
    }

    /** Bring the record at `n` up to date and observe the operation in it. */
    method TouchNode(e: AdmittedEntry, n: Range, delta: int, ghost view: Tree) returns (record: NodeMeta)
      requires base == Materialize(before) && Ordered(before) && Ordered(History() + [e]) && Ordered(History())
      requires view == Materialize(History())
      requires (if n in stagedNodes then stagedNodes[n] else base.Node(n)) == view.Node(n)
      requires n.CoversRange(e.Mutation().Target())
      requires EffectiveCount(view, n) + delta == CountAfter(view, e, n)
      ensures record == Touched(view.Node(n), e, CountAfter(view, e, n))
    {
      record := MaterializeAggregate(n, view);
      EpochBefore(History(), e, n);
      EarlierThanNext(History(), e);
      CountAfterIsExact(History(), e, n);
      assert record.liveCount + delta >= 0;
      record := NodeMeta(Observe(record.heads, DeviceAdmission(e.Device(), e.order.admissionSeq)),
                         Max(record.maxVer, e.Ver()),
                         record.liveCount + delta,
                         Later(Some(record.epoch), e.order));
    }

    method ApplyPointCount(e: AdmittedEntry, k: Key, delta: int)
      requires Valid() && Ordered(History() + [e])
      requires !e.Mutation().DeleteRange? && e.Mutation().key == k
      requires delta == Bit(e.Mutation().Set?) - Bit(Visible(View().points, View().tombs, k))
      modifies this`stagedNodes
      ensures base.nodes + stagedNodes == Apply(old(View()), e).nodes
    {
      ghost var view, prior := View(), stagedNodes;
      var i := 0;
      while i <= |k|
        invariant 0 <= i <= |k| + 1
        invariant PathTouched(prior, stagedNodes, i, view, e)
      {
        var node := Ancestor(Prefix(k), i);
        NextNode(Prefix(k), i, node);
        assert NodeTouched(prior, stagedNodes, i, view, e, node);
        var record := TouchNode(e, node, delta, view);
        TouchedStep(prior, stagedNodes, i, view, e);
        stagedNodes := stagedNodes[node := record];
        i := i + 1;
      }
      NodesMerge(base.nodes, prior, stagedNodes, view, e);
    }

    /** Bring every count on the path of `e` up to date. */
    method MaterializePath(e: AdmittedEntry, r: Range)
      requires Valid() && Ordered(History() + [e]) && r == e.Mutation().Target()
      modifies this`stagedNodes
      ensures PathMaterialized(old(stagedNodes), stagedNodes, Depth(r) + 1, old(View()), e)
    {
      ghost var view, prior := View(), stagedNodes;
      var i := 0;
      while i <= Depth(r)
        invariant 0 <= i <= Depth(r) + 1
        invariant PathMaterialized(prior, stagedNodes, i, view, e)
      {
        var node := Ancestor(r, i);
        NextNode(r, i, node);
        assert NodeMaterialized(prior, stagedNodes, i, view, e, node);
        var record := MaterializeAggregate(node, view);
        EpochBefore(History(), e, node);
        EarlierThanNext(History(), e);
        MaterializedStep(prior, stagedNodes, i, view, e, record);
        stagedNodes := stagedNodes[node := record];
        i := i + 1;
      }
    }

    /** One tombstone zeroes its own node and subtracts what it removed from every ancestor. */
    method ApplyRangeCount(e: AdmittedEntry, r: Range)
      requires Valid() && Ordered(History() + [e]) && e.Mutation() == DeleteRange(r)
      modifies this`stagedNodes
      ensures base.nodes + stagedNodes == Apply(old(View()), e).nodes
    {
      ghost var view, prior := View(), stagedNodes;
      MaterializePath(e, r);
      ghost var middle := stagedNodes;
      SubtractRemoved(e, r, view, prior);
      RangeCountDone(base.nodes, prior, middle, stagedNodes, view, e);
    }

    /** The node of the range itself says how many keys the delete removes. */
    method SubtractRemoved(e: AdmittedEntry, r: Range, ghost view: Tree, ghost prior: map<Range, NodeMeta>)
      requires Ordered(History()) && Ordered(History() + [e]) && e.Mutation() == DeleteRange(r)
      requires view == Materialize(History()) && PathMaterialized(prior, stagedNodes, Depth(r) + 1, view, e)
      modifies this`stagedNodes
      ensures PathTouched(old(stagedNodes), stagedNodes, Depth(r) + 1, view, e)
    {
      AllDone(r, r);
      assert NodeMaterialized(prior, stagedNodes, Depth(r) + 1, view, e, r);
      SubtractPath(e, r, stagedNodes[r].liveCount, view, prior);
    }

    method SubtractPath(e: AdmittedEntry, r: Range, removed: int, ghost view: Tree, ghost prior: map<Range, NodeMeta>)
      requires Ordered(History()) && Ordered(History() + [e]) && e.Mutation() == DeleteRange(r)
      requires view == Materialize(History()) && removed == EffectiveCount(view, r)
      requires PathMaterialized(prior, stagedNodes, Depth(r) + 1, view, e)
      modifies this`stagedNodes
      ensures PathTouched(old(stagedNodes), stagedNodes, Depth(r) + 1, view, e)
    {
      ghost var middle := stagedNodes;
      var i := 0;
      while i <= Depth(r)
        invariant 0 <= i <= Depth(r) + 1
        invariant PathTouched(middle, stagedNodes, i, view, e)
      {
        var node := Ancestor(r, i);
        NextNode(r, i, node);
        AllDone(r, node);
        assert NodeMaterialized(prior, middle, Depth(r) + 1, view, e, node);
        assert NodeTouched(middle, stagedNodes, i, view, e, node);
        var record := stagedNodes[node];
        RangeCountStep(History(), e, node, record, removed);
        assert i == Depth(r) || record.liveCount - removed >= 0;
        TouchedStep(middle, stagedNodes, i, view, e);
        stagedNodes := stagedNodes[node := AfterRangeDelete(record, e, i == Depth(r), removed)];
        i := i + 1;
      }
    }

    /** The history bearing on `target`, as stored before this request. */
    method EffectiveHistory(target: Range) returns (heads: Heads, ver: nat)
      ensures heads == EffectiveHeads(base, target) && ver == EffectiveVer(base, target)
    {
      heads, ver := base.Node(target).heads, base.Node(target).maxVer;
      var i := 0;
      while i <= Depth(target)
        invariant 0 <= i <= Depth(target) + 1
        invariant heads == MergePath(base, target, i) && ver == PathVer(base, target, i)
      {
        var node := Ancestor(target, i);
        if node in base.tombs {
          heads := Merge(heads, base.tombs[node].heads);
          ver := Max(ver, base.tombs[node].maxVer);
        }
        i := i + 1;
      }
    }

    /** The greatest version of any stored tombstone covering `k`. */
    method CoveringRangeMaxVer(k: Key) returns (floor: Option<nat>)
      ensures forall ver :: Above(floor, ver) <==>
                            forall r :: r in base.tombs && r.CoversKey(k) ==> base.tombs[r].maxVer < ver
    {
      floor := None;
      var i := 0;
      while i <= |k|
        invariant 0 <= i <= |k| + 1
        invariant forall ver :: Above(floor, ver) <==>
                                forall r :: r in base.tombs && Done(r, Prefix(k), i) ==> base.tombs[r].maxVer < ver
      {
        var node := Ancestor(Prefix(k), i);
        forall r: Range ensures Done(r, Prefix(k), i + 1) <==> Done(r, Prefix(k), i) || r == node {
          NextNode(Prefix(k), i, r);
        }
        if node in base.tombs {
          floor := MaxVer(floor, Some(base.tombs[node].maxVer));
        }
        i := i + 1;
      }
      assert forall r: Range :: Done(r, Prefix(k), i) <==> r.CoversKey(k);
    }

    /** Raise a floor past the request's own range deletes over `k`. */
    method AboveStagedResets(k: Key, stored: Option<nat>) returns (floor: Option<nat>)
      ensures forall ver :: Above(floor, ver) <==> Above(stored, ver) && ResetsBelow(stagedEvents, Prefix(k), ver)
    {
      floor := stored;
      var i := 0;
      while i < |stagedEvents|
        invariant 0 <= i <= |stagedEvents|
        invariant forall ver :: Above(floor, ver) <==>
          Above(stored, ver) && ResetsBelow(stagedEvents[..i], Prefix(k), ver)
      {
        assert stagedEvents[..i + 1] == stagedEvents[..i] + [stagedEvents[i]];
        var event := stagedEvents[i];
        if event.Mutation().DeleteRange? && event.Mutation().range.CoversKey(k) {
          floor := MaxVer(floor, Some(event.Ver()));
        }
        i := i + 1;
      }
      assert stagedEvents[..|stagedEvents|] == stagedEvents;
    }

    /** The version a point write at `k` must exceed. */
    method PointFloor(k: Key) returns (floor: Option<nat>)
      requires Valid()
      ensures forall ver :: Above(floor, ver) <==> Outranks(History(), Delete(k), ver)
    {
      var own := if k in staged then Some(staged[k].Ver()) else if k in base.points then Some(base.points[k].Ver())
          else None;
      var covering := CoveringRangeMaxVer(k);
      floor := AboveStagedResets(k, MaxVer(own, covering));
      forall ver: nat ensures Above(floor, ver) <==> Outranks(History(), Delete(k), ver) {
        PointFloorIsExact(before, stagedEvents, k, own, ver);
      }
    }

    /** Raise a floor past everything in the request that bears on `r`. */
    method AboveStagedRelevant(r: Range, stored: Option<nat>) returns (floor: Option<nat>)
      ensures forall ver :: Above(floor, ver) <==> Above(stored, ver) && Outranks(stagedEvents, DeleteRange(r), ver)
    {
      floor := stored;
      var i := 0;
      while i < |stagedEvents|
        invariant 0 <= i <= |stagedEvents|
        invariant forall ver :: Above(floor, ver) <==>
          Above(stored, ver) && Outranks(stagedEvents[..i], DeleteRange(r), ver)
      {
        assert stagedEvents[..i + 1] == stagedEvents[..i] + [stagedEvents[i]];
        if Relevant(r, stagedEvents[i].Mutation()) {
          floor := MaxVer(floor, Some(stagedEvents[i].Ver()));
        }
        i := i + 1;
      }
      assert stagedEvents[..|stagedEvents|] == stagedEvents;
    }

    /** The version a range delete at `r` must exceed. */
    method RangeFloor(r: Range) returns (floor: Option<nat>)
      requires Valid()
      ensures forall ver :: Above(floor, ver) <==> Outranks(History(), DeleteRange(r), ver)
    {
      var heads, ver0 := EffectiveHistory(r);
      floor := AboveStagedRelevant(r, if heads.MaxSeq() != 0 then Some(ver0) else None);
      forall ver: nat ensures Above(floor, ver) <==> Outranks(History(), DeleteRange(r), ver) {
        RangeGateIsExact(before, r, ver);
        OutranksConcat(before, stagedEvents, DeleteRange(r), ver);
      }
    }

    method PointRecordVisible(k: Key) returns (live: bool)
      requires Valid()
      ensures live <==> Visible(View().points, View().tombs, k)
    {
      if k !in staged && k !in base.points {
        return false;
      }
      var record := if k in staged then staged[k] else base.points[k];
      if !record.Mutation().Set? {
        return false;
      }
      var reset := NewestCoveringReset(Prefix(k));
      ResetDecidesVisible(History(), k, reset);
      return reset.None? || reset.value.Less(record.order);
    }

    method ApplyRange(e: AdmittedEntry, r: Range)
      requires Valid() && Ordered(History() + [e]) && e.Mutation() == DeleteRange(r)
      modifies this`stagedNodes, this`stagedRanges
      ensures base.tombs + stagedRanges == TombsAfter(old(View()).tombs, e)
      ensures base.nodes + stagedNodes == Apply(old(View()), e).nodes
    {
      StoredBefore(before, stagedEvents, e);
      ApplyRangeCount(e, r);
      StageRange(e, r);
    }

    method FoldRangeDelete(e: AdmittedEntry, r: Range)
      requires Valid() && Ordered(History() + [e]) && e.Mutation() == DeleteRange(r)
      requires Outranks(History(), e.Mutation(), e.Ver())
      modifies this
      ensures Valid() && stagedEvents == old(stagedEvents) + [e]
    {
      ghost var view, h := View(), History();
      ApplyRange(e, r);
      RecordApplied(e, view, h);
    }

    method FoldPoint(e: AdmittedEntry, k: Key, live: bool)
      requires Valid() && Ordered(History() + [e]) && !e.Mutation().DeleteRange? && e.Mutation().key == k
      requires Outranks(History(), e.Mutation(), e.Ver()) && live == Visible(View().points, View().tombs, k)
      modifies this
      ensures Valid() && stagedEvents == old(stagedEvents) + [e]
    {
      ghost var view, h := View(), History();
      ApplyPointCount(e, k, Bit(e.Mutation().Set?) - Bit(live));
      UpdateMerges(base.points, staged, k, e);
      staged := staged[k := e];
      RecordApplied(e, view, h);
    }

    /**
     Check one operation against everything before it and, if it passes, fold it in.
     `floor` is the greatest version the operation had to exceed.
     */
    method StageEntry(e: AdmittedEntry) returns (ok: bool, floor: Option<nat>)
      requires Valid() && Ordered(History() + [e])
      modifies this
      ensures Valid()
      ensures ok <==> Outranks(old(History()), e.Mutation(), e.Ver())
      ensures floor == Floor(old(History()), e.Mutation())
      ensures stagedEvents == old(stagedEvents) + if ok then [e] else []
    {
      ghost var h := History();
      if e.Mutation().DeleteRange? {
        floor := RangeFloor(e.Mutation().range);
        ok := floor.None? || floor.value < e.Ver();
        assert ok <==> Above(floor, e.Ver());
        FloorIsUnique(h, e.Mutation(), floor);
        if ok {
          FoldRangeDelete(e, e.Mutation().range);
        }
      } else {
        var live := PointRecordVisible(e.Mutation().key);
        floor := PointFloor(e.Mutation().key);
        forall ver: nat ensures Above(floor, ver) <==> Outranks(h, e.Mutation(), ver) {
          SameAffected(h, e.Mutation(), ver);
        }
        ok := floor.None? || floor.value < e.Ver();
        assert ok <==> Above(floor, e.Ver());
        FloorIsUnique(h, e.Mutation(), floor);
        if ok {
          FoldPoint(e, e.Mutation().key, live);
        }
      }
    }

    method StageRange(e: AdmittedEntry, r: Range)
      requires e.Mutation() == DeleteRange(r)
      requires forall x :: x in base.tombs ==> base.tombs[x].entry.order.Less(e.order)
      modifies this`stagedRanges
      ensures base.tombs + stagedRanges == TombsAfter(base.tombs + old(stagedRanges), e)
    {
      if r in stagedRanges {
        stagedRanges := stagedRanges[r := ObserveRecord(stagedRanges[r], e)];
      } else {
        var record := if r in base.tombs then base.tombs[r] else NewRecord(e);
        if record.entry.order != e.order {
          record := ObserveRecord(record, e);
        }
        stagedRanges := stagedRanges[r := record];
      }
    }

    /** Remember an operation whose effect is already staged. */
    method Record(e: AdmittedEntry, ghost h: seq<AdmittedEntry>, ghost now: Tree)
      requires base == Materialize(before) && Ordered(before) && Admitted(before) && History() == h
      requires Ordered(h + [e]) && Admitted(h + [e]) && now == Materialize(h + [e])
      requires base.points + staged == now.points && base.tombs + stagedRanges == now.tombs
      requires base.nodes + stagedNodes == now.nodes
      modifies this`stagedEvents
      ensures Valid() && stagedEvents == old(stagedEvents) + [e]
    {
      Associate(before, stagedEvents, [e]);
      stagedEvents := stagedEvents + [e];
    }

    /** The same, from the state the operation was applied to. */
    method RecordApplied(e: AdmittedEntry, ghost view: Tree, ghost h: seq<AdmittedEntry>)
      requires base == Materialize(before) && Ordered(before) && Admitted(before) && History() == h
      requires view == Materialize(h) && Ordered(h) && Ordered(h + [e]) && Admitted(h)
      requires Outranks(h, e.Mutation(), e.Ver()) && base.points + staged == PointsAfter(view.points, e)
      requires base.tombs + stagedRanges == TombsAfter(view.tombs, e)
      requires base.nodes + stagedNodes == Apply(view, e).nodes
      modifies this`stagedEvents
      ensures Valid() && stagedEvents == old(stagedEvents) + [e]
    {
      MaterializeNext(h, e);
      Record(e, h, Materialize(h + [e]));
    }
  }

  /** One more operation that passes the gate. */
  lemma {:induction false} MaterializeNext(h: seq<AdmittedEntry>, e: AdmittedEntry)
    requires Ordered(h) && Admitted(h) && Outranks(h, e.Mutation(), e.Ver())
    ensures Admitted(h + [e])
    ensures Materialize(h + [e]).points == PointsAfter(Materialize(h).points, e)
    ensures Materialize(h + [e]).tombs == TombsAfter(Materialize(h).tombs, e)
    ensures Materialize(h + [e]).nodes == Apply(Materialize(h), e).nodes
  {
    GateIsExact(h, e.Mutation(), e.Ver());
    assert (h + [e])[..|h|] == h;
  }

  /** Carry the newest reset past further operations. */
  method ResetAfter(ghost h: seq<AdmittedEntry>, events: seq<AdmittedEntry>, target: Range,
                    stored: Option<AdmissionOrder>)
    returns (reset: Option<AdmissionOrder>)
    requires IsReset(h, target, stored)
    ensures IsReset(h + events, target, reset)
  {
    reset := stored;
    assert h + events[..0] == h;
    for i := 0 to |events|
      invariant IsReset(h + events[..i], target, reset)
    {
      var event := events[i];
      ResetStep(h + events[..i], event, target, reset);
      PrefixGrows(events, i);
      Associate(h, events[..i], [event]);
      if event.Mutation().DeleteRange? && event.Mutation().range.CoversRange(target) {
        reset := Some(Later(reset, event.order));
      }
    }
    assert events[..|events|] == events;
  }

  // ----- one entry ------------------------------------------------------------------

  predicate Above(floor: Option<nat>, ver: nat) { floor.Some? ==> floor.value < ver }

  function MaxVer(left: Option<nat>, right: Option<nat>): (r: Option<nat>)
    ensures forall ver :: Above(r, ver) <==> Above(left, ver) && Above(right, ver)
  {
    match (left, right)
    case (Some(a), Some(b)) => Some(Max(a, b))
    case (Some(a), None) => left
    case (None, _) => right
  }

  /** The greatest version in the history among operations that bear on `m`. */
  function Floor(h: seq<AdmittedEntry>, m: Mutation): Option<nat> {
    if h == [] then None
    else
      var last := h[|h| - 1];
      MaxVer(Floor(h[..|h| - 1], m), if Affects(last.Mutation(), m) then Some(last.Ver()) else None)
  }

  lemma {:induction false} FloorIsExact(h: seq<AdmittedEntry>, m: Mutation, ver: nat)
    ensures Above(Floor(h, m), ver) <==> Outranks(h, m, ver)
  {
    if h != [] {
      var g, e := h[..|h| - 1], h[|h| - 1];
      FloorIsExact(g, m, ver);
      assert forall x :: x in h <==> x in g || x == e;
    }
  }

  /** Only the floor itself has exactly the right versions above it. */
  lemma {:induction false} FloorIsUnique(h: seq<AdmittedEntry>, m: Mutation, floor: Option<nat>)
    requires forall ver :: Above(floor, ver) <==> Outranks(h, m, ver)
    ensures floor == Floor(h, m)
  {
    var known := Floor(h, m);
    FloorIsExact(h, m, 0);
    assert Above(floor, 0) <==> Above(known, 0);
    if known.Some? {
      FloorIsExact(h, m, known.value);
      FloorIsExact(h, m, known.value + 1);
      assert !Above(floor, known.value) && Above(floor, known.value + 1);
    }
  }

  lemma {:induction false} EmptyMerge<K, V>(a: map<K, V>)
    ensures a + map[] == a
  {}

  lemma {:induction false} UpdateMerges<K, V>(a: map<K, V>, b: map<K, V>, k: K, v: V)
    ensures a + b[k := v] == (a + b)[k := v]
  {}

  lemma {:induction false} OutranksConcat(a: seq<AdmittedEntry>, b: seq<AdmittedEntry>, m: Mutation, ver: nat)
    ensures Outranks(a + b, m, ver) <==> Outranks(a, m, ver) && Outranks(b, m, ver)
  {
    assert forall x :: x in a + b <==> x in a || x in b;
  }

  lemma {:induction false} SameAffected(h: seq<AdmittedEntry>, m: Mutation, ver: nat)
    requires !m.DeleteRange?
    ensures Outranks(h, m, ver) <==> Outranks(h, Delete(m.key), ver)
  {
    assert forall x :: x in h ==> Affects(x.Mutation(), m) == Affects(x.Mutation(), Delete(m.key));
  }

  /** Stored tombstones, the key's own record and the request's events together bound everything affected. */
  lemma {:induction false} PointFloorIsExact(before: seq<AdmittedEntry>, events: seq<AdmittedEntry>, k: Key,
                                             own: Option<nat>, ver: nat)
    requires Admitted(before + events)
    requires own == if k in Materialize(before + events).points then Some(Materialize(before + events).points[k].Ver())
             else None
    ensures Outranks(before + events, Delete(k), ver) <==>
            && Above(own, ver)
            && (forall r :: r in Materialize(before).tombs && r.CoversKey(k) ==>
              Materialize(before).tombs[r].maxVer < ver)
            && ResetsBelow(events, Prefix(k), ver)
  {
    OutranksByParts(before + events, k, ver);
    TombsBoundResets(before, k, ver);
    assert forall x :: x in before + events <==> x in before || x in events;
  }

  /** `record` is the node at `n` with its count up to date, dated before `e`. */
  ghost predicate Current(record: NodeMeta, view: Tree, n: Range, e: AdmittedEntry) {
    && record.heads == view.Node(n).heads && record.maxVer == view.Node(n).maxVer
    && record.liveCount == EffectiveCount(view, n) && record.epoch.Less(e.order)
  }

  /** `now` is `prior` with the first `i` nodes on the path of `e` brought up to date. */
  ghost predicate PathMaterialized(prior: map<Range, NodeMeta>, now: map<Range, NodeMeta>, i: nat, view: Tree,
                                   e: AdmittedEntry) {
    forall n :: NodeMaterialized(prior, now, i, view, e, n)
  }

  ghost predicate NodeMaterialized(prior: map<Range, NodeMeta>, now: map<Range, NodeMeta>, i: nat, view: Tree,
                                   e: AdmittedEntry, n: Range) {
    if Done(n, e.Mutation().Target(), i) then n in now && Current(now[n], view, n, e)
    else (n in now <==> n in prior) && (n in now ==> now[n] == prior[n])
  }

  /** `now` is `prior` with the first `i` nodes on the path of `e` touched by it. */
  ghost predicate PathTouched(prior: map<Range, NodeMeta>, now: map<Range, NodeMeta>, i: nat, view: Tree,
                              e: AdmittedEntry) {
    forall n :: NodeTouched(prior, now, i, view, e, n)
  }

  ghost predicate NodeTouched(prior: map<Range, NodeMeta>, now: map<Range, NodeMeta>, i: nat, view: Tree,
                              e: AdmittedEntry, n: Range) {
    if Done(n, e.Mutation().Target(), i) then n in now && now[n] == Touched(view.Node(n), e, CountAfter(view, e, n))
    else (n in now <==> n in prior) && (n in now ==> now[n] == prior[n])
  }

  lemma {:induction false} MaterializedStep(prior: map<Range, NodeMeta>, now: map<Range, NodeMeta>, i: nat, view: Tree,
                                            e: AdmittedEntry, record: NodeMeta)
    requires i <= Depth(e.Mutation().Target()) && PathMaterialized(prior, now, i, view, e)
    requires Current(record, view, Ancestor(e.Mutation().Target(), i), e)
    ensures PathMaterialized(prior, now[Ancestor(e.Mutation().Target(), i) := record], i + 1, view, e)
  {
    var next := now[Ancestor(e.Mutation().Target(), i) := record];
    var j := i + 1;
    forall n ensures NodeMaterialized(prior, next, j, view, e, n) {
      NextNode(e.Mutation().Target(), i, n);
      assert NodeMaterialized(prior, now, i, view, e, n);
    }
  }

  lemma {:induction false} TouchedStep(prior: map<Range, NodeMeta>, now: map<Range, NodeMeta>, i: nat, view: Tree,
                                       e: AdmittedEntry)
    requires i <= Depth(e.Mutation().Target()) && PathTouched(prior, now, i, view, e)
    ensures var node := Ancestor(e.Mutation().Target(), i);
      PathTouched(prior, now[node := Touched(view.Node(node), e, CountAfter(view, e, node))], i + 1, view, e)
  {
    var node := Ancestor(e.Mutation().Target(), i);
    var next := now[node := Touched(view.Node(node), e, CountAfter(view, e, node))];
    var j := i + 1;
    forall n ensures NodeTouched(prior, next, j, view, e, n) {
      NextNode(e.Mutation().Target(), i, n);
      assert NodeTouched(prior, now, i, view, e, n);
    }
  }

  /** The record update of a range delete at one node of its path. */
  function AfterRangeDelete(record: NodeMeta, e: AdmittedEntry, last: bool, removed: int): NodeMeta {
    NodeMeta(
      Observe(record.heads, DeviceAdmission(e.Device(), e.order.admissionSeq)),
      Max(record.maxVer, e.Ver()),
      if last then 0 else record.liveCount - removed,
      if last then e.order else Later(Some(record.epoch), e.order))
  }

  lemma {:induction false} RangeCountStep(h: seq<AdmittedEntry>, e: AdmittedEntry, n: Range, record: NodeMeta,
                                          removed: int)
    requires Ordered(h + [e]) && Ordered(h) && e.Mutation().DeleteRange? && n.CoversRange(e.Mutation().range)
    requires record.heads == Materialize(h).Node(n).heads && record.maxVer == Materialize(h).Node(n).maxVer
    requires record.liveCount == EffectiveCount(Materialize(h), n) && record.epoch.Less(e.order)
    requires removed == EffectiveCount(Materialize(h), e.Mutation().range)
    ensures AfterRangeDelete(record, e, n == e.Mutation().range, removed)
         == Touched(Materialize(h).Node(n), e, CountAfter(Materialize(h), e, n))
    ensures n != e.Mutation().range ==> record.liveCount - removed >= 0
  {
    CountAfterIsExact(h, e, n);
  }

  lemma {:induction false} TouchedAfterMaterialized(prior: map<Range, NodeMeta>, middle: map<Range, NodeMeta>,
                                                    now: map<Range, NodeMeta>, i: nat, view: Tree, e: AdmittedEntry)
    requires PathMaterialized(prior, middle, i, view, e) && PathTouched(middle, now, i, view, e)
    ensures PathTouched(prior, now, i, view, e)
  {
    forall n ensures NodeTouched(prior, now, i, view, e, n) {
      assert NodeMaterialized(prior, middle, i, view, e, n) && NodeTouched(middle, now, i, view, e, n);
    }
  }

  lemma {:induction false} RangeCountDone(stored: map<Range, NodeMeta>, prior: map<Range, NodeMeta>,
                                          middle: map<Range, NodeMeta>, now: map<Range, NodeMeta>, view: Tree,
                                          e: AdmittedEntry)
    requires view.nodes == stored + prior
    requires PathMaterialized(prior, middle, Depth(e.Mutation().Target()) + 1, view, e)
    requires PathTouched(middle, now, Depth(e.Mutation().Target()) + 1, view, e)
    ensures stored + now == Apply(view, e).nodes
  {
    TouchedAfterMaterialized(prior, middle, now, Depth(e.Mutation().Target()) + 1, view, e);
    NodesMerge(stored, prior, now, view, e);
  }

  lemma {:induction false} NodeMerges(stored: map<Range, NodeMeta>, prior: map<Range, NodeMeta>,
                                      now: map<Range, NodeMeta>, view: Tree, e: AdmittedEntry, path: set<Range>,
                                      n: Range)
    requires view.nodes == stored + prior
             && (n in path <==> Done(n, e.Mutation().Target(), Depth(e.Mutation().Target()) + 1))
    requires NodeTouched(prior, now, Depth(e.Mutation().Target()) + 1, view, e, n)
    ensures var all, after := stored + now, NodesAfter(view, e, path);
      (n in all <==> n in after) && (n in all ==> all[n] == after[n])
  {}

  lemma {:induction false} NodesMerge(stored: map<Range, NodeMeta>, prior: map<Range, NodeMeta>,
                                      now: map<Range, NodeMeta>, view: Tree, e: AdmittedEntry)
    requires view.nodes == stored + prior
    requires PathTouched(prior, now, Depth(e.Mutation().Target()) + 1, view, e)
    ensures stored + now == Apply(view, e).nodes
  {
    var target := e.Mutation().Target();
    var path := PathSet(target);
    var all, after := stored + now, NodesAfter(view, e, path);
    forall n ensures (n in all <==> n in after) && (n in all ==> all[n] == after[n]) {
      PathIsCovering(n, target);
      AllDone(target, n);
      NodeMerges(stored, prior, now, view, e, path, n);
    }
    assert all == after;
  }

  lemma {:induction false} StoredBefore(h: seq<AdmittedEntry>, events: seq<AdmittedEntry>, e: AdmittedEntry)
    requires Ordered(h + events + [e]) && Ordered(h)
    ensures forall x :: x in Materialize(h).tombs ==> Materialize(h).tombs[x].entry.order.Less(e.order)
  {
    EarlierThanNext(h + events, e);
    forall x | x in Materialize(h).tombs ensures Materialize(h).tombs[x].entry.order.Less(e.order) {
      TombIsNewest(h, x);
      assert Materialize(h).tombs[x].entry in h + events;
    }
  }

  lemma {:induction false} EpochBefore(h: seq<AdmittedEntry>, e: AdmittedEntry, n: Range)
    requires Ordered(h + [e]) && Ordered(h)
    ensures Materialize(h).Node(n).epoch.Less(e.order)
  {
    MaterializationAgrees(h);
    SourcedPrecedes(Materialize(h), h, e);
  }

  /** Counts never go negative: the server's underflow checks never fire. */
  lemma {:induction false} CountAfterIsExact(h: seq<AdmittedEntry>, e: AdmittedEntry, n: Range)
    requires Ordered(h + [e]) && Ordered(h) && n.CoversRange(e.Mutation().Target())
    ensures CountAfter(Materialize(h), e, n) == |Under(Eager(h + [e]), n)|
  {
    MaterializationAgrees(h);
    SourcedPrecedes(Materialize(h), h, e);
    AgreesStep(Materialize(h), h, e);
    EffectiveStep(Materialize(h), e, n);
  }
}
