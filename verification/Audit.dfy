/**
 The auditor of the simulation (sim/src/check.rs): it reads the admission log from its
 rows, insisting that they are dense and that there are no others, replays it into
 fresh maps, recounting every touched subtree by brute force, and compares the
 result, the device records and the lease indexes with what the server stored.
 */
module Audit {
  import opened Types
  import opened DeviceHeads
  import opened RangeTree
  import opened Admission
  import opened Codec
  import opened Wire
  import opened Storage
  import opened AdmissionRows
  import opened AuditLog
  import opened AuditLeases
  import LeasedSpace
  import opened LeaseIndex
  import S = SpaceServer

  /** The newest tombstone over a key. */
  method NewestCovering(ranges: map<Range, RangeRecord>, k: Key) returns (newest: Option<AdmissionOrder>)
    ensures newest.None? <==> forall r :: r in ranges ==> !r.CoversKey(k)
    ensures newest.Some? ==> exists r :: r in ranges && r.CoversKey(k) && ranges[r].entry.order == newest.value
    ensures newest.Some? ==> forall r :: r in ranges && r.CoversKey(k) ==> !newest.value.Less(ranges[r].entry.order)
  {
    newest := None;
    var seen: set<Range> := {};
    while seen != ranges.Keys
      invariant seen <= ranges.Keys
      invariant newest.None? <==> forall r :: r in seen ==> !r.CoversKey(k)
      invariant newest.Some? ==> exists r :: r in seen && r.CoversKey(k) && ranges[r].entry.order == newest.value
      invariant newest.Some? ==> forall r :: r in seen && r.CoversKey(k) ==> !newest.value.Less(ranges[r].entry.order)
      decreases ranges.Keys - seen
    {
      SomethingLeft(ranges.Keys, seen);
      var r :| r in ranges && r !in seen;
      if r.CoversKey(k) && (newest.None? || newest.value.Less(ranges[r].entry.order)) {
        newest := Some(ranges[r].entry.order);
      }
      seen := seen + {r};
    }
  }

  class StoreAudit {
    var points: map<Key, AdmittedEntry>
    var ranges: map<Range, RangeRecord>
    var aggregates: map<Range, NodeMeta>

    constructor ()
      ensures View() == EMPTY_TREE
    {
      points, ranges, aggregates := map[], map[], map[];
    }

    function View(): Tree
      reads this
    {
      Tree(points, ranges, aggregates)
    }

    method IsVisible(k: Key) returns (live: bool)
      requires k in points
      ensures live <==> Visible(points, ranges, k)
    {
      if !points[k].Mutation().Set? {
        return false;
      }
      var newest := NewestCovering(ranges, k);
      return newest.None? || newest.value.Less(points[k].order);
    }

    /** Count the live keys below a range, one by one. */
    method VisibleCount(target: Range) returns (n: nat)
      ensures n == |VisibleUnder(points, ranges, target)|
    {
      n := 0;
      ghost var counted: set<Key> := {};
      var seen: set<Key> := {};
      while seen != points.Keys
        invariant seen <= points.Keys && n == |counted|
        invariant forall k :: k in counted <==> k in seen && target.CoversKey(k) && Visible(points, ranges, k)
        decreases points.Keys - seen
      {
        SomethingLeft(points.Keys, seen);
        var k :| k in points && k !in seen;
        var live := IsVisible(k);
        if target.CoversKey(k) && live {
          n := n + 1;
          counted := counted + {k};
        }
        seen := seen + {k};
      }
      assert counted == VisibleUnder(points, ranges, target);
    }

    /** The record of one node after an operation, with its keys recounted. */
    method Recount(e: AdmittedEntry, node: Range, ghost h: seq<AdmittedEntry>, ghost view: Tree)
      returns (record: NodeMeta)
      requires Ordered(h) && Ordered(h + [e]) && view == Materialize(h) && node.CoversRange(e.Mutation().Target())
      requires points == PointsAfter(view.points, e) && ranges == TombsAfter(view.tombs, e)
      requires (if node in aggregates then aggregates[node] else EMPTY_NODE) == view.Node(node)
      ensures record == Touched(view.Node(node), e, CountAfter(view, e, node))
    {
      record := if node in aggregates then aggregates[node] else EMPTY_NODE;
      var count := VisibleCount(node);
      RecountIsExact(h, e, node);
      record := NodeMeta(Observe(record.heads, Seen(e)), Max(record.maxVer, e.Ver()), count,
        Later(Some(record.epoch), e.order));
    }

    /** Observe one operation at every node of its path, recounting each. */
    method ReplayPath(e: AdmittedEntry, ghost h: seq<AdmittedEntry>, ghost view: Tree)
      requires Ordered(h) && Ordered(h + [e]) && view == Materialize(h)
      requires points == PointsAfter(view.points, e) && ranges == TombsAfter(view.tombs, e) && aggregates == view.nodes
      modifies this`aggregates
      ensures aggregates == Apply(view, e).nodes
    {
      var target := e.Mutation().Target();
      var i := 0;
      while i <= Depth(target)
        invariant 0 <= i <= Depth(target) + 1
        invariant PathTouched(view.nodes, aggregates, i, view, e)
      {
        var node := Ancestor(target, i);
        NextNode(target, i, node);
        assert NodeTouched(view.nodes, aggregates, i, view, e, node);
        var record := Recount(e, node, h, view);
        TouchedStep(view.nodes, aggregates, i, view, e);
        aggregates := aggregates[node := record];
        i := i + 1;
      }
      NothingStored(view.nodes);
      NothingStored(aggregates);
      NodesMerge(map[], view.nodes, aggregates, view, e);
    }

    method ReplayEntry(e: AdmittedEntry, ghost h: seq<AdmittedEntry>)
      requires Ordered(h) && Ordered(h + [e]) && View() == Materialize(h)
      modifies this
      ensures View() == Materialize(h + [e])
    {
      ghost var view := View();
      match e.Mutation() {
        case Set(k, _) => points := points[k := e];
        case Delete(k) => points := points[k := e];
        case DeleteRange(r) =>
          ranges := ranges[r := if r in ranges then ObserveRecord(ranges[r], e) else NewRecord(e)];
      }
      ReplayPath(e, h, view);
      MaterializeStep(h, e);
    }

    /** Replaying a log by brute force reproduces the incremental state. */
    method Replay(history: seq<AdmittedEntry>)
      requires Ordered(history) && View() == EMPTY_TREE
      modifies this
      ensures View() == Materialize(history)
    {
      for i := 0 to |history|
        invariant View() == Materialize(history[..i])
      {
        PrefixOrdered(history, i);
        ReplayEntry(history[i], history[..i]);
      }
      assert history[..|history|] == history;
    }
  }

  lemma {:induction false} PrefixOrdered(h: seq<AdmittedEntry>, i: nat)
    requires Ordered(h) && i < |h|
    ensures Ordered(h[..i]) && Ordered(h[..i] + [h[i]]) && h[..i] + [h[i]] == h[..i + 1]
  {}

  lemma {:induction false} NothingStored(m: map<Range, NodeMeta>)
    ensures map[] + m == m
  {}

  lemma {:induction false} MaterializeStep(h: seq<AdmittedEntry>, e: AdmittedEntry)
    ensures Materialize(h + [e]) == Apply(Materialize(h), e)
  {
    assert (h + [e])[..|h|] == h;
  }

  /** At a node of the path, the recount is what the incremental path writes, and the epoch moves to the operation. */
  lemma {:induction false} RecountIsExact(h: seq<AdmittedEntry>, e: AdmittedEntry, n: Range)
    requires Ordered(h) && Ordered(h + [e]) && n.CoversRange(e.Mutation().Target())
    ensures var t := Materialize(h);
      && |VisibleUnder(PointsAfter(t.points, e), TombsAfter(t.tombs, e), n)| == CountAfter(t, e, n)
      && t.Node(n).epoch.Less(e.order)
  {
    MaterializationAgrees(h);
    PathIsCovering(n, e.Mutation().Target());
    AuditCount(Materialize(h), h, e, n);
    EpochBefore(h, e, n);
  }

  // ----- the whole audit -----------------------------------------------------------------------

  lemma {:induction false} BatchOrdered(h: seq<AdmittedEntry>, b: LogBatch, i: nat)
    requires Ordered(h) && S.Before(h, AdmissionOrder(b.admissionSeq, 0)) && 1 <= b.admissionSeq && WellFormed(b)
             && i <= |b.entries|
    ensures Ordered(h + b.entries[..i]) && S.Before(h + b.entries[..i], AdmissionOrder(b.admissionSeq, i))
  {
    if i == 0 {
      assert h + b.entries[..0] == h;
    } else {
      BatchOrdered(h, b, i - 1);
      assert EntryAgrees(b, i - 1);
      S.OrderedAppend(h + b.entries[..i - 1], b.entries[i - 1]);
      assert h + b.entries[..i] == (h + b.entries[..i - 1]) + [b.entries[i - 1]];
    }
  }

  /** A dense log is a history in admission order. */
  lemma {:induction false} LogIsOrdered(log: seq<LogBatch>)
    requires forall m :: 0 <= m < |log| ==> log[m].admissionSeq == m + 1 && WellFormed(log[m])
    ensures Ordered(S.Entries(log)) && S.Before(S.Entries(log), AdmissionOrder(|log| + 1, 0))
  {
    if log != [] {
      var b := log[|log| - 1];
      LogIsOrdered(log[..|log| - 1]);
      BatchOrdered(S.Entries(log[..|log| - 1]), b, |b.entries|);
      assert b.entries[..|b.entries|] == b.entries;
    }
  }

  lemma {:induction false} PassingIsOrdered(data: map<Bytes, Row>, space: Bytes, high: nat, log: seq<LogBatch>)
    requires Passes(data, space, high, log)
    ensures Ordered(S.Entries(log))
  {
    LogIsOrdered(log);
  }

  /** All operations of a log, in order. */
  method Flatten(log: seq<LogBatch>) returns (history: seq<AdmittedEntry>)
    ensures history == S.Entries(log)
  {
    history := [];
    for i := 0 to |log|
      invariant history == S.Entries(log[..i])
    {
      assert log[..i + 1][..i] == log[..i];
      history := history + log[i].entries;
    }
    assert log[..|log|] == log;
  }

  /** Every device that wrote has the record its newest header says. */
  predicate DevicesAgree(heads: map<DeviceId, S.DeviceRecord>, devices: map<DeviceId, S.DeviceRecord>) {
    forall d :: d in heads ==> d in devices && devices[d] == heads[d]
  }

  /** What a sound store holds: the rows of a log, its materialization and its device records. */
  ghost predicate Sound(data: map<Bytes, Row>, space: Bytes, high: nat, tree: Tree,
                        devices: map<DeviceId, S.DeviceRecord>, log: seq<LogBatch>)
  {
    Passes(data, space, high, log) && tree == Materialize(S.Entries(log)) && DevicesAgree(LastHeads(log), devices)
  }

  method CheckDevices(heads: map<DeviceId, S.DeviceRecord>, devices: map<DeviceId, S.DeviceRecord>) returns (ok: bool)
    ensures ok <==> DevicesAgree(heads, devices)
  {
    var rest := heads.Keys;
    while rest != {}
      invariant rest <= heads.Keys
      invariant forall d :: d in heads && d !in rest ==> d in devices && devices[d] == heads[d]
      decreases |rest|
    {
      var d :| d in rest;
      if d !in devices || devices[d] != heads[d] {
        return false;
      }
      rest := rest - {d};
    }
    return true;
  }

  /** Replay a history by brute force and compare. */
  method CheckTree(stored: Tree, history: seq<AdmittedEntry>) returns (ok: bool)
    requires Ordered(history)
    ensures ok <==> stored == Materialize(history)
  {
    var audit := new StoreAudit();
    audit.Replay(history);
    return stored.points == audit.points && stored.tombs == audit.ranges && stored.nodes == audit.aggregates;
  }

  /** The log, the materialized state and the device records of a store. */
  method CheckHistory(store: MemoryStore<Row>, space: Bytes, high: nat, tree: Tree,
                      devices: map<DeviceId, S.DeviceRecord>)
    returns (ok: bool)
    requires ValidSpace(space) && high < U64_LIMIT
    ensures ok <==> exists log :: Sound(store.data, space, high, tree, devices, log)
  {
    var log, heads := ReadLog(store, space, high);
    if log.None? {
      return false;
    }
    PassingIsOrdered(store.data, space, high, log.value);
    var history := Flatten(log.value);
    var same := CheckTree(tree, history);
    var known := CheckDevices(heads, devices);
    ok := same && known;
    assert ok ==> Sound(store.data, space, high, tree, devices, log.value);
  }

  /** The auditor accepts a store exactly when some log explains all of it and its lease indexes agree. */
  method CheckStore(store: MemoryStore<Row>, index: MemoryStore<LeaseRecord>, space: Bytes, high: nat, nextLease: nat,
                    tree: Tree, devices: map<DeviceId, S.DeviceRecord>)
    returns (ok: bool)
    requires ValidSpace(space) && high < U64_LIMIT
    ensures ok <==> (exists log :: Sound(store.data, space, high, tree, devices, log))
                    && LeasesSound(index.data, space, nextLease)
  {
    var explained := CheckHistory(store, space, high, tree, devices);
    var leased := CheckLeases(index, space, nextLease);
    return explained && leased;
  }

  // ----- every server passes -----------------------------------------------------------------------

  lemma {:induction false} HeadsAreStreams(log: seq<LogBatch>, d: DeviceId)
    requires S.LogValid(log)
    ensures d in LastHeads(log) ==>
              LastHeads(log)[d] == S.DeviceRecord(LastSeq(S.StreamOf(log, d)), S.StreamOf(log, d))
                && S.StreamOf(log, d) != []
    ensures d !in LastHeads(log) ==> S.StreamOf(log, d) == []
  {
    if log != [] {
      HeadsAreStreams(log[..|log| - 1], d);
      assert S.Link(log[..|log| - 1], log[|log| - 1]);
    }
  }

  lemma {:induction false} ValidLogAscends(log: seq<LogBatch>)
    requires S.LogValid(log)
    ensures SeqsAscend(log)
  {
    if log != [] {
      var front, b := log[..|log| - 1], log[|log| - 1];
      ValidLogAscends(front);
      HeadsAreStreams(front, b.device);
      assert S.Link(front, b);
    }
  }

  lemma {:induction false} LogPassesAudit(server: S.Server, data: map<Bytes, Row>, space: Bytes)
    requires server.Valid() && Stores(data, space, server.log)
    ensures Sound(data, space, |server.log|, server.tree, server.devices, server.log)
  {
    var log := server.log;
    ValidLogAscends(log);
    forall d | d in LastHeads(log) ensures d in server.devices && server.devices[d] == LastHeads(log)[d] {
      HeadsAreStreams(log, d);
      assert server.Record(d) == S.DeviceRecord(LastSeq(S.StreamOf(log, d)), S.StreamOf(log, d));
    }
  }

  /** Whatever the verbs of a space have done, the auditor accepts all of it. */
  lemma {:induction false} ServerPassesAudit(space: LeasedSpace.Space)
    requires space.Valid()
    ensures ValidSpace(space.id) && |space.server.log| < U64_LIMIT
    ensures exists log :: Sound(space.rows.data, space.id, |space.server.log|, space.server.tree, space.server.devices,
                                log)
    ensures LeasesSound(space.manager.index.data, space.id, space.manager.next)
  {
    LogPassesAudit(space.server, space.rows.data, space.id);
    IndexPassesAudit(space.manager.index.data, space.id, space.manager.leases, space.manager.next);
  }
}
