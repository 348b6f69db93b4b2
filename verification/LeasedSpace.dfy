/**
 One space with its stored rows (server/src/space/mod.rs, server/src/space/data.rs).

 A space keeps its leases beside its log. A request is judged with the verdict the
 lease index gives on every key and range it writes, so whatever enters the log was
 not standing under another device's live lease. What was admitted is written as
 header and operation rows in one batch, and a pull reads it back from those rows.
 */
module LeasedSpace {
  import opened Types
  import opened Wire
  import opened Keys
  import opened Storage
  import opened SpaceServer
  import opened LeaseIndex
  import opened Leases
  import opened AdmissionRows
  import opened Codec

  function PointKeys(entries: seq<DeviceEntry>): seq<Key> {
    if entries == [] then []
    else
      var m := entries[|entries| - 1].mutation;
      PointKeys(entries[..|entries| - 1]) + if m.DeleteRange? then [] else [m.key]
  }

  function DeletedRanges(entries: seq<DeviceEntry>): seq<Range> {
    if entries == [] then []
    else
      var m := entries[|entries| - 1].mutation;
      DeletedRanges(entries[..|entries| - 1]) + if m.DeleteRange? then [m.range] else []
  }

  /** Every operation of a request, in order. */
  function Written(batches: seq<AdmissionBatch>): seq<DeviceEntry> {
    if batches == [] then [] else Written(batches[..|batches| - 1]) + batches[|batches| - 1].entries
  }

  lemma {:induction false} TargetsStep(entries: seq<DeviceEntry>, e: DeviceEntry)
    ensures PointKeys(entries + [e]) == PointKeys(entries) + if e.mutation.DeleteRange? then [] else [e.mutation.key]
    ensures DeletedRanges(entries + [e]) == DeletedRanges(entries) + if e.mutation.DeleteRange? then [e.mutation.range]
            else []
  {
    assert (entries + [e])[..|entries|] == entries;
  }

  lemma {:induction false} TargetsAreWritten(entries: seq<DeviceEntry>)
    ensures forall k :: k in PointKeys(entries) <==>
            exists e :: e in entries && !e.mutation.DeleteRange? && e.mutation.key == k
    ensures forall g :: g in DeletedRanges(entries) <==> exists e :: e in entries && e.mutation == DeleteRange(g)
  {
    if entries != [] {
      var front, last := entries[..|entries| - 1], entries[|entries| - 1];
      TargetsAreWritten(front);
      assert forall e :: e in entries <==> e in front || e == last;
      forall k
        ensures k in PointKeys(entries) <==> exists e :: e in entries && !e.mutation.DeleteRange? && e.mutation.key == k
      {
        if k in PointKeys(front) {
          var e :| e in front && !e.mutation.DeleteRange? && e.mutation.key == k;
          assert e in entries;
        }
      }
      forall g ensures g in DeletedRanges(entries) <==> exists e :: e in entries && e.mutation == DeleteRange(g) {
        if g in DeletedRanges(front) {
          var e :| e in front && e.mutation == DeleteRange(g);
          assert e in entries;
        }
      }
    }
  }

  /** No live lease of another device covers the key, or overlaps the range. */
  ghost predicate Unleased(leases: set<LeaseRecord>, device: DeviceId, now: nat, m: Mutation) {
    match m
    case DeleteRange(g) => RangeFree(leases, device, now, g)
    case _ => KeyFree(leases, device, now, m.key)
  }

  ghost function LeaseVerdict(leases: set<LeaseRecord>, device: DeviceId, now: nat,
                              batches: seq<AdmissionBatch>): Option<Rejection> {
    var entries := Written(batches);
    Verdict(leases, device, now, PointKeys(entries), DeletedRanges(entries))
  }

  /** The verdict passes a request exactly when none of its operations stands under a foreign lease. */
  lemma {:induction false} VerdictJudgesOperations(leases: set<LeaseRecord>, device: DeviceId, now: nat,
                                                   batches: seq<AdmissionBatch>)
    ensures LeaseVerdict(leases, device, now, batches).None? <==>
            forall e :: e in Written(batches) ==> Unleased(leases, device, now, e.mutation)
  {
    var entries := Written(batches);
    TargetsAreWritten(entries);
    VerdictIsExact(leases, device, now, PointKeys(entries), DeletedRanges(entries));
    if LeaseVerdict(leases, device, now, batches).None? {
      forall e | e in entries ensures Unleased(leases, device, now, e.mutation) {
        assert if e.mutation.DeleteRange? then e.mutation.range in DeletedRanges(entries)
            else e.mutation.key in PointKeys(entries);
      }
    }
  }

  /** Add what one batch writes. */
  method MoreTargets(entries: seq<DeviceEntry>, ghost before: seq<DeviceEntry>, keys: seq<Key>, ranges: seq<Range>)
    returns (keys': seq<Key>, ranges': seq<Range>)
    requires keys == PointKeys(before) && ranges == DeletedRanges(before)
    ensures keys' == PointKeys(before + entries) && ranges' == DeletedRanges(before + entries)
  {
    keys', ranges' := keys, ranges;
    assert before + entries[..0] == before;
    for j := 0 to |entries|
      invariant keys' == PointKeys(before + entries[..j]) && ranges' == DeletedRanges(before + entries[..j])
    {
      TargetsStep(before + entries[..j], entries[j]);
      assert before + entries[..j + 1] == (before + entries[..j]) + [entries[j]];
      match entries[j].mutation
      case Set(k, _) => keys' := keys' + [k];
      case Delete(k) => keys' := keys' + [k];
      case DeleteRange(g) => ranges' := ranges' + [g];
    }
    assert entries[..|entries|] == entries;
  }

  /** The keys and ranges a request writes. */
  method Targets(batches: seq<AdmissionBatch>) returns (keys: seq<Key>, ranges: seq<Range>)
    ensures keys == PointKeys(Written(batches)) && ranges == DeletedRanges(Written(batches))
  {
    keys, ranges := [], [];
    for i := 0 to |batches|
      invariant keys == PointKeys(Written(batches[..i])) && ranges == DeletedRanges(Written(batches[..i]))
    {
      keys, ranges := MoreTargets(batches[i].entries, Written(batches[..i]), keys, ranges);
      assert batches[..i + 1][..i] == batches[..i];
    }
    assert batches[..|batches|] == batches;
  }

  /** Keys and prefixes within their limits, as every constructed one is. */
  ghost predicate TargetsFit(entries: seq<DeviceEntry>) {
    forall e :: e in entries ==> ValidTarget(TargetOf(e.mutation))
  }

  lemma {:induction false} WrittenAt(batches: seq<AdmissionBatch>, i: nat, e: DeviceEntry)
    requires i < |batches| && e in batches[i].entries
    ensures e in Written(batches)
  {
    if i < |batches| - 1 {
      WrittenAt(batches[..|batches| - 1], i, e);
    }
  }

  /** The batches a request added to the log fit their rows. */
  lemma {:induction false} AddedIsStorable(before: seq<LogBatch>, log: seq<LogBatch>, device: DeviceId,
                                           batches: seq<AdmissionBatch>, m: nat)
    requires Extends(before, log, device, batches, |batches|) && |before| <= m < |log| < U64_LIMIT
             && TargetsFit(Written(batches))
    ensures Storable(log[m]) && log[m].admissionSeq == m + 1
  {
    var b, j := log[m], m - |before|;
    LinkAt(log, m);
    LinkIsWellFormed(log, m);
    assert PlacedAt(before, log, device, batches, j);
    assert b.checksum[|b.checksum| - 1] == batches[j];
    forall i | 0 <= i < |b.entries| ensures ValidTarget(TargetOf(b.entries[i].Mutation())) {
      assert b.entries[i] == Stamp(batches[j], b.admissionSeq, i);
      WrittenAt(batches, j, batches[j].entries[i]);
    }
  }

  /**
   A request was judged as the whole history demands, extended the log by exactly its own batches or
   left it alone, and touched no other device's stream.
   */
  ghost predicate Decided(before: seq<LogBatch>, log: seq<LogBatch>, device: DeviceId, expected: Checksum,
                          batches: seq<AdmissionBatch>, contended: Option<Rejection>, answer: Answer)
  {
    var stream := StreamOf(before, device);
    && answer == Judge(Entries(before), device, stream, expected, batches, contended, |before| + 1)
    && Served(before, log, device, expected, batches, contended, answer)
    && AdmitStep(stream, expected, batches, StreamOf(log, device), answer)
    && Elsewhere(before, log, device)
    && before <= log
    && (log != before ==> contended.None? && Extends(before, log, device, batches, |batches|))
  }

  lemma {:induction false} DecisionHolds(before: seq<LogBatch>, log: seq<LogBatch>, device: DeviceId,
                                         expected: Checksum, batches: seq<AdmissionBatch>,
                                         contended: Option<Rejection>, answer: Answer)
    requires var h, stream, at := Entries(before), StreamOf(before, device), |before| + 1;
      && answer == Judge(h, device, stream, expected, batches, contended, at)
      && (if Takes(h, device, stream, expected, batches, contended, at)
          then Extends(before, log, device, batches, |batches|) else log == before)
      && AdmitStep(stream, expected, batches, StreamOf(log, device), answer)
    requires Served(before, log, device, expected, batches, contended, answer) && Elsewhere(before, log, device)
    ensures Decided(before, log, device, expected, batches, contended, answer)
    ensures |before| <= |log| <= |before| + |batches| && log[..|before|] == before
    ensures log != before ==> Extends(before, log, device, batches, |batches|)
  {}

  // ----- what a verb may do to the log and the leases ------------------------------------------

  /** The log of a space and its leases. */
  datatype Held = Held(log: seq<LogBatch>, table: Table)

  /** The log is as it was, or longer by one request that stood under no live foreign lease. */
  ghost predicate LogMoves(log: seq<LogBatch>, log': seq<LogBatch>, leases: set<LeaseRecord>, now: nat) {
    log' == log || exists device, batches :: TakenFree(log, log', leases, now, device, batches)
  }

  ghost predicate TakenFree(log: seq<LogBatch>, log': seq<LogBatch>, leases: set<LeaseRecord>, now: nat,
                            device: DeviceId, batches: seq<AdmissionBatch>)
  {
    && Extends(log, log', device, batches, |batches|)
    && forall e :: e in Written(batches) ==> Unleased(leases, device, now, e.mutation)
  }

  /** Who acts, when, and which leases it asks to release. */
  datatype Act = Act(device: DeviceId, now: nat, releases: set<nat>)

  /** A live lease of the acting device with a fresh deadline. */
  ghost predicate Renews(act: Act, q: LeaseRecord, r: LeaseRecord) {
    && q.Live(act.now) && q.device == act.device
    && r == q.(deadline := r.deadline) && Ends(act.now, q.ttl, r.deadline)
  }

  /** A lease as it was, or renewed. */
  ghost predicate Continues(leases: set<LeaseRecord>, act: Act, r: LeaseRecord) {
    r in leases || exists q :: q in leases && Renews(act, q, r)
  }

  /** Two leases that exclude each other: they overlap, and not both are read leases. */
  ghost predicate Conflict(a: LeaseRecord, b: LeaseRecord) {
    Prefix(a.prefix).Overlaps(Prefix(b.prefix)) && (a.mode.Write? || b.mode.Write?)
  }

  /** A lease of the acting device under a new identity, granted at the end of the log against no live one. */
  ghost predicate New(t: Table, t': Table, act: Act, barrier: nat, r: LeaseRecord) {
    && t.next <= r.id && r.device == act.device && r.barrier == barrier && Ends(act.now, r.ttl, r.deadline)
    && forall s :: s in t'.leases && s != r && s.Live(act.now) ==> !Conflict(r, s)
  }

  /** A live lease stays: unchanged if it is not the actor's, and else unless the actor renews or releases it. */
  ghost predicate Stays(leases: set<LeaseRecord>, act: Act, q: LeaseRecord) {
    || q in leases
    || (q.device == act.device && (q.id in act.releases || exists r :: r in leases && Renews(act, q, r)))
  }

  ghost predicate TableMoves(t: Table, t': Table, act: Act, barrier: nat) {
    && t.next <= t'.next && TableOk(t'.leases, t'.next)
    && (forall r :: r in t'.leases ==> Continues(t.leases, act, r) || New(t, t', act, barrier, r))
    && (forall q :: q in t.leases && q.Live(act.now) ==> Stays(t'.leases, act, q))
  }

  /** What any verb does. */
  ghost predicate Step(y: Held, act: Act, y': Held) {
    || (y'.table == y.table && LogMoves(y.log, y'.log, y.table.leases, act.now))
    || (y'.log == y.log && TableMoves(y.table, y'.table, act, |y.log|))
  }

  /** Two leases granted to one request do not conflict. */
  lemma {:induction false} GrantsAgree(next: nat, device: DeviceId, now: nat, barrier: nat, specs: seq<LeaseSpec>,
                                       a: LeaseRecord, b: LeaseRecord)
    requires forall i: nat, j: nat :: !ClashAt(specs, i, j)
    requires a in Grants(next, device, now, barrier, specs) && b in Grants(next, device, now, barrier, specs) && a != b
    ensures !Conflict(a, b)
  {
    GrantIsOne(next, device, now, barrier, specs, a);
    GrantIsOne(next, device, now, barrier, specs, b);
    if a.id < b.id {
      assert !ClashAt(specs, a.id - next, b.id - next);
    } else {
      assert !ClashAt(specs, b.id - next, a.id - next);
    }
  }

  /** A lease granted because nothing blocked it conflicts with no live lease. */
  lemma {:induction false} GrantIsNew(t: Table, t': Table, device: DeviceId, now: nat, barrier: nat,
                                      specs: seq<LeaseSpec>, r: LeaseRecord)
    requires Acquired(t, t', device, now, barrier, specs, Granted(Grants(t.next, device, now, barrier, specs)))
    requires r in Grants(t.next, device, now, barrier, specs)
    ensures New(t, t', Act(device, now, {}), barrier, r)
  {
    GrantIsOne(t.next, device, now, barrier, specs, r);
    var spec := specs[r.id - t.next];
    forall s | s in t'.leases && s != r && s.Live(now) ensures !Conflict(r, s) {
      if s in t.leases {
        assert !Blocked(t.leases, spec, now);
        assert !Blocks(spec, now, s);
      } else {
        GrantsAgree(t.next, device, now, barrier, specs, r, s);
      }
    }
  }

  lemma {:induction false} AcquireMoves(t: Table, t': Table, device: DeviceId, now: nat, barrier: nat,
                                        specs: seq<LeaseSpec>, result: AcquireResult)
    requires Acquired(t, t', device, now, barrier, specs, result) && TableOk(t'.leases, t'.next)
    ensures TableMoves(t, t', Act(device, now, {}), barrier)
  {
    if result.Granted? {
      var act := Act(device, now, {});
      forall r | r in t'.leases ensures Continues(t.leases, act, r) || New(t, t', act, barrier, r) {
        if r !in t.leases {
          GrantIsNew(t, t', device, now, barrier, specs, r);
        }
      }
    }
  }

  lemma {:induction false} RenewMoves(t: Table, t': Table, device: DeviceId, now: nat, ids: seq<nat>, barrier: nat)
    requires RenewedAs(t.leases, t'.leases, ids, device, now) && TableOk(t.leases, t.next)
    requires t'.next == t.next && TableOk(t'.leases, t'.next)
    ensures TableMoves(t, t', Act(device, now, {}), barrier)
  {
    var act := Act(device, now, {});
    forall q | q in t.leases && q.Live(now) ensures Stays(t'.leases, act, q) {
      if q !in t'.leases {
        assert Extended(q, t'.leases, now);
        var r :| r in t'.leases && r == q.(deadline := r.deadline) && Ends(now, q.ttl, r.deadline);
        assert Renews(act, q, r);
      }
    }
    forall r | r in t'.leases ensures Continues(t.leases, act, r) {
      RenewedFrom(t.leases, t'.leases, ids, device, now, r);
    }
  }

  /** Every lease a renewal leaves is an old one, or a renewed one. */
  lemma {:induction false} RenewedFrom(leases: set<LeaseRecord>, leases': set<LeaseRecord>, ids: seq<nat>,
                                       device: DeviceId, now: nat, r: LeaseRecord)
    requires RenewedAs(leases, leases', ids, device, now) && OwnIdentities(leases') && r in leases'
    ensures Continues(leases, Act(device, now, {}), r)
  {
    var q :| q in leases && q.id == r.id;
    if q.id in ids && now < q.deadline && q.device == device {
      var s :| s in leases' && s == q.(deadline := s.deadline) && Ends(now, q.ttl, s.deadline);
      assert s == r && Renews(Act(device, now, {}), q, r);
    }
  }

  lemma {:induction false} ReleaseMoves(t: Table, t': Table, device: DeviceId, now: nat, ids: seq<nat>, barrier: nat)
    requires ReleasedAs(t.leases, t'.leases, ids, device, now) && t'.next == t.next && TableOk(t'.leases, t'.next)
    ensures TableMoves(t, t', Act(device, now, set id | id in ids), barrier)
  {}

  class Space {
    const id: Bytes
    const server: Server
    const rows: MemoryStore<Row>
    const manager: LeaseManager

    constructor (space: Bytes, leases: LeaseManager)
      requires ValidSpace(space) && leases.Valid() && leases.space == space
      ensures Valid() && server.log == [] && fresh(server) && fresh(rows) && id == space && manager == leases
    {
      id, manager := space, leases;
      server := new Server();
      rows := new MemoryStore();
    }

    ghost predicate Valid()
      reads this, server, rows, manager, manager.index
    {
      && server.Valid() && |server.log| < U64_LIMIT && ValidSpace(id)
      && Stores(rows.data, id, server.log)
      && manager.Valid() && manager.space == id
    }

    ghost function View(): Held
      reads server, manager
    {
      Held(server.log, manager.View())
    }

    /** The verdict of the stored index on everything a request writes. */
    method CheckLeases(device: DeviceId, now: nat, batches: seq<AdmissionBatch>) returns (contended: Option<Rejection>)
      requires manager.Valid() && manager.space == id && TargetsFit(Written(batches))
      ensures contended == LeaseVerdict(manager.leases, device, now, batches)
      ensures contended.None? <==>
              forall e :: e in Written(batches) ==> Unleased(manager.leases, device, now, e.mutation)
    {
      var keys, ranges := Targets(batches);
      TargetsAreWritten(Written(batches));
      forall k | k in keys ensures |k| <= MAX_COMPONENTS {
        var e :| e in Written(batches) && !e.mutation.DeleteRange? && e.mutation.key == k;
        assert ValidTarget(TargetOf(e.mutation));
      }
      VerdictJudgesOperations(manager.leases, device, now, batches);
      contended := ValidateWrites(manager.index, id, device, now, keys, ranges, manager.leases);
    }

    /** Write what a request added to the log, all at once. */
    method WriteRows(ghost before: seq<LogBatch>, known: nat, ghost device: DeviceId,
                     ghost batches: seq<AdmissionBatch>)
      requires ValidSpace(id) && |server.log| < U64_LIMIT && TargetsFit(Written(batches))
      requires known == |before| <= |server.log| && server.log[..known] == before && Stores(rows.data, id, before)
      requires server.log != before ==> Extends(before, server.log, device, batches, |batches|)
      modifies rows
      ensures Stores(rows.data, id, server.log)
    {
      var log := server.log;
      forall m | known <= m < |log| ensures NewAt(log, m) {
        AddedIsStorable(before, log, device, batches, m);
      }
      var ops := NewRows(id, log, known, rows.data);
      rows.Apply(ops);
    }

    /** The server's decision, in the terms the rows need. */
    method Decide(device: DeviceId, expected: Checksum, batches: seq<AdmissionBatch>, contended: Option<Rejection>)
      returns (answer: Answer)
      requires server.Valid()
      modifies server
      ensures server.Valid() && Decided(old(server.log), server.log, device, expected, batches, contended, answer)
      ensures |old(server.log)| <= |server.log| <= |old(server.log)| + |batches|
              && server.log[..|old(server.log)|] == old(server.log)
      ensures server.log != old(server.log) ==> Extends(old(server.log), server.log, device, batches, |batches|)
    {
      ghost var before := server.log;
      answer := server.Admit(device, expected, batches, contended);
      DecisionHolds(before, server.log, device, expected, batches, contended, answer);
    }

    /** Decide, and store the decision. */
    method DecideAndWrite(device: DeviceId, expected: Checksum, batches: seq<AdmissionBatch>,
                          contended: Option<Rejection>)
      returns (answer: Answer)
      requires server.Valid() && ValidSpace(id) && Stores(rows.data, id, server.log)
      requires TargetsFit(Written(batches)) && |server.log| + |batches| < U64_LIMIT
      modifies server, rows
      ensures server.Valid() && Stores(rows.data, id, server.log) && |server.log| < U64_LIMIT
      ensures Decided(old(server.log), server.log, device, expected, batches, contended, answer)
    {
      ghost var before := server.log;
      var known := |server.log|;
      answer := Decide(device, expected, batches, contended);
      WriteRows(before, known, device, batches);
    }

    /** Nothing enters the log under another device's live lease, and what enters is what the rows then hold. */
    method Admit(device: DeviceId, now: nat, expected: Checksum, batches: seq<AdmissionBatch>) returns (answer: Answer)
      requires Valid() && TargetsFit(Written(batches)) && |server.log| + |batches| < U64_LIMIT
      modifies server, rows
      ensures Valid() && Step(old(View()), Act(device, now, {}), View())
      ensures Decided(old(server.log), server.log, device, expected, batches,
              LeaseVerdict(manager.leases, device, now, batches), answer)
      ensures server.log != old(server.log) ==> forall e :: e in Written(batches) ==>
              Unleased(manager.leases, device, now, e.mutation)
    {
      ghost var log := server.log;
      var contended := CheckLeases(device, now, batches);
      answer := DecideAndWrite(device, expected, batches, contended);
      assert server.log == log || TakenFree(log, server.log, manager.leases, now, device, batches);
    }

    /** Grant leases at the end of the log. */
    method Acquire(device: DeviceId, now: nat, specs: seq<LeaseSpec>) returns (result: AcquireResult)
      requires Valid() && manager.next + |specs| <= U64_LIMIT
      requires forall s :: s in specs ==> |s.prefix| <= MAX_COMPONENTS
      modifies manager, manager.index
      ensures Valid() && Step(old(View()), Act(device, now, {}), View())
      ensures Acquired(old(manager.View()), manager.View(), device, now, |server.log|, specs, result)
    {
      ghost var t := manager.View();
      result := manager.Acquire(device, now, |server.log|, specs);
      AcquireMoves(t, manager.View(), device, now, |server.log|, specs, result);
    }

    method Renew(device: DeviceId, now: nat, ids: seq<nat>) returns (granted: seq<RenewGrant>, invalid: seq<nat>)
      requires Valid() && forall i :: 0 <= i < |ids| ==> ids[i] < U64_LIMIT
      modifies manager, manager.index
      ensures Valid() && Step(old(View()), Act(device, now, {}), View())
      ensures Answered(old(manager.View()), device, now, ids, |ids|, granted, invalid)
      ensures RenewedAs(old(manager.leases), manager.leases, ids, device, now)
      ensures manager.View() == old(manager.View()).(leases :=
                Changed(old(manager.leases), ids, |ids|, r => AfterRenew(r, device, now)))
    {
      ghost var t := manager.View();
      granted, invalid := manager.Renew(device, now, ids);
      RenewMoves(t, manager.View(), device, now, ids, |server.log|);
    }

    method Release(device: DeviceId, now: nat, ids: seq<nat>)
      requires Valid() && forall i :: 0 <= i < |ids| ==> ids[i] < U64_LIMIT
      modifies manager, manager.index
      ensures Valid() && Step(old(View()), Act(device, now, set id | id in ids), View())
      ensures ReleasedAs(old(manager.leases), manager.leases, ids, device, now)
      ensures manager.View() ==
              Table(Changed(old(manager.leases), ids, |ids|, r => AfterRelease(r, device, now)), old(manager.next),
                    DemandLeft(old(manager.View()), ids, |ids|, device, now))
    {
      ghost var t := manager.View();
      manager.Release(device, now, ids);
      ReleaseMoves(t, manager.View(), device, now, ids, |server.log|);
    }

    method ListLeases(device: DeviceId, now: nat) returns (held: seq<LeaseRecord>)
      requires Valid()
      modifies manager, manager.index
      ensures Valid() && Step(old(View()), Act(device, now, {}), View())
      ensures manager.View() == old(manager.View()).(leases := set r | r in old(manager.leases) && r.Live(now))
      ensures NoRepeats(held)
      ensures forall r :: r in held <==> r in old(manager.leases) && r.Live(now) && r.device == device
    {
      held := manager.ListLeases(device, now);
    }

    /** One dense page of the log, read back from its rows. */
    method Pull(after: nat, maxBatches: Option<nat>) returns (page: Option<PullResponse>)
      requires Valid()
      ensures page.None? <==> after > |server.log|
      ensures page.Some? ==>
                && page.value.after == after && Dense(page.value)
                && page.value.through == (if maxBatches.Some? then Min(|server.log|, after + maxBatches.value)
                  else |server.log|)
                && page.value.batches == server.log[after..page.value.through]
    {
      var high := |server.log|;
      if after > high {
        return None;
      }
      var available := high - after;
      var through := after + if maxBatches.Some? then Min(available, maxBatches.value) else available;
      var batches := ReadInterval(rows, id, after, through, server.log);
      return Some(PullResponse(after, through, batches.value));
    }
  }
}
