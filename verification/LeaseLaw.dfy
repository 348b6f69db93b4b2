/**
 What leases are for (physics.md, sections 8 and 9): over every run of a space whose
 clock does not run backwards, nothing foreign enters the log under a live lease after
 its barrier, conflicting leases are never live together, and no identity is reused.
 */
module LeaseLaw {
  import opened Types
  import opened Wire
  import opened AdmissionGate
  import opened AdmissionRules
  import opened SpaceServer
  import opened Codec
  import Keys
  import opened LeaseIndex
  import opened Leases
  import opened LeasedSpace

  // ----- the operations of a log --------------------------------------------------------

  lemma {:induction false} EntryHasBatch(log: seq<LogBatch>, x: AdmittedEntry) returns (m: nat)
    requires x in Entries(log)
    ensures m < |log| && x in log[m].entries
  {
    if x in log[|log| - 1].entries {
      m := |log| - 1;
    } else {
      m := EntryHasBatch(log[..|log| - 1], x);
    }
  }

  lemma {:induction false} BatchIsListed(log: seq<LogBatch>, m: nat, x: AdmittedEntry)
    requires m < |log| && x in log[m].entries
    ensures x in Entries(log)
  {
    if m < |log| - 1 {
      BatchIsListed(log[..|log| - 1], m, x);
    }
  }

  /** What a request adds to the history is its own device's, and among the operations it wrote. */
  lemma {:induction false} AddedIsOwn(log: seq<LogBatch>, log': seq<LogBatch>, device: DeviceId,
                                      batches: seq<AdmissionBatch>, x: AdmittedEntry)
    requires Extends(log, log', device, batches, |batches|) && x in Entries(log') && x !in Entries(log)
    ensures x.Device() == device && x.deviceEntry in Written(batches)
  {
    var m := EntryHasBatch(log', x);
    if m < |log| {
      BatchIsListed(log, m, x);
    }
    var b, j := log'[m], m - |log|;
    LinkAt(log', m);
    assert PlacedAt(log, log', device, batches, j);
    assert b.checksum[|b.checksum| - 1] == batches[j];
    var i :| 0 <= i < |b.entries| && b.entries[i] == x;
    assert x == Stamp(batches[j], b.admissionSeq, i);
    WrittenAt(batches, j, batches[j].entries[i]);
  }

  // ----- the law ----------------------------------------------------------------------------

  /** No foreign operation after the barrier bears on the leased prefix. */
  ghost predicate Reserved(log: seq<LogBatch>, r: LeaseRecord) {
    AssertHolds(Entries(log), r.device, RangeAssert(r.prefix, r.barrier))
  }

  ghost predicate Excludes(y: Held, now: nat) {
    forall r :: r in y.table.leases && r.Live(now) ==> Reserved(y.log, r)
  }

  /** Live leases do not exclude each other. */
  ghost predicate Compatible(leases: set<LeaseRecord>, now: nat) {
    forall a, b :: a in leases && b in leases && a != b && a.Live(now) && b.Live(now) ==> !Conflict(a, b)
  }

  /** No lease ends later than one that starts now would. */
  ghost predicate Dated(leases: set<LeaseRecord>, now: nat) {
    forall r :: r in leases ==> r.deadline <= now + r.ttl && r.deadline < U64_LIMIT
  }

  ghost predicate Inv(y: Held, now: nat) {
    && LogValid(y.log) && TableOk(y.table.leases, y.table.next)
    && Excludes(y, now) && Compatible(y.table.leases, now) && Dated(y.table.leases, now)
  }

  /** A write passes the leases exactly when it bears on no prefix that another device holds at the time. */
  lemma {:induction false} FreeIffIrrelevant(leases: set<LeaseRecord>, device: DeviceId, now: nat, m: Mutation)
    ensures Unleased(leases, device, now, m) <==>
            forall r :: r in leases && now < r.deadline && r.device != device ==> !Relevant(Prefix(r.prefix), m)
  {
    forall r | r in leases && now < r.deadline && r.device != device
      ensures LeaseIndex.Foreign(leases, device, now, r)
    {}
  }

  lemma {:induction false} AdmitReserves(log: seq<LogBatch>, log': seq<LogBatch>, leases: set<LeaseRecord>, now: nat,
                                         device: DeviceId, batches: seq<AdmissionBatch>, r: LeaseRecord)
    requires TakenFree(log, log', leases, now, device, batches) && r in leases && r.Live(now) && Reserved(log, r)
    ensures Reserved(log', r)
  {
    forall x | x in Entries(log') && Bears(r.device, r.prefix, x) ensures x.order.admissionSeq <= r.barrier {
      if x !in Entries(log) {
        AddedIsOwn(log, log', device, batches, x);
        FreeIffIrrelevant(leases, device, now, x.Mutation());
      }
    }
  }

  lemma {:induction false} AdmitKeeps(y: Held, before: nat, now: nat, y': Held)
    requires Inv(y, before) && before <= now && y'.table == y.table && LogMoves(y.log, y'.log, y.table.leases, now)
    ensures Inv(y', now)
  {
    if y'.log != y.log {
      var device, batches :| TakenFree(y.log, y'.log, y.table.leases, now, device, batches);
      forall r | r in y'.table.leases && r.Live(now) ensures Reserved(y'.log, r) {
        AdmitReserves(y.log, y'.log, y.table.leases, now, device, batches, r);
      }
    }
  }

  /** A live lease after a lease verb is a new one, or one that was live before under the same name. */
  lemma {:induction false} LiveContinues(leases: set<LeaseRecord>, before: nat, act: Act, r: LeaseRecord)
      returns (q: LeaseRecord)
    requires Continues(leases, act, r) && r.Live(act.now) && before <= act.now
    ensures q in leases && q.Live(before) && q.Live(act.now) && r == q.(deadline := r.deadline)
  {
    if r in leases {
      q := r;
    } else {
      q :| q in leases && Renews(act, q, r);
    }
  }

  lemma {:induction false} NewIsReserved(log: seq<LogBatch>, r: LeaseRecord)
    requires LogValid(log) && r.barrier == |log|
    ensures Reserved(log, r)
  {
    EntriesDated(log);
  }

  lemma {:induction false} LeasesAgree(t: Table, t': Table, before: nat, act: Act, barrier: nat, a: LeaseRecord,
                                       b: LeaseRecord)
    requires TableOk(t.leases, t.next) && Compatible(t.leases, before) && before <= act.now
    requires TableMoves(t, t', act, barrier)
    requires a in t'.leases && b in t'.leases && a != b && a.Live(act.now) && b.Live(act.now)
    ensures !Conflict(a, b)
  {
    if Continues(t.leases, act, a) && Continues(t.leases, act, b) {
      var p := LiveContinues(t.leases, before, act, a);
      var q := LiveContinues(t.leases, before, act, b);
      assert a.id != b.id;
      assert !Conflict(p, q);
    } else if New(t, t', act, barrier, a) {
      assert !Conflict(a, b);
    } else {
      assert !Conflict(b, a);
    }
  }

  lemma {:induction false} LeasesDated(t: Table, t': Table, before: nat, act: Act, barrier: nat)
    requires Dated(t.leases, before) && before <= act.now && TableMoves(t, t', act, barrier)
    ensures Dated(t'.leases, act.now)
  {
    forall r | r in t'.leases ensures r.deadline <= act.now + r.ttl && r.deadline < U64_LIMIT {
      if r !in t.leases && Continues(t.leases, act, r) {
        var q :| q in t.leases && Renews(act, q, r);
      }
    }
  }

  lemma {:induction false} LeasingKeeps(y: Held, before: nat, act: Act, y': Held)
    requires Inv(y, before) && before <= act.now && y'.log == y.log && TableMoves(y.table, y'.table, act, |y.log|)
    ensures Inv(y', act.now)
  {
    LeasesDated(y.table, y'.table, before, act, |y.log|);
    forall r | r in y'.table.leases && r.Live(act.now) ensures Reserved(y'.log, r) {
      if Continues(y.table.leases, act, r) {
        var q := LiveContinues(y.table.leases, before, act, r);
        assert Reserved(y.log, q);
      } else {
        NewIsReserved(y.log, r);
      }
    }
    forall a, b | a in y'.table.leases && b in y'.table.leases && a != b && a.Live(act.now) && b.Live(act.now)
      ensures !Conflict(a, b)
    {
      LeasesAgree(y.table, y'.table, before, act, |y.log|, a, b);
    }
  }

  /** Every verb keeps the law, as long as its clock is not behind. */
  lemma {:induction false} StepKeeps(y: Held, before: nat, act: Act, y': Held)
    requires Inv(y, before) && before <= act.now && Step(y, act, y')
    ensures Inv(y', act.now)
  {
    if y'.table == y.table && LogMoves(y.log, y'.log, y.table.leases, act.now) {
      AdmitKeeps(y, before, act.now, y');
    } else {
      LeasingKeeps(y, before, act, y');
    }
  }

  // ----- runs -----------------------------------------------------------------------------------

  const EMPTY := Held([], Table({}, 0, {}))

  ghost predicate StepAt(run: seq<Held>, acts: seq<Act>, i: nat)
    requires i < |acts| < |run|
  {
    Step(run[i], acts[i], run[i + 1])
  }

  /** Verbs one after another on a space that starts empty. */
  ghost predicate IsRun(run: seq<Held>, acts: seq<Act>) {
    && |run| == |acts| + 1 && run[0] == EMPTY
    && (forall i, j :: 0 <= i < j < |acts| ==> acts[i].now <= acts[j].now)
    && forall i :: 0 <= i < |acts| ==> StepAt(run, acts, i)
  }

  /** The clock after `i` verbs. */
  function Clock(acts: seq<Act>, i: nat): nat
    requires i <= |acts|
  {
    if i == 0 then 0 else acts[i - 1].now
  }

  lemma {:induction false} LaterIsFine(y: Held, before: nat, now: nat)
    requires Inv(y, before) && before <= now
    ensures Inv(y, now)
  {}

  lemma {:induction false} RunKeeps(run: seq<Held>, acts: seq<Act>, i: nat, now: nat)
    requires IsRun(run, acts) && i < |run| && Clock(acts, i) <= now
    ensures Inv(run[i], now)
  {
    if i > 0 {
      RunKeeps(run, acts, i - 1, acts[i - 1].now);
      assert StepAt(run, acts, i - 1);
      StepKeeps(run[i - 1], acts[i - 1].now, acts[i - 1], run[i]);
      LaterIsFine(run[i], acts[i - 1].now, now);
    }
  }

  /**
   At every moment of every run: whatever bears on the prefix of a live lease and was admitted after its
   barrier is the holder's own, and of two live leases one of which is at or below the other both are read leases.
   */
  lemma {:induction false} LeasesHold(run: seq<Held>, acts: seq<Act>, i: nat, now: nat)
    requires IsRun(run, acts) && i < |run| && Clock(acts, i) <= now
    ensures forall r, x :: r in run[i].table.leases && now < r.deadline && x in Entries(run[i].log)
                           && Relevant(Prefix(r.prefix), x.Mutation()) && x.order.admissionSeq > r.barrier
                           ==> x.Device() == r.device
    ensures forall a, b :: a in run[i].table.leases && b in run[i].table.leases && a != b && now < a.deadline
                           && now < b.deadline && a.prefix <= b.prefix
                           ==> a.mode == Read && b.mode == Read
  {
    RunKeeps(run, acts, i, now);
    forall r, x | r in run[i].table.leases && now < r.deadline && x in Entries(run[i].log)
                  && Relevant(Prefix(r.prefix), x.Mutation()) && x.order.admissionSeq > r.barrier
      ensures x.Device() == r.device
    {
      assert Reserved(run[i].log, r);
    }
    forall a, b | a in run[i].table.leases && b in run[i].table.leases && a != b && now < a.deadline
                  && now < b.deadline && a.prefix <= b.prefix
      ensures a.mode == Read && b.mode == Read
    {
      assert !Conflict(a, b);
    }
  }

  /** No lease of the holder is released by these verbs under identity `id`. */
  ghost predicate Unreleased(acts: seq<Act>, i: nat, j: nat, device: DeviceId, id: nat)
    requires i <= j <= |acts|
  {
    forall k :: i <= k < j && acts[k].device == device ==> id !in acts[k].releases
  }

  lemma {:induction false} StepLasts(y: Held, before: nat, act: Act, y': Held, r: LeaseRecord) returns (s: LeaseRecord)
    requires Inv(y, before) && before <= act.now && Step(y, act, y')
    requires r in y.table.leases && r.Live(act.now) && (act.device == r.device ==> r.id !in act.releases)
    ensures s in y'.table.leases && s == r.(deadline := s.deadline) && r.deadline <= s.deadline
  {
    if r in y'.table.leases {
      s := r;
    } else {
      assert Stays(y'.table.leases, act, r);
      s :| s in y'.table.leases && Renews(act, r, s);
    }
  }

  /**
   A lease lasts: as long as its deadline has not passed and its holder has not released it, it is in force,
   unchanged but for a deadline that only moves forward, whatever all other devices do.
   */
  lemma {:induction false} LeaseLasts(run: seq<Held>, acts: seq<Act>, i: nat, j: nat, r: LeaseRecord)
      returns (s: LeaseRecord)
    requires IsRun(run, acts) && i <= j < |run| && r in run[i].table.leases
    requires j > i ==> acts[j - 1].now < r.deadline
    requires Unreleased(acts, i, j, r.device, r.id)
    ensures s in run[j].table.leases && s == r.(deadline := s.deadline) && r.deadline <= s.deadline
  {
    if i == j {
      s := r;
    } else {
      var q := LeaseLasts(run, acts, i, j - 1, r);
      RunKeeps(run, acts, j - 1, acts[j - 1].now);
      assert StepAt(run, acts, j - 1);
      s := StepLasts(run[j - 1], acts[j - 1].now, acts[j - 1], run[j], q);
    }
  }

  lemma {:induction false} NarrowerIsRelevant(p: Key, q: Key, m: Mutation)
    requires p <= q && Relevant(Prefix(q), m)
    ensures Relevant(Prefix(p), m)
  {}

  /**
   The checked construction: while a device holds a live lease over a prefix, an assertion about anything
   under it, made at or after the barrier, cannot fail.
   */
  lemma {:induction false} LeaseGuardsAssertion(run: seq<Held>, acts: seq<Act>, i: nat, now: nat, r: LeaseRecord,
                                                a: RangeAssert)
    requires IsRun(run, acts) && i < |run| && Clock(acts, i) <= now
    requires r in run[i].table.leases && r.Live(now) && r.prefix <= a.prefix && r.barrier <= a.upto
    ensures AssertHolds(Entries(run[i].log), r.device, a)
    ensures Failures(Entries(run[i].log), r.device, [a]) == []
  {
    RunKeeps(run, acts, i, now);
    var h := Entries(run[i].log);
    assert Reserved(run[i].log, r);
    forall x | x in h && Bears(r.device, a.prefix, x) ensures x.order.admissionSeq <= a.upto {
      NarrowerIsRelevant(r.prefix, a.prefix, x.Mutation());
    }
    NoFailureIffHold(h, r.device, [a]);
  }

  lemma {:induction false} CounterGrows(run: seq<Held>, acts: seq<Act>, i: nat, j: nat)
    requires IsRun(run, acts) && i <= j < |run|
    ensures run[i].table.next <= run[j].table.next
  {
    if i < j {
      CounterGrows(run, acts, i, j - 1);
      assert StepAt(run, acts, j - 1);
    }
  }

  /** An identity names one grant for good: only its deadline ever changes. */
  lemma {:induction false} IdentityIsOneGrant(run: seq<Held>, acts: seq<Act>, i: nat, j: nat, r: LeaseRecord,
                                              s: LeaseRecord)
    requires IsRun(run, acts) && i <= j < |run|
    requires r in run[i].table.leases && s in run[j].table.leases && r.id == s.id
    ensures s == r.(deadline := s.deadline)
  {
    RunKeeps(run, acts, i, Clock(acts, i));
    if i < j {
      assert StepAt(run, acts, j - 1);
      CounterGrows(run, acts, i, j - 1);
      var t, act := run[j - 1].table, acts[j - 1];
      if s in t.leases {
        IdentityIsOneGrant(run, acts, i, j - 1, r, s);
      } else {
        assert Continues(t.leases, act, s);
        var q :| q in t.leases && Renews(act, q, s);
        IdentityIsOneGrant(run, acts, i, j - 1, r, q);
      }
    }
  }

  /** One batch of one operation, admitted first of all. */
  lemma {:induction false} FirstBatch(device: DeviceId, batch: AdmissionBatch, b: LogBatch)
    requires |batch.entries| == 1 && batch.deviceSeq == 1
    requires batch.entries[0].tag.device == device && batch.entries[0].tag.deviceSeq == 1
    requires b == AdmittedBatch(1, device, 1, [batch], [Stamp(batch, 1, 0)])
    ensures Extends([], [b], device, [batch], 1) && Entries([b]) == [Stamp(batch, 1, 0)]
  {
    assert [b][..0] == [] && [batch][..1] == [batch] && [batch][..0] == [];
    assert Link([], b);
    assert PlacedAt([], [b], device, [batch], 0);
    assert Entries([]) == [];
  }

  lemma {:induction false} LoneGrant(r: LeaseRecord, act: Act)
    requires r.id == 0 && r.barrier == 0 && r.device == act.device && Ends(act.now, r.ttl, r.deadline)
    requires |r.prefix| <= Keys.MAX_COMPONENTS
    ensures Step(EMPTY, act, Held([], Table({r}, 1, {})))
  {
    var t := Table({r}, 1, {});
    assert New(EMPTY.table, t, act, 0, r);
  }

  /** Read with a clock that has gone back, an expired lease looks live again, and the law fails. */
  lemma {:induction false} ClockMustNotGoBack() returns (run: seq<Held>, acts: seq<Act>, now: nat)
    ensures IsRun(run, acts) && acts != [] && now < acts[|acts| - 1].now && !Excludes(run[|acts|], now)
  {
    var r := LeaseRecord(0, [[0]], Write, [1], 0, 5, 5);
    var e := DeviceEntry(Delete([[0]]), DeviceTag([2], 1, 1, 0), Seal([], [], []));
    var batch := AdmissionBatch(1, [], [e]);
    var b := AdmittedBatch(1, [2], 1, [batch], [Stamp(batch, 1, 0)]);
    var t := Table({r}, 1, {});
    run, now := [EMPTY, Held([], t), Held([b], t)], 1;
    acts := [Act([1], 0, {}), Act([2], 6, {})];
    FirstBatch([2], batch, b);
    assert Written([batch]) == [e] by {
      assert [batch][..0] == [] && Written([]) == [];
    }
    assert TakenFree([], [b], t.leases, 6, [2], [batch]);
    LoneGrant(r, acts[0]);
    assert StepAt(run, acts, 0) && StepAt(run, acts, 1);
    var x := Stamp(batch, 1, 0);
    assert x in Entries([b]) && Bears(r.device, r.prefix, x);
    assert !Reserved([b], r);
  }
}
