/**
 Every run of a device's store (client/src/meta.rs, client/src/space.rs).

 A run is any sequence of reservations, commits, trims, rollbacks, captures and
 apply marks, in any interleaving. A step that the store refuses changes
 nothing; a crash falls between two steps. The ledger remembers, beside the
 store, every sequence number ever assigned, every version ever committed or
 captured, and whether every commit so far was stamped from a reservation.
 Nothing about cursors, density or sequence numbers depends on that stamping;
 the clauses about versions do, because the store checks only entry counts.
 */
module MetaRuns {
  import opened Types
  import opened Wire
  import opened MetaLog

  datatype Step =
    | Reserving(count: nat, asserts: seq<RangeAssert>, mode: SubmitMode)
    | Committing(r: Reservation, entries: seq<DeviceEntry>)
    | Trimming(through: nat, checksum: Checksum)
    | RollingBack(to: nat)
    | RollingBackIf(to: nat, expected: Cursors)
    | Appending(page: PullResponse)
    | Marking(to: nat)
    | TrimmingAdmits(to: nat)

  datatype Ledger = Ledger(s: SpaceState, issued: set<Reservation>, taken: seq<nat>, versions: set<nat>, stamped: bool)

  const START := Ledger(FRESH, {}, [], {}, true)

  function Versions(entries: seq<DeviceEntry>): set<nat> { set e | e in entries :: e.tag.ver }

  function PageVersions(page: PullResponse): set<nat> { set b, e | b in page.batches && e in b.entries :: e.Ver() }

  /** The ledger after the store moved to `s`, with the number a new record took. */
  function Moved(l: Ledger, s: SpaceState): Ledger {
    l.(s := s, taken := if s.cursors.tail != l.s.cursors.tail then l.taken + [l.s.cursors.tail] else l.taken)
  }

  function Next(l: Ledger, step: Step): Ledger {
    match step
    case Reserving(n, asserts, mode) => l.(issued := l.issued + {Reserve(l.s, n, asserts, mode)})
    case Committing(r, entries) =>
      if CommitEntries(l.s, r, entries).Ok? then
        Moved(l, CommitEntries(l.s, r, entries).value)
          .(versions := l.versions + Versions(entries), stamped := l.stamped && r in l.issued && Stamped(r, entries))
      else l
    case Trimming(through, checksum) => Moved(l, Stored(l.s, TrimOplog(l.s, through, checksum)))
    case RollingBack(to) => Moved(l, Stored(l.s, RollBack(l.s, to)))
    case RollingBackIf(to, expected) => Moved(l, Stored(l.s, RollBackIfUnchanged(l.s, to, expected)))
    case Appending(page) =>
      if Dense(page) && AppendFault(l.s, page).None? then
        Moved(l, AppendAdmits(l.s, page)).(versions := l.versions + PageVersions(page))
      else l
    case Marking(to) => Moved(l, Stored(l.s, MarkApplied(l.s, to)))
    case TrimmingAdmits(to) => Moved(l, Stored(l.s, TrimAdmits(l.s, to)))
  }

  function Run(l: Ledger, steps: seq<Step>): Ledger {
    if steps == [] then l else Next(Run(l, steps[..|steps| - 1]), steps[|steps| - 1])
  }

  predicate Increasing(xs: seq<nat>, bound: nat) {
    && (forall i, j :: 0 <= i < j < |xs| ==> xs[i] < xs[j])
    && (forall i :: 0 <= i < |xs| ==> xs[i] < bound)
  }

  ghost predicate Sound(l: Ledger) {
    && Shaped(l.s) && OplogDense(l.s)
    && (forall r :: r in l.issued ==> Issued(r))
    && Increasing(l.taken, l.s.cursors.tail)
    && (l.stamped ==> Certified(l.s) && forall v :: v in l.versions ==> v <= l.s.High())
  }

  lemma {:induction false} EntryVerBound(entries: seq<AdmittedEntry>, e: AdmittedEntry)
    requires e in entries
    ensures e.Ver() <= MaxEntryVer(entries)
  {
    if e != entries[|entries| - 1] {
      EntryVerBound(entries[..|entries| - 1], e);
    }
  }

  lemma {:induction false} PageVerBound(batches: seq<LogBatch>, b: LogBatch, e: AdmittedEntry)
    requires b in batches && e in b.entries
    ensures e.Ver() <= MaxVer(batches)
  {
    if b == batches[|batches| - 1] {
      EntryVerBound(b.entries, e);
    } else {
      PageVerBound(batches[..|batches| - 1], b, e);
    }
  }

  lemma {:induction false} CommittedBelow(r: Reservation, entries: seq<DeviceEntry>)
    requires Issued(r) && Stamped(r, entries)
    ensures forall v :: v in Versions(entries) ==> r.verHigh - |entries| < v <= r.verHigh
  {}

  lemma {:induction false} CommittingKeeps(l: Ledger, r: Reservation, entries: seq<DeviceEntry>)
    requires Sound(l)
    ensures Sound(Next(l, Committing(r, entries)))
  {
    if CommitEntries(l.s, r, entries).Ok? {
      CommitKeepsShape(l.s, r, entries);
      if l.stamped && r in l.issued && Stamped(r, entries) {
        CommitKeeps(l.s, r, entries);
        CommittedBelow(r, entries);
      }
    }
  }

  lemma {:induction false} AppendingKeeps(l: Ledger, page: PullResponse)
    requires Sound(l)
    ensures Sound(Next(l, Appending(page)))
  {
    if Dense(page) && AppendFault(l.s, page).None? {
      AppendKeeps(l.s, page);
      forall v | v in PageVersions(page) ensures v <= AppendAdmits(l.s, page).High() {
        var b, e :| b in page.batches && e in b.entries && e.Ver() == v;
        PageVerBound(page.batches, b, e);
      }
    }
  }

  /** A step that neither lowers the high-water mark nor skips a number keeps the ledger sound. */
  lemma {:induction false} MovedKeeps(l: Ledger, s: SpaceState)
    requires Sound(l) && Shaped(s) && OplogDense(s) && s.verHigh == l.s.verHigh && (Certified(l.s) ==> Certified(s))
    requires s.cursors.tail == l.s.cursors.tail || s.cursors.tail == l.s.cursors.tail + 1
    ensures Sound(Moved(l, s))
  {}

  lemma {:induction false} NextKeeps(l: Ledger, step: Step)
    requires Sound(l)
    ensures Sound(Next(l, step))
  {
    var s := l.s;
    match step
    case Reserving(n, asserts, mode) =>
      assert Issued(Reserve(s, n, asserts, mode));
    case Committing(r, entries) => CommittingKeeps(l, r, entries);
    case Trimming(through, checksum) =>
      if TrimOplog(s, through, checksum).Ok? {
        TrimKeeps(s, through, checksum);
      }
      MovedKeeps(l, Stored(s, TrimOplog(s, through, checksum)));
    case RollingBack(to) =>
      if RollBack(s, to).Ok? {
        RollBackKeeps(s, to);
      }
      MovedKeeps(l, Stored(s, RollBack(s, to)));
    case RollingBackIf(to, expected) =>
      if RollBackIfUnchanged(s, to, expected).Ok? {
        RollBackKeeps(s, to);
      }
      MovedKeeps(l, Stored(s, RollBackIfUnchanged(s, to, expected)));
    case Appending(page) => AppendingKeeps(l, page);
    case Marking(to) =>
      if MarkApplied(s, to).Ok? {
        MarkKeeps(s, to);
      }
      MovedKeeps(l, Stored(s, MarkApplied(s, to)));
    case TrimmingAdmits(to) =>
      if TrimAdmits(s, to).Ok? {
        TrimAdmitsKeeps(s, to);
      }
      MovedKeeps(l, Stored(s, TrimAdmits(s, to)));
  }

  /**
   In every run, whatever was committed, cursors and markers are sound, the submit log
   is dense and no number is assigned twice; while every commit was stamped, the store
   passes its whole oracle.
   */
  lemma {:induction false} EveryRunIsSound(l: Ledger, steps: seq<Step>)
    requires Sound(l)
    ensures Sound(Run(l, steps))
  {
    if steps != [] {
      EveryRunIsSound(l, steps[..|steps| - 1]);
      NextKeeps(Run(l, steps[..|steps| - 1]), steps[|steps| - 1]);
    }
  }

  lemma {:induction false} FreshIsSound()
    ensures Sound(START)
  {
    assert EntriesIn(FRESH.oplog, 1, 1) == [];
  }

  /**
   Whatever happened before, rolled-back commits included, a commit the store takes has a
   new number; if commits are stamped, its versions exceed all committed or captured before.
   */
  lemma {:induction false} CommitsAreFresh(steps: seq<Step>, r: Reservation, entries: seq<DeviceEntry>)
    requires CommitEntries(Run(START, steps).s, r, entries).Ok?
    ensures r.at !in Run(START, steps).taken
    ensures Run(START, steps + [Committing(r, entries)]).stamped ==>
              forall v, e :: v in Run(START, steps).versions && e in entries ==> v < e.tag.ver
  {
    FreshIsSound();
    EveryRunIsSound(START, steps);
    var l := Run(START, steps);
    assert (steps + [Committing(r, entries)])[..|steps|] == steps;
    if l.stamped && r in l.issued && Stamped(r, entries) {
      CommittedBelow(r, entries);
      forall e | e in entries ensures e.tag.ver in Versions(entries) {}
    }
  }

  /** The store checks only the number of entries: a commit not stamped from its reservation can break the oracle. */
  lemma {:induction false} UnstampedCommitBreaksOracle() returns (r: Reservation, entries: seq<DeviceEntry>)
    ensures r == Reserve(FRESH, 1, [], Unchecked) && Certified(FRESH) && !Stamped(r, entries)
    ensures CommitEntries(FRESH, r, entries).Ok? && !Certified(CommitEntries(FRESH, r, entries).value)
  {
    FreshIsSound();
    r := Reserve(FRESH, 1, [], Unchecked);
    var e := DeviceEntry(Delete([[0]]), DeviceTag([], 1, 7, 0), Seal([], [], []));
    entries := [e];
    var s := CommitEntries(FRESH, r, entries).value;
    assert EntriesIn(s.oplog, 1, 1) == [];
    assert e in EntriesIn(s.oplog, 1, 2);
  }

  /**
   What a caller can check beforehand: versions rise along each key, past the window's, up to the
   reserved high water.
   */
  ghost predicate Acceptable(s: SpaceState, r: Reservation, entries: seq<DeviceEntry>) {
    && VersIncrease(entries) && VersBounded(entries, Some(r.verHigh))
    && forall e, f :: e in EntriesIn(s.oplog, s.cursors.neck, s.cursors.tail) && f in entries && SameKey(e, f) ==>
      e.tag.ver < f.tag.ver
  }

  lemma {:induction false} IncreaseConcat(a: seq<DeviceEntry>, b: seq<DeviceEntry>)
    ensures VersIncrease(a + b) <==>
            VersIncrease(a) && VersIncrease(b) && forall e, f :: e in a && f in b && SameKey(e, f) ==>
              e.tag.ver < f.tag.ver
  {
    var c := a + b;
    assert forall i :: 0 <= i < |a| ==> c[i] == a[i];
    assert forall i :: 0 <= i < |b| ==> c[|a| + i] == b[i];
  }

  lemma {:induction false} BoundedConcat(a: seq<DeviceEntry>, b: seq<DeviceEntry>, low: Option<nat>, high: nat)
    requires VersBounded(a, low) && (low.Some? ==> low.value <= high)
    ensures VersBounded(a + b, Some(high)) <==> VersBounded(b, Some(high))
  {
    assert forall e :: e in a + b <==> e in a || e in b;
  }

  /** A commit leaves everything but the versions of its window certified. */
  lemma {:induction false} CommitTouchesVersions(s: SpaceState, r: Reservation, entries: seq<DeviceEntry>,
                                                 es: seq<DeviceEntry>)
    requires Certified(s) && CommitEntries(s, r, entries).Ok?
    requires es == EntriesIn(s.oplog, s.cursors.neck, s.cursors.tail) + entries
    ensures Certified(CommitEntries(s, r, entries).value) <==> VersIncrease(es) && VersBounded(es, Some(r.verHigh))
  {
    EntriesGrow(s.oplog, s.cursors.neck, s.cursors.tail, Commit(entries, r.rangeAsserts, [], r.submitMode));
  }

  /** Exactly which commits the oracle still accepts. */
  lemma {:induction false} CommitKeepsIffAcceptable(s: SpaceState, r: Reservation, entries: seq<DeviceEntry>)
    requires Certified(s) && CommitEntries(s, r, entries).Ok?
    ensures Certified(CommitEntries(s, r, entries).value) <==> Acceptable(s, r, entries)
  {
    var window := EntriesIn(s.oplog, s.cursors.neck, s.cursors.tail);
    CommitTouchesVersions(s, r, entries, window + entries);
    IncreaseConcat(window, entries);
    BoundedConcat(window, entries, s.verHigh, r.verHigh);
  }

  // ----- guarded rollback ---------------------------------------------------------

  /** The part of the store that submission owns. */
  datatype SubmitPart = SubmitPart(cursors: Cursors, oplog: map<nat, DeviceOp>, checksum: Checksum)

  function Submit(s: SpaceState): SubmitPart { SubmitPart(s.cursors, s.oplog, s.checksum) }

  /** The completed post-state of one rollback to `to` from cursors `expected`. */
  predicate Completed(s: SpaceState, to: nat, expected: Cursors) {
    && s.cursors == Cursors(expected.head, expected.tail, expected.tail + 1)
    && expected.tail in s.oplog && s.oplog[expected.tail] == Rollback(to)
  }

  /**
   For a target in the observed window, the guard passes exactly on the observed cursors or their
   completed rollback.
   */
  lemma {:induction false} GuardIsExact(s: SpaceState, to: nat, expected: Cursors)
    requires expected.neck <= to < expected.tail < MAX_U64
    ensures RollBackIfUnchanged(s, to, expected).Ok? <==> s.cursors == expected || Completed(s, to, expected)
    ensures s.cursors == expected ==> RollBackIfUnchanged(s, to, expected) == Ok(RolledBack(s, to))
    ensures Completed(s, to, expected) ==> RollBackIfUnchanged(s, to, expected) == Ok(s)
  {}

  /** Retrying a guarded rollback that succeeded changes nothing more. */
  lemma {:induction false} GuardIsIdempotent(s: SpaceState, to: nat, expected: Cursors)
    requires expected.neck <= to < expected.tail < MAX_U64 && RollBackIfUnchanged(s, to, expected).Ok?
    ensures var s' := RollBackIfUnchanged(s, to, expected).value;
      Completed(s', to, expected) && RollBackIfUnchanged(s', to, expected) == Ok(s')
  {}

  /** How far the submit log can have moved from `s0` while its head stands still. */
  ghost predicate Since(s0: SpaceState, s: SpaceState) {
    && s.cursors.head >= s0.cursors.head && s.cursors.tail >= s0.cursors.tail
    && (s.cursors.head == s0.cursors.head ==>
          && s.cursors.neck < s.cursors.tail && s.checksum == s0.checksum
          && (s.cursors.neck == s0.cursors.neck || s.cursors.neck >= s0.cursors.tail)
          && forall q :: q < s0.cursors.tail ==>
            (q in s.oplog <==> q in s0.oplog) && (q in s.oplog ==> s.oplog[q] == s0.oplog[q]))
  }

  lemma {:induction false} SinceStep(s0: SpaceState, l: Ledger, step: Step)
    requires Sound(l) && Since(s0, l.s)
    ensures Since(s0, Next(l, step).s)
  {
    var s := l.s;
    if step.Trimming? && TrimOplog(s, step.through, step.checksum).Ok? {
      var s' := TrimOplog(s, step.through, step.checksum).value;
      if s'.cursors.head == s0.cursors.head {
        assert step.through < s.cursors.head;
      }
    }
  }

  lemma {:induction false} SinceRun(l: Ledger, steps: seq<Step>)
    requires Sound(l) && l.s.cursors.neck < l.s.cursors.tail
    ensures Since(l.s, Run(l, steps).s)
  {
    if steps != [] {
      SinceRun(l, steps[..|steps| - 1]);
      EveryRunIsSound(l, steps[..|steps| - 1]);
      SinceStep(l.s, Run(l, steps[..|steps| - 1]), steps[|steps| - 1]);
    }
  }

  lemma {:induction false} MovedByOneRollback(s0: SpaceState, s: SpaceState, to: nat)
    requires OplogDense(s0) && OplogDense(s) && Since(s0, s)
    requires s0.cursors.neck <= to < s0.cursors.tail < MAX_U64
    requires RollBackIfUnchanged(s, to, s0.cursors).Ok?
    ensures Submit(RollBackIfUnchanged(s, to, s0.cursors).value) == Submit(RolledBack(s0, to))
  {
    GuardIsExact(s, to, s0.cursors);
    if s.cursors == s0.cursors {
      assert s.oplog == s0.oplog;
    } else {
      assert s.oplog == s0.oplog[s0.cursors.tail := Rollback(to)];
    }
  }

  /**
   However the store moved between observing its cursors and calling the guarded
   rollback, a success leaves the submit log exactly as one rollback of the
   observed state would.
   */
  lemma {:induction false} GuardedRollbackHappensOnce(l: Ledger, steps: seq<Step>, to: nat)
    requires Sound(l) && l.s.cursors.neck <= to < l.s.cursors.tail < MAX_U64
    requires RollBackIfUnchanged(Run(l, steps).s, to, l.s.cursors).Ok?
    ensures Submit(RollBackIfUnchanged(Run(l, steps).s, to, l.s.cursors).value) == Submit(RolledBack(l.s, to))
  {
    SinceRun(l, steps);
    EveryRunIsSound(l, steps);
    MovedByOneRollback(l.s, Run(l, steps).s, to);
  }
}
