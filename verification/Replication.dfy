/**
 The push half of replication as a protocol (client/src/client.rs, client/src/meta.rs).

 One device keeps a durable submit log and the checksum the server last
 confirmed; the server keeps the device's stream. A request may take effect and
 its answer be lost; the device may stop between any two store transitions.
 The system below takes every such step, and its invariant says what the two
 sides still agree on.
 */
module Replication {
  import opened Types
  import opened Wire
  import opened MetaLog

  // ----- what a window looks like on the wire --------------------------------------

  function BatchOf(q: nat, op: DeviceOp): AdmissionBatch { AdmissionBatch(q, op.RangeAsserts(), op.Entries()) }

  /** The batch carries what was committed under number `q`; a rollback marker carries nothing. */
  predicate Says(b: AdmissionBatch, q: nat, op: DeviceOp) {
    && b.deviceSeq == q
    && match op
      case Commit(entries, rangeAsserts, _, _) => b.entries == entries && b.rangeAsserts == rangeAsserts
      case Rollback(_) => b.entries == [] && b.rangeAsserts == []
  }

  lemma {:induction false} BatchSaysRecord(q: nat, op: DeviceOp, b: AdmissionBatch)
    ensures b == BatchOf(q, op) <==> Says(b, q, op)
  {}

  /** The records in `[from, to)` as wire batches; a rollback marker is an empty batch. */
  function Batches(log: map<nat, DeviceOp>, from: nat, to: nat): seq<AdmissionBatch> {
    if to <= from then [] else Batches(log, from, to - 1) + if to - 1 in log then [BatchOf(to - 1, log[to - 1])] else []
  }

  lemma {:induction false} BatchesAgree(a: map<nat, DeviceOp>, b: map<nat, DeviceOp>, from: nat, to: nat)
    requires forall q :: from <= q < to ==> (q in a <==> q in b) && (q in a ==> a[q] == b[q])
    ensures Batches(a, from, to) == Batches(b, from, to)
  {
    if from < to {
      BatchesAgree(a, b, from, to - 1);
    }
  }

  lemma {:induction false} BatchesSplit(log: map<nat, DeviceOp>, from: nat, mid: nat, to: nat)
    requires from <= mid <= to
    ensures Batches(log, from, to) == Batches(log, from, mid) + Batches(log, mid, to)
  {
    if mid < to {
      BatchesSplit(log, from, mid, to - 1);
    } else {
      assert Batches(log, mid, to) == [];
    }
  }

  /** Over a dense stretch there is one batch per number. */
  lemma {:induction false} BatchesDense(log: map<nat, DeviceOp>, from: nat, to: nat)
    requires from <= to && forall q :: from <= q < to ==> q in log
    ensures |Batches(log, from, to)| == to - from
    ensures forall i :: 0 <= i < to - from ==> Batches(log, from, to)[i] == BatchOf(from + i, log[from + i])
  {
    if from < to {
      BatchesDense(log, from, to - 1);
    }
  }

  // ----- reconciliation ------------------------------------------------------------

  /** The retained records are exactly what the server's stream adds to the confirmed one. */
  predicate Reconcilable(s: SpaceState, currentSeq: nat, current: Checksum) {
    && s.cursors.neck <= currentSeq < s.cursors.tail && currentSeq in s.oplog
    && current == s.checksum + Batches(s.oplog, s.cursors.neck, currentSeq + 1)
  }

  /** `qs` lists the retained records in `[from, to)` in order. */
  ghost predicate ListsRetained(log: map<nat, DeviceOp>, from: nat, to: nat, qs: seq<nat>) {
    Rises(qs) && forall q :: q in qs <==> from <= q < to && q in log
  }

  /** Batch `i` is what was committed as record `qs[i]`, for each of them. */
  predicate SaysAll(batches: seq<AdmissionBatch>, log: map<nat, DeviceOp>, qs: seq<nat>) {
    && |batches| == |qs|
    && forall i :: 0 <= i < |qs| ==> qs[i] in log && Says(batches[i], qs[i], log[qs[i]])
  }

  lemma {:induction false} BatchesSayRetained(log: map<nat, DeviceOp>, from: nat, to: nat) returns (qs: seq<nat>)
    ensures ListsRetained(log, from, to, qs) && SaysAll(Batches(log, from, to), log, qs)
  {
    if to <= from {
      qs := [];
    } else {
      qs := BatchesSayRetained(log, from, to - 1);
      if to - 1 in log {
        BatchSaysRecord(to - 1, log[to - 1], BatchOf(to - 1, log[to - 1]));
        forall i | 0 <= i < |qs| ensures qs[i] < to - 1 {
          assert qs[i] in qs;
        }
        qs := qs + [to - 1];
      }
    }
  }

  lemma {:induction false} SaysAllIsUnique(a: seq<AdmissionBatch>, b: seq<AdmissionBatch>, log: map<nat, DeviceOp>,
                                           qs: seq<nat>)
    requires SaysAll(a, log, qs) && SaysAll(b, log, qs)
    ensures a == b
  {
    forall i | 0 <= i < |qs| ensures a[i] == b[i] {
      BatchSaysRecord(qs[i], log[qs[i]], a[i]);
      BatchSaysRecord(qs[i], log[qs[i]], b[i]);
    }
  }

  predicate Rises(qs: seq<nat>) { forall i, j :: 0 <= i < j < |qs| ==> qs[i] < qs[j] }

  lemma {:induction false} LastIsGreatest(qs: seq<nat>, q: nat)
    requires Rises(qs) && q in qs
    ensures q <= qs[|qs| - 1] && (q == qs[|qs| - 1] <==> q !in qs[..|qs| - 1])
  {
    var i :| 0 <= i < |qs| && qs[i] == q;
    if i < |qs| - 1 {
      assert qs[..|qs| - 1][i] == q;
    }
  }

  ghost predicate SameNumbers(a: seq<nat>, b: seq<nat>) { forall q :: q in a <==> q in b }

  lemma {:induction false} RisingEnds(a: seq<nat>, b: seq<nat>)
    requires Rises(a) && Rises(b) && SameNumbers(a, b) && a != []
    ensures b != [] && a[|a| - 1] == b[|b| - 1] && SameNumbers(a[..|a| - 1], b[..|b| - 1])
  {
    var x, f := a[|a| - 1], a[..|a| - 1];
    assert x in b;
    var y, g := b[|b| - 1], b[..|b| - 1];
    assert y in a;
    LastIsGreatest(a, y);
    LastIsGreatest(b, x);
    forall q ensures q in f <==> q in g {
      if q in a {
        LastIsGreatest(a, q);
        LastIsGreatest(b, q);
      }
    }
  }

  /** Two rising lists of the same numbers are one. */
  lemma {:induction false} RisingIsUnique(a: seq<nat>, b: seq<nat>)
    requires Rises(a) && Rises(b) && SameNumbers(a, b)
    ensures a == b
  {
    if a != [] {
      RisingEnds(a, b);
      var f, g := a[..|a| - 1], b[..|b| - 1];
      RisingIsUnique(f, g);
      assert a == f + [a[|a| - 1]] && b == g + [b[|b| - 1]];
    } else if b != [] {
      RisingEnds(b, a);
    }
  }

  /**
   The server's stream is explained by what this store retains: it ends with the record it names, and beyond the
   confirmed stream it lists exactly the retained records up to that one, as they were committed.
   */
  ghost predicate Explains(s: SpaceState, currentSeq: nat, current: Checksum, qs: seq<nat>) {
    && s.cursors.neck <= currentSeq < s.cursors.tail && currentSeq in s.oplog && s.checksum <= current
    && ListsRetained(s.oplog, s.cursors.neck, currentSeq + 1, qs)
    && SaysAll(current[|s.checksum|..], s.oplog, qs)
  }

  /** Reconciliation accepts exactly the streams the retained records explain. */
  lemma {:induction false} ReconcilesIffExplained(s: SpaceState, currentSeq: nat, current: Checksum)
    ensures Reconcilable(s, currentSeq, current) <==> exists qs :: Explains(s, currentSeq, current, qs)
  {
    var kept := BatchesSayRetained(s.oplog, s.cursors.neck, currentSeq + 1);
    var batches := Batches(s.oplog, s.cursors.neck, currentSeq + 1);
    if Reconcilable(s, currentSeq, current) {
      assert current[|s.checksum|..] == batches;
      assert Explains(s, currentSeq, current, kept);
    }
    if qs :| Explains(s, currentSeq, current, qs) {
      RisingIsUnique(kept, qs);
      SaysAllIsUnique(current[|s.checksum|..], batches, s.oplog, qs);
      assert current == s.checksum + current[|s.checksum|..];
    }
  }

  datatype Outcome = Advanced(s: SpaceState) | Kept | Fork | Unknown

  /** How the client settles the answer to the batches in `[neck, m)`. */
  function Settle(s: SpaceState, m: nat, answer: Answer): Outcome
    requires s.cursors.neck < m
  {
    match answer
    case Unavailable => Unknown
    case Response(checksum, results) =>
      if |results| != |Batches(s.oplog, s.cursors.neck, m)| then Unknown
      else if AllApplied(results) then Advanced(Stored(s, TrimOplog(s, m - 1, checksum)))
      else Kept
    case Kernel(DeviceChecksumMismatch(currentSeq, current)) =>
      if Reconcilable(s, currentSeq, current) then Advanced(Stored(s, TrimOplog(s, currentSeq, current))) else Fork
    case Kernel(DeviceSeqRegression(_, _)) => Fork
    case Kernel(Rejected(_)) => Kept
  }

  /** A fork is reported exactly for a sequence regression, or a stream the retained records do not explain. */
  lemma {:induction false} ForkIsExact(s: SpaceState, m: nat, answer: Answer)
    requires s.cursors.neck < m
    ensures Settle(s, m, answer) == Fork <==>
            answer.Kernel? && match answer.error
              case DeviceSeqRegression(_, _) => true
              case DeviceChecksumMismatch(currentSeq, current) => !exists qs :: Explains(s, currentSeq, current, qs)
              case Rejected(_) => false
  {
    if answer.Kernel? && answer.error.DeviceChecksumMismatch? {
      ReconcilesIffExplained(s, answer.error.currentSeq, answer.error.current);
    }
  }

  // ----- the system ------------------------------------------------------------------

  /** A request whose answer is on its way; `pre` is the stream it met. */
  datatype Pending = Idle | Awaiting(pre: Checksum, m: nat, answer: Answer)

  /**
   `committed` and `retired` remember every record this store ever wrote and every
   one it rolled back. `certain` holds while no request is unaccounted for.
   */
  datatype System = System(
    s: SpaceState, stream: Checksum, pending: Pending, certain: bool,
    committed: map<nat, AdmissionBatch>, retired: set<nat>)

  const BOOT := System(FRESH, EMPTY_CHECKSUM, Idle, true, map[], {})

  datatype Step =
    | Submit(r: Reservation, entries: seq<DeviceEntry>)
    | Request(m: nat, post: Checksum, answer: Answer)
    | Answered
    | Lost
    | RollBackTo(to: nat)
    | Capture(page: PullResponse)
    | Apply(to: nat)
    | Discard(to: nat)

  predicate Enabled(y: System, step: Step) {
    match step
    case Submit(r, entries) => CommitEntries(y.s, r, entries).Ok?
    case Request(m, post, answer) =>
      && y.pending.Idle? && y.s.cursors.neck < m <= y.s.cursors.tail
      && AdmitStep(y.stream, y.s.checksum, Batches(y.s.oplog, y.s.cursors.neck, m), post, answer)
    case Answered => y.pending.Awaiting? && y.s.cursors.neck < y.pending.m
    case Lost => true
    // Only after a definitive answer, and never with a request in flight.
    case RollBackTo(to) => y.pending.Idle? && y.certain && RollBack(y.s, to).Ok?
    case Capture(page) => Dense(page) && AppendFault(y.s, page).None?
    case Apply(to) => MarkApplied(y.s, to).Ok?
    case Discard(to) => TrimAdmits(y.s, to).Ok?
  }

  function Numbers(from: nat, to: nat): (r: set<nat>)
    ensures forall q :: q in r <==> from <= q < to
  {
    if to <= from then {} else Numbers(from, to - 1) + {to - 1}
  }

  function Next(y: System, step: Step): System
    requires Enabled(y, step)
  {
    match step
    case Submit(r, entries) =>
      var s := CommitEntries(y.s, r, entries).value;
      y.(s := s, committed := y.committed[r.at := AdmissionBatch(r.at, r.rangeAsserts, entries)])
    case Request(m, post, answer) => y.(stream := post, pending := Awaiting(y.stream, m, answer), certain := false)
    case Answered =>
      var outcome := Settle(y.s, y.pending.m, y.pending.answer);
      (match outcome
       case Advanced(s) => y.(s := s, pending := Idle, certain := true)
       case Kept => y.(pending := Idle, certain := true)
       case Fork => y.(pending := Idle)
       case Unknown => y.(pending := Idle))
    case Lost => y.(pending := Idle)
    case RollBackTo(to) =>
      var s := RollBack(y.s, to).value;
      if s.cursors == y.s.cursors then y
      else y.(s := s, retired := y.retired + Numbers(y.s.cursors.neck, y.s.cursors.tail),
              committed := y.committed[y.s.cursors.tail := AdmissionBatch(y.s.cursors.tail, [], [])])
    case Capture(page) => y.(s := AppendAdmits(y.s, page))
    case Apply(to) => y.(s := MarkApplied(y.s, to).value)
    case Discard(to) => y.(s := TrimAdmits(y.s, to).value)
  }

  // ----- the invariant ----------------------------------------------------------------

  /** The server's stream is the confirmed one plus a prefix of the active window. */
  ghost predicate Agreed(s: SpaceState, stream: Checksum) {
    && |s.checksum| <= |stream| && s.cursors.neck + (|stream| - |s.checksum|) <= s.cursors.tail
    && stream == s.checksum + Batches(s.oplog, s.cursors.neck, s.cursors.neck + (|stream| - |s.checksum|))
  }

  ghost predicate Local(s: SpaceState) {
    && OplogDense(s) && s.cursors.Ordered() && 1 <= s.cursors.head
    && Ascending(s.checksum) && LastSeq(s.checksum) < s.cursors.neck
  }

  /** Every batch of the stream is a record this store committed and never rolled back. */
  ghost predicate Accounted(y: System) {
    && (forall b :: b in y.stream ==>
      b.deviceSeq in y.committed && y.committed[b.deviceSeq] == b && b.deviceSeq !in y.retired)
    && (forall q :: q in y.retired ==> q < y.s.cursors.neck)
    && (forall q :: y.s.cursors.neck <= q < y.s.cursors.tail && q in y.s.oplog ==>
                      q in y.committed && y.committed[q] == BatchOf(q, y.s.oplog[q]))
    && (forall q :: q in y.committed ==> q < y.s.cursors.tail)
  }

  ghost predicate AnswerFits(y: System) {
    y.pending.Awaiting? ==>
      && y.s.cursors.neck < y.pending.m <= y.s.cursors.tail
      && Agreed(y.s, y.pending.pre)
      && AdmitStep(y.pending.pre, y.s.checksum, Batches(y.s.oplog, y.s.cursors.neck, y.pending.m), y.stream,
        y.pending.answer)
  }

  ghost predicate Inv(y: System) {
    match y
    case System(s, stream, _, certain, _, _) =>
      && Local(s) && Agreed(s, stream) && Ascending(stream)
      && (certain ==> stream == s.checksum)
      && Accounted(y) && AnswerFits(y)
  }

  lemma {:induction false} AscendingLast(stream: Checksum, i: nat)
    requires Ascending(stream) && i < |stream|
    ensures stream[i].deviceSeq <= LastSeq(stream)
    decreases |stream| - i
  {
    if i < |stream| - 1 {
      AscendingLast(stream, i + 1);
    }
  }

  /** Extending a stream by the head of the active window keeps it in sequence. */
  lemma {:induction false} WindowSequenced(s: SpaceState, m: nat)
    requires Local(s) && s.cursors.neck <= m <= s.cursors.tail
    ensures var batches := Batches(s.oplog, s.cursors.neck, m);
      && |batches| == m - s.cursors.neck
      && Sequenced(LastSeq(s.checksum), batches) && Ascending(s.checksum + batches)
      && (s.cursors.neck < m ==> LastSeq(s.checksum + batches) == m - 1)
  {
    BatchesDense(s.oplog, s.cursors.neck, m);
  }

  lemma {:induction false} WindowMembers(s: SpaceState, m: nat)
    requires Local(s) && s.cursors.neck <= m <= s.cursors.tail
    ensures forall b :: b in Batches(s.oplog, s.cursors.neck, m) ==>
              s.cursors.neck <= b.deviceSeq < m && b == BatchOf(b.deviceSeq, s.oplog[b.deviceSeq])
  {
    BatchesDense(s.oplog, s.cursors.neck, m);
  }

  // ----- every step keeps it --------------------------------------------------------

  /** The submit log may grow at its tail without disturbing what the two sides agree on. */
  ghost predicate Grown(s: SpaceState, s': SpaceState) {
    && s'.checksum == s.checksum && s'.cursors.head == s.cursors.head && s'.cursors.neck == s.cursors.neck
    && s.cursors.tail <= s'.cursors.tail
    && forall q :: s.cursors.neck <= q < s.cursors.tail ==>
      (q in s.oplog <==> q in s'.oplog) && (q in s.oplog ==> s'.oplog[q] == s.oplog[q])
  }

  lemma {:induction false} GrownAgrees(s: SpaceState, s': SpaceState, stream: Checksum)
    requires Grown(s, s') && Agreed(s, stream)
    ensures Agreed(s', stream)
  {
    BatchesAgree(s.oplog, s'.oplog, s.cursors.neck, s.cursors.neck + (|stream| - |s.checksum|));
  }

  lemma {:induction false} GrownFits(y: System, y': System)
    requires AnswerFits(y) && Grown(y.s, y'.s) && y'.pending == y.pending && y'.stream == y.stream
    ensures AnswerFits(y')
  {
    if y.pending.Awaiting? {
      GrownAgrees(y.s, y'.s, y.pending.pre);
      BatchesAgree(y.s.oplog, y'.s.oplog, y.s.cursors.neck, y.pending.m);
    }
  }

  lemma {:induction false} SubmitAccounts(y: System, r: Reservation, entries: seq<DeviceEntry>)
    requires Accounted(y) && y.s.cursors.Ordered() && Enabled(y, Submit(r, entries))
    ensures Accounted(Next(y, Submit(r, entries)))
  {}

  lemma {:induction false} SubmitLocal(s: SpaceState, r: Reservation, entries: seq<DeviceEntry>)
    requires Local(s) && CommitEntries(s, r, entries).Ok?
    ensures Local(CommitEntries(s, r, entries).value) && Grown(s, CommitEntries(s, r, entries).value)
  {}

  lemma {:induction false} SubmitKeeps(y: System, r: Reservation, entries: seq<DeviceEntry>)
    requires Inv(y) && Enabled(y, Submit(r, entries))
    ensures Inv(Next(y, Submit(r, entries)))
  {
    var y' := Next(y, Submit(r, entries));
    SubmitAccounts(y, r, entries);
    SubmitLocal(y.s, r, entries);
    GrownAgrees(y.s, y'.s, y.stream);
    GrownFits(y, y');
  }

  predicate SameSubmitLog(s: SpaceState, s': SpaceState) {
    s'.cursors == s.cursors && s'.oplog == s.oplog && s'.checksum == s.checksum
  }

  lemma {:induction false} SameAgrees(s: SpaceState, s': SpaceState, stream: Checksum)
    requires SameSubmitLog(s, s') && Agreed(s, stream)
    ensures Agreed(s', stream)
  {}

  lemma {:induction false} SameAccounts(y: System, s': SpaceState)
    requires SameSubmitLog(y.s, s') && Accounted(y)
    ensures Accounted(y.(s := s'))
  {}

  lemma {:induction false} SameFits(y: System, s': SpaceState)
    requires SameSubmitLog(y.s, s') && AnswerFits(y)
    ensures AnswerFits(y.(s := s'))
  {
    if y.pending.Awaiting? {
      SameAgrees(y.s, s', y.pending.pre);
    }
  }

  lemma {:induction false} SameLocal(s: SpaceState, s': SpaceState)
    requires SameSubmitLog(s, s') && Local(s)
    ensures Local(s')
  {}

  /** Nothing here looks past the submit log and the confirmed checksum. */
  lemma {:induction false} SameKeeps(y: System, s': SpaceState)
    requires Inv(y) && SameSubmitLog(y.s, s')
    ensures Inv(y.(s := s'))
  {
    SameLocal(y.s, s');
    SameAgrees(y.s, s', y.stream);
    SameAccounts(y, s');
    SameFits(y, s');
  }

  /** Capturing, marking and trimming admissions leave the submit log alone. */
  lemma {:induction false} InboundLeavesSubmitLog(s: SpaceState, page: PullResponse, to: nat)
    ensures SameSubmitLog(s, AppendAdmits(s, page))
    ensures MarkApplied(s, to).Ok? ==> SameSubmitLog(s, MarkApplied(s, to).value)
    ensures TrimAdmits(s, to).Ok? ==> SameSubmitLog(s, TrimAdmits(s, to).value)
  {}

  lemma {:induction false} InboundKeeps(y: System, step: Step)
    requires Inv(y) && Enabled(y, step) && (step.Capture? || step.Apply? || step.Discard?)
    ensures Inv(Next(y, step))
  {
    match step
    case Capture(page) =>
      InboundLeavesSubmitLog(y.s, page, 0);
      SameKeeps(y, AppendAdmits(y.s, page));
    case Apply(to) =>
      InboundLeavesSubmitLog(y.s, PullResponse(0, 0, []), to);
      SameKeeps(y, MarkApplied(y.s, to).value);
    case Discard(to) =>
      InboundLeavesSubmitLog(y.s, PullResponse(0, 0, []), to);
      SameKeeps(y, TrimAdmits(y.s, to).value);
  }

  lemma {:induction false} RequestAgrees(s: SpaceState, stream: Checksum, m: nat, post: Checksum, answer: Answer)
    requires Local(s) && Agreed(s, stream) && Ascending(stream) && s.cursors.neck < m <= s.cursors.tail
    requires AdmitStep(stream, s.checksum, Batches(s.oplog, s.cursors.neck, m), post, answer)
    ensures Agreed(s, post) && Ascending(post)
    ensures post == stream || (stream == s.checksum && post == stream + Batches(s.oplog, s.cursors.neck, m))
  {
    WindowSequenced(s, m);
    BatchesDense(s.oplog, s.cursors.neck, m);
  }

  /** What a request adds to the stream is committed and not retired. */
  lemma {:induction false} RequestAccounts(y: System, m: nat, post: Checksum)
    requires Local(y.s) && Accounted(y) && y.s.cursors.neck <= m <= y.s.cursors.tail
    requires post == y.stream || post == y.stream + Batches(y.s.oplog, y.s.cursors.neck, m)
    ensures Accounted(y.(stream := post))
  {
    var sent := Batches(y.s.oplog, y.s.cursors.neck, m);
    WindowMembers(y.s, m);
    forall b | b in post
      ensures b.deviceSeq in y.committed && y.committed[b.deviceSeq] == b && b.deviceSeq !in y.retired
    {
      assert b in y.stream || b in sent;
    }
  }

  lemma {:induction false} RequestKeeps(y: System, m: nat, post: Checksum, answer: Answer)
    requires Inv(y) && Enabled(y, Request(m, post, answer))
    ensures Inv(Next(y, Request(m, post, answer)))
  {
    RequestAgrees(y.s, y.stream, m, post, answer);
    RequestAccounts(y, m, post);
  }

  /** Confirming a prefix of the window moves the neck past it and nothing else. */
  lemma {:induction false} TrimAgrees(s: SpaceState, stream: Checksum, through: nat)
    requires Local(s) && s.cursors.neck <= through < s.cursors.tail
    requires stream == s.checksum + Batches(s.oplog, s.cursors.neck, through + 1)
    ensures TrimOplog(s, through, stream).Ok?
    ensures var s' := TrimOplog(s, through, stream).value;
      Local(s') && Agreed(s', stream) && s'.checksum == stream && s'.cursors.neck == through + 1
  {
    WindowSequenced(s, through + 1);
    var s' := TrimOplog(s, through, stream).value;
    assert Batches(s'.oplog, through + 1, through + 1) == [];
  }

  lemma {:induction false} LastOfWindow(s: SpaceState, m: nat)
    requires Local(s) && s.cursors.neck < m <= s.cursors.tail
    ensures LastSeq(s.checksum + Batches(s.oplog, s.cursors.neck, m)) == m - 1 && m - 1 in s.oplog
  {
    WindowSequenced(s, m);
  }

  lemma {:induction false} AheadIsLonger(s: SpaceState, stream: Checksum)
    requires Agreed(s, stream) && stream != s.checksum
    ensures |stream| > |s.checksum|
  {
    assert |stream| == |s.checksum| ==> stream == s.checksum;
  }

  /** A stream that runs ahead of the confirmed one is always reconcilable. */
  lemma {:induction false} AheadExtends(s: SpaceState, stream: Checksum)
    requires Local(s) && Agreed(s, stream) && stream != s.checksum
    ensures Reconcilable(s, LastSeq(stream), stream)
  {
    AheadIsLonger(s, stream);
    LastOfWindow(s, s.cursors.neck + (|stream| - |s.checksum|));
  }

  /** Against an honest server a full set of results means the request was appended to exactly the confirmed stream. */
  lemma {:induction false} AppliedMeansAppended(s: SpaceState, pre: Checksum, m: nat, post: Checksum,
                                                checksum: Checksum, results: seq<AdmissionResult>)
    requires Local(s) && s.cursors.neck < m <= s.cursors.tail && |results| == |Batches(s.oplog, s.cursors.neck, m)|
    requires AdmitStep(pre, s.checksum, Batches(s.oplog, s.cursors.neck, m), post, Response(checksum, results))
    ensures pre == s.checksum
    ensures AllApplied(results) ==> checksum == post == pre + Batches(s.oplog, s.cursors.neck, m)
    ensures !AllApplied(results) ==> post == pre
  {
    WindowSequenced(s, m);
  }

  lemma {:induction false} SettleResponse(s: SpaceState, pre: Checksum, m: nat, post: Checksum, checksum: Checksum,
                                          results: seq<AdmissionResult>)
    requires Local(s) && s.cursors.neck < m <= s.cursors.tail
    requires AdmitStep(pre, s.checksum, Batches(s.oplog, s.cursors.neck, m), post, Response(checksum, results))
    ensures Settle(s, m, Response(checksum, results)).Kept? ==> post == s.checksum
    ensures Settle(s, m, Response(checksum, results)).Advanced? ==>
            Confirms(s, Settle(s, m, Response(checksum, results)).s, post)
  {
    if |results| == |Batches(s.oplog, s.cursors.neck, m)| {
      AppliedMeansAppended(s, pre, m, post, checksum, results);
      if AllApplied(results) {
        TrimAgrees(s, post, m - 1);
      }
    }
  }

  lemma {:induction false} SettleKernel(s: SpaceState, pre: Checksum, m: nat, post: Checksum, error: KernelError)
    requires Local(s) && Agreed(s, pre) && s.cursors.neck < m <= s.cursors.tail
    requires AdmitStep(pre, s.checksum, Batches(s.oplog, s.cursors.neck, m), post, Kernel(error))
    ensures Settle(s, m, Kernel(error)) != Fork
    ensures Settle(s, m, Kernel(error)).Kept? ==> post == s.checksum
    ensures Settle(s, m, Kernel(error)).Advanced? ==> Confirms(s, Settle(s, m, Kernel(error)).s, post)
  {
    if pre != s.checksum {
      AheadExtends(s, pre);
      TrimAgrees(s, pre, LastSeq(pre));
    } else {
      WindowSequenced(s, m);
    }
  }

  /** What settling an honest answer establishes: no fork, and certainty about the stream. */
  lemma {:induction false} SettleIsSound(s: SpaceState, pre: Checksum, m: nat, post: Checksum, answer: Answer)
    requires Local(s) && Agreed(s, pre) && s.cursors.neck < m <= s.cursors.tail
    requires AdmitStep(pre, s.checksum, Batches(s.oplog, s.cursors.neck, m), post, answer)
    ensures Settle(s, m, answer) != Fork
    ensures Settle(s, m, answer).Kept? ==> post == s.checksum
    ensures Settle(s, m, answer).Advanced? ==> Confirms(s, Settle(s, m, answer).s, post)
  {
    match answer
    case Unavailable =>
    case Response(checksum, results) => SettleResponse(s, pre, m, post, checksum, results);
    case Kernel(error) => SettleKernel(s, pre, m, post, error);
  }

  /** `s'` is `s` with the window confirmed up to the end of `stream`. */
  ghost predicate Confirms(s: SpaceState, s': SpaceState, stream: Checksum) {
    && Local(s') && Agreed(s', stream) && s'.checksum == stream && s.cursors.neck < s'.cursors.neck <= s.cursors.tail
    && stream == s.checksum + Batches(s.oplog, s.cursors.neck, s'.cursors.neck)
    && s' == Stored(s, TrimOplog(s, s'.cursors.neck - 1, stream))
  }

  lemma {:induction false} AnsweredKeeps(y: System)
    requires Inv(y) && Enabled(y, Answered)
    ensures Inv(Next(y, Answered))
  {
    SettleIsSound(y.s, y.pending.pre, y.pending.m, y.stream, y.pending.answer);
    var y' := Next(y, Answered);
    if Settle(y.s, y.pending.m, y.pending.answer).Advanced? {
      assert Accounted(y');
    }
  }

  lemma {:induction false} RollBackLocal(s: SpaceState, to: nat)
    requires Local(s)
    ensures Local(RolledBack(s, to)) && Agreed(RolledBack(s, to), s.checksum)
  {
    var s' := RolledBack(s, to);
    assert Batches(s'.oplog, s'.cursors.neck, s'.cursors.neck) == [];
  }

  /** After a rollback, no retired record is in the stream exactly when the server held nothing unconfirmed. */
  lemma {:induction false} RollBackIsSafeIffSettled(y: System)
    requires Local(y.s) && Agreed(y.s, y.stream) && Accounted(y)
    ensures (forall b :: b in y.stream ==> b.deviceSeq !in Numbers(y.s.cursors.neck, y.s.cursors.tail)) <==>
            y.stream == y.s.checksum
  {
    if y.stream == y.s.checksum {
      forall b | b in y.stream ensures b.deviceSeq < y.s.cursors.neck {
        var i :| 0 <= i < |y.stream| && y.stream[i] == b;
        AscendingLast(y.stream, i);
      }
    } else {
      AheadIsLonger(y.s, y.stream);
      LastOfWindow(y.s, y.s.cursors.neck + (|y.stream| - |y.s.checksum|));
      assert y.stream[|y.stream| - 1] in y.stream;
    }
  }

  lemma {:induction false} RollBackAccounts(y: System, to: nat, y': System)
    requires Local(y.s) && Accounted(y)
    requires forall b :: b in y.stream ==> b.deviceSeq !in Numbers(y.s.cursors.neck, y.s.cursors.tail)
    requires y'.s == RolledBack(y.s, to) && y'.stream == y.stream
    requires y'.retired == y.retired + Numbers(y.s.cursors.neck, y.s.cursors.tail)
    requires y'.committed == y.committed[y.s.cursors.tail := AdmissionBatch(y.s.cursors.tail, [], [])]
    ensures Accounted(y')
  {}

  lemma {:induction false} RolledBackKeeps(y: System, to: nat, y': System)
    requires Local(y.s) && Accounted(y) && y.stream == y.s.checksum
    requires y'.s == RolledBack(y.s, to) && y'.stream == y.stream && y'.pending.Idle?
    requires y'.retired == y.retired + Numbers(y.s.cursors.neck, y.s.cursors.tail)
    requires y'.committed == y.committed[y.s.cursors.tail := AdmissionBatch(y.s.cursors.tail, [], [])]
    ensures Inv(y')
  {
    RollBackLocal(y.s, to);
    assert Agreed(y.s, y.stream) by {
      assert Batches(y.s.oplog, y.s.cursors.neck, y.s.cursors.neck) == [];
    }
    RollBackIsSafeIffSettled(y);
    RollBackAccounts(y, to, y');
  }

  /** A permitted rollback either is already done or retires the window. */
  lemma {:induction false} RollBackCases(y: System, to: nat)
    requires Enabled(y, RollBackTo(to))
    ensures y.certain && y.pending.Idle?
    ensures var y' := Next(y, RollBackTo(to));
      || y' == y
      || (&& y'.s == RolledBack(y.s, to) && y'.stream == y.stream && y'.pending == y.pending
          && y'.retired == y.retired + Numbers(y.s.cursors.neck, y.s.cursors.tail)
          && y'.committed == y.committed[y.s.cursors.tail := AdmissionBatch(y.s.cursors.tail, [], [])])
  {}

  lemma {:induction false} RollBackKeeps(y: System, to: nat)
    requires Inv(y) && Enabled(y, RollBackTo(to))
    ensures Inv(Next(y, RollBackTo(to)))
  {
    RollBackCases(y, to);
    if Next(y, RollBackTo(to)) != y {
      RolledBackKeeps(y, to, Next(y, RollBackTo(to)));
    }
  }

  lemma {:induction false} NextKeeps(y: System, step: Step)
    requires Inv(y) && Enabled(y, step)
    ensures Inv(Next(y, step))
  {
    match step
    case Submit(r, entries) => SubmitKeeps(y, r, entries);
    case Request(m, post, answer) => RequestKeeps(y, m, post, answer);
    case Answered => AnsweredKeeps(y);
    case Lost =>
    case RollBackTo(to) => RollBackKeeps(y, to);
    case Capture(_) => InboundKeeps(y, step);
    case Apply(_) => InboundKeeps(y, step);
    case Discard(_) => InboundKeeps(y, step);
  }

  // ----- every run ----------------------------------------------------------------------

  /** `run` is a sequence of states from boot, each one enabled step after the last. */
  ghost predicate StepAt(run: seq<System>, steps: seq<Step>, i: nat)
    requires i < |steps| < |run|
  {
    Enabled(run[i], steps[i]) && run[i + 1] == Next(run[i], steps[i])
  }

  ghost predicate IsRun(run: seq<System>, steps: seq<Step>) {
    && |run| == |steps| + 1 && run[0] == BOOT
    && forall i :: 0 <= i < |steps| ==> StepAt(run, steps, i)
  }

  lemma {:induction false} StepKeeps(y: System, step: Step, y': System)
    requires Inv(y) && Enabled(y, step) && y' == Next(y, step)
    ensures Inv(y')
  {
    NextKeeps(y, step);
  }

  lemma {:induction false} RunStep(run: seq<System>, steps: seq<Step>, i: nat)
    requires IsRun(run, steps) && 0 < i < |run| && Inv(run[i - 1])
    ensures Inv(run[i])
  {
    assert StepAt(run, steps, i - 1);
    StepKeeps(run[i - 1], steps[i - 1], run[i]);
  }

  lemma {:induction false} BootIsFine(y: System)
    requires y == BOOT
    ensures Inv(y)
  {
    assert Batches(FRESH.oplog, 1, 1) == [];
  }

  lemma {:induction false} RunKeeps(run: seq<System>, steps: seq<Step>, i: nat)
    requires IsRun(run, steps) && i < |run|
    ensures Inv(run[i])
  {
    if i == 0 {
      BootIsFine(run[i]);
    } else {
      RunKeeps(run, steps, i - 1);
      RunStep(run, steps, i);
    }
  }

  lemma {:induction false} OnlyRequestsMoveTheStream(y: System, step: Step)
    requires Enabled(y, step) && !step.Request?
    ensures Next(y, step).stream == y.stream
  {}

  /** The stream only ever grows. */
  lemma {:induction false} StreamGrows(y: System, step: Step)
    requires Local(y.s) && Agreed(y.s, y.stream) && Ascending(y.stream) && Enabled(y, step)
    ensures y.stream <= Next(y, step).stream
  {
    if step.Request? {
      RequestAgrees(y.s, y.stream, step.m, step.post, step.answer);
    } else {
      OnlyRequestsMoveTheStream(y, step);
    }
  }

  /** Records are never rewritten, and retirement is for good. */
  lemma {:induction false} RecordsGrow(y: System, step: Step)
    requires (forall q :: q in y.committed ==> q < y.s.cursors.tail) && Enabled(y, step)
    ensures y.retired <= Next(y, step).retired
    ensures forall q :: q in y.committed ==>
            q in Next(y, step).committed && Next(y, step).committed[q] == y.committed[q]
  {
    match step
    case Submit(r, entries) =>
    case RollBackTo(to) =>
    case _ =>
  }

  lemma {:induction false} RunGrowsOnce(run: seq<System>, steps: seq<Step>, i: nat)
    requires IsRun(run, steps) && i < |steps|
    ensures run[i].stream <= run[i + 1].stream && run[i].retired <= run[i + 1].retired
    ensures forall q :: q in run[i].committed ==>
            q in run[i + 1].committed && run[i + 1].committed[q] == run[i].committed[q]
  {
    RunKeeps(run, steps, i);
    assert StepAt(run, steps, i);
    StreamGrows(run[i], steps[i]);
    RecordsGrow(run[i], steps[i]);
  }

  lemma {:induction false} StreamsGrow(run: seq<System>, steps: seq<Step>, i: nat, j: nat)
    requires IsRun(run, steps) && i <= j < |run|
    ensures run[i].stream <= run[j].stream && run[i].retired <= run[j].retired
  {
    if i < j {
      StreamsGrow(run, steps, i, j - 1);
      RunGrowsOnce(run, steps, j - 1);
    }
  }

  lemma {:induction false} RecordStays(run: seq<System>, steps: seq<Step>, i: nat, j: nat, q: nat)
    requires IsRun(run, steps) && i <= j < |run| && q in run[i].committed
    ensures q in run[j].committed && run[j].committed[q] == run[i].committed[q]
  {
    if i < j {
      RecordStays(run, steps, i, j - 1, q);
      RunGrowsOnce(run, steps, j - 1);
    }
  }

  lemma {:induction false} RunGrows(run: seq<System>, steps: seq<Step>, i: nat, j: nat)
    requires IsRun(run, steps) && i <= j < |run|
    ensures run[i].stream <= run[j].stream && run[i].retired <= run[j].retired
    ensures forall q :: q in run[i].committed ==> q in run[j].committed && run[j].committed[q] == run[i].committed[q]
  {
    StreamsGrow(run, steps, i, j);
    forall q | q in run[i].committed ensures q in run[j].committed && run[j].committed[q] == run[i].committed[q] {
      RecordStays(run, steps, i, j, q);
    }
  }

  /**
   In every run, at every moment, the server's stream lists records this store
   committed, in increasing sequence and so each at most once.
   */
  lemma {:induction false} StreamIsCommittedInOrder(run: seq<System>, steps: seq<Step>, i: nat)
    requires IsRun(run, steps) && i < |run|
    ensures forall a, b :: 0 <= a < b < |run[i].stream| ==> run[i].stream[a].deviceSeq < run[i].stream[b].deviceSeq
    ensures forall b :: b in run[i].stream ==> b.deviceSeq in run[i].committed && run[i].committed[b.deviceSeq] == b
  {
    RunKeeps(run, steps, i);
    forall a, b | 0 <= a < b < |run[i].stream| ensures run[i].stream[a].deviceSeq < run[i].stream[b].deviceSeq {
      AscendingPair(run[i].stream, a, b);
    }
  }

  lemma {:induction false} AscendingPair(stream: Checksum, a: nat, b: nat)
    requires Ascending(stream) && a < b < |stream|
    ensures stream[a].deviceSeq < stream[b].deviceSeq
    decreases b
  {
    if a < b - 1 {
      AscendingPair(stream, a, b - 1);
    }
  }

  /** The batch is what this step committed: a submission's own operations and assertions, or a bare marker. */
  predicate Wrote(y: System, step: Step, b: AdmissionBatch) {
    match step
    case Submit(r, entries) => b == AdmissionBatch(r.at, r.rangeAsserts, entries)
    case RollBackTo(_) => b == AdmissionBatch(y.s.cursors.tail, [], [])
    case _ => false
  }

  lemma {:induction false} CommittedOnce(y: System, step: Step, q: nat)
    requires Enabled(y, step) && q in Next(y, step).committed
    ensures (q in y.committed && Next(y, step).committed[q] == y.committed[q])
            || Wrote(y, step, Next(y, step).committed[q])
  {
    match step
    case Submit(_, _) =>
    case RollBackTo(_) =>
    case _ =>
  }

  lemma {:induction false} CommittedWasWritten(run: seq<System>, steps: seq<Step>, i: nat, q: nat) returns (k: nat)
    requires IsRun(run, steps) && i < |run| && q in run[i].committed
    ensures k < i && Wrote(run[k], steps[k], run[i].committed[q])
  {
    assert StepAt(run, steps, i - 1);
    CommittedOnce(run[i - 1], steps[i - 1], q);
    if q in run[i - 1].committed && run[i].committed[q] == run[i - 1].committed[q] {
      k := CommittedWasWritten(run, steps, i - 1, q);
    } else {
      k := i - 1;
    }
  }

  /** Whatever is in the stream is, field for field, what some earlier step of this store committed. */
  lemma {:induction false} StreamWasWritten(run: seq<System>, steps: seq<Step>, i: nat, b: AdmissionBatch)
      returns (k: nat)
    requires IsRun(run, steps) && i < |run| && b in run[i].stream
    ensures k < i && Wrote(run[k], steps[k], b)
  {
    StreamIsCommittedInOrder(run, steps, i);
    k := CommittedWasWritten(run, steps, i, b.deviceSeq);
  }

  /** A record once retired by rollback is in the stream at no moment of the run, before or after. */
  lemma {:induction false} RetiredIsNeverAdmitted(run: seq<System>, steps: seq<Step>, i: nat, j: nat, b: AdmissionBatch)
    requires IsRun(run, steps) && i < |run| && j < |run|
    requires b.deviceSeq in run[i].retired
    ensures b !in run[j].stream
  {
    var last := if i <= j then j else i;
    StreamsGrow(run, steps, i, last);
    StreamsGrow(run, steps, j, last);
    RunKeeps(run, steps, last);
    assert b !in run[last].stream;
  }

  /** No honest run ever ends in a fork report, and a settled request leaves nothing unconfirmed. */
  lemma {:induction false} HonestRunsNeverFork(run: seq<System>, steps: seq<Step>, i: nat)
    requires IsRun(run, steps) && i < |steps| && steps[i] == Answered
    ensures && run[i].pending.Awaiting? && run[i].s.cursors.neck < run[i].pending.m
            && Settle(run[i].s, run[i].pending.m, run[i].pending.answer) != Fork
    ensures run[i + 1].certain ==> run[i + 1].stream == run[i + 1].s.checksum
  {
    RunKeeps(run, steps, i);
    RunKeeps(run, steps, i + 1);
    assert StepAt(run, steps, i);
    SettleIsSound(run[i].s, run[i].pending.pre, run[i].pending.m, run[i].stream, run[i].pending.answer);
  }

  /**
   Why rollback must wait for a definitive answer: after a submission, a request
   that took effect and a lost answer, the store would still accept the
   rollback, and the record it retires is already in the stream.
   */
  lemma {:induction false} AmbiguousRollbackRetiresAdmitted()
    returns (run: seq<System>, steps: seq<Step>, to: nat, b: AdmissionBatch)
    ensures IsRun(run, steps) && run[|steps|].pending.Idle? && !run[|steps|].certain
    ensures RollBack(run[|steps|].s, to).Ok? && RollBack(run[|steps|].s, to).value == RolledBack(run[|steps|].s, to)
    ensures b in run[|steps|].stream && b.deviceSeq in Numbers(run[|steps|].s.cursors.neck, run[|steps|].s.cursors.tail)
  {
    var r := Reservation(1, 0, [], [], Unchecked);
    b, to := AdmissionBatch(1, [], []), 1;
    steps := [Submit(r, []), Request(2, [b], Unavailable), Lost];
    var y1 := Next(BOOT, steps[0]);
    assert Batches(y1.s.oplog, 1, 1) == [];
    assert Batches(y1.s.oplog, 1, 2) == [b];
    var y2 := Next(y1, steps[1]);
    var y3 := Next(y2, steps[2]);
    run := [BOOT, y1, y2, y3];
  }
}
