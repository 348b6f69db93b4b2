/**
 The push loop of one space (client/src/client.rs), run against the server of
 module SpaceServer through a network that may lose requests and answers.
 */
module Push {
  import opened Types
  import opened Wire
  import opened MetaLog
  import MetaStore
  import opened Replication
  import SpaceServer

  // ----- windows read from the store ---------------------------------------------

  function ToBatches(rows: seq<(nat, DeviceOp)>): seq<AdmissionBatch> {
    seq(|rows|, i requires 0 <= i < |rows| => BatchOf(rows[i].0, rows[i].1))
  }

  lemma {:induction false} RowsAreBatches(log: map<nat, DeviceOp>, from: nat, to: nat)
    ensures ToBatches(RowsIn(log, from, to)) == Batches(log, from, to)
    ensures forall i :: 0 <= i < |RowsIn(log, from, to)| ==>
              from <= RowsIn(log, from, to)[i].0 < to && RowsIn(log, from, to)[i].0 in log
  {
    if from < to {
      RowsAreBatches(log, from, to - 1);
    }
  }

  /** A window read up to `currentSeq` ends there exactly when that record is retained. */
  lemma {:induction false} RowsReach(log: map<nat, DeviceOp>, from: nat, currentSeq: nat)
    requires from <= currentSeq
    ensures var rows := RowsIn(log, from, currentSeq + 1);
      (rows != [] && rows[|rows| - 1].0 == currentSeq) <==> currentSeq in log
  {
    RowsAreBatches(log, from, currentSeq);
  }

  lemma {:induction false} RowsDense(log: map<nat, DeviceOp>, from: nat, to: nat)
    requires from <= to && forall q :: from <= q < to ==> q in log
    ensures |RowsIn(log, from, to)| == to - from
    ensures forall i :: 0 <= i < to - from ==> RowsIn(log, from, to)[i] == (from + i, log[from + i])
  {
    if from < to {
      RowsDense(log, from, to - 1);
    }
  }

  // ----- one request ------------------------------------------------------------------

  function EntryCount(batches: seq<AdmissionBatch>): nat {
    if batches == [] then 0 else EntryCount(batches[..|batches| - 1]) + |batches[|batches| - 1].entries|
  }

  /** The operations of a request, one by one. */
  function AllEntries(batches: seq<AdmissionBatch>): seq<DeviceEntry> {
    if batches == [] then [] else batches[0].entries + AllEntries(batches[1..])
  }

  lemma {:induction false} AllEntriesLast(batches: seq<AdmissionBatch>)
    requires batches != []
    ensures AllEntries(batches) == AllEntries(batches[..|batches| - 1]) + batches[|batches| - 1].entries
  {
    if |batches| == 1 {
      assert batches[1..] == [] && batches[..0] == [];
    } else {
      AllEntriesLast(batches[1..]);
      assert batches[1..][..|batches| - 2] == batches[..|batches| - 1][1..];
      Associate(batches[0].entries, AllEntries(batches[1..][..|batches| - 2]), batches[|batches| - 1].entries);
    }
  }

  /** The count is of every operation in the request. */
  lemma {:induction false} EntryCountIsAll(batches: seq<AdmissionBatch>)
    ensures EntryCount(batches) == |AllEntries(batches)|
  {
    if batches != [] {
      EntryCountIsAll(batches[..|batches| - 1]);
      AllEntriesLast(batches);
    }
  }

  method CountEntries(batches: seq<AdmissionBatch>) returns (n: nat)
    ensures n == EntryCount(batches)
  {
    n := 0;
    for i := 0 to |batches|
      invariant n == EntryCount(batches[..i])
    {
      assert batches[..i + 1][..i] == batches[..i];
      n := n + |batches[i].entries|;
    }
    assert batches[..|batches|] == batches;
  }

  /** The first `n` rows carry consecutive numbers. */
  predicate Consecutive(rows: seq<(nat, DeviceOp)>, n: nat)
    requires n <= |rows|
  {
    forall i :: 0 < i < n ==> rows[i].0 == rows[i - 1].0 + 1
  }

  /** Coalesce the head of a window: consecutive records, at most `cap` entries unless the first alone exceeds it. */
  method Coalesce(window: seq<(nat, DeviceOp)>, probe: bool, cap: nat) returns (batches: seq<AdmissionBatch>, last: nat)
    requires window != []
    ensures 1 <= |batches| <= |window| && batches == ToBatches(window)[..|batches|]
    ensures Consecutive(window, |batches|) && last == window[|batches| - 1].0
    ensures probe ==> |batches| == 1
    ensures |batches| == 1 || EntryCount(batches) <= cap
    ensures !probe && |batches| < |window| ==>
              window[|batches|].0 != last + 1 || EntryCount(batches) + |window[|batches|].1.Entries()| > cap
  {
    last := window[0].0;
    batches := [BatchOf(window[0].0, window[0].1)];
    if probe {
      return;
    }
    while |batches| < |window|
      invariant 1 <= |batches| <= |window| && batches == ToBatches(window)[..|batches|]
      invariant Consecutive(window, |batches|) && last == window[|batches| - 1].0
      invariant |batches| == 1 || EntryCount(batches) <= cap
      decreases |window| - |batches|
    {
      var row := window[|batches|];
      var count := CountEntries(batches);
      if row.0 != last + 1 || count + |row.1.Entries()| > cap {
        break;
      }
      assert (batches + [BatchOf(row.0, row.1)])[..|batches|] == batches;
      batches := batches + [BatchOf(row.0, row.1)];
      last := row.0;
    }
  }

  /** The first `n` rows of a window are the rows up to the number of the last of them. */
  lemma {:induction false} RowsPrefix(log: map<nat, DeviceOp>, from: nat, to: nat, n: nat)
    requires 1 <= n <= |RowsIn(log, from, to)|
    ensures RowsIn(log, from, RowsIn(log, from, to)[n - 1].0 + 1) == RowsIn(log, from, to)[..n]
  {
    var rows := RowsIn(log, from, to);
    if n == |rows| && to - 1 in log {
      assert rows[..n] == rows;
    } else {
      RowsPrefix(log, from, to - 1, n);
    }
  }

  lemma {:induction false} RowsGrow(log: map<nat, DeviceOp>, from: nat, mid: nat, to: nat)
    requires mid <= to
    ensures RowsIn(log, from, mid) <= RowsIn(log, from, to)
  {
    if mid < to {
      RowsGrow(log, from, mid, to - 1);
    }
  }

  /** The row after the first `n` is the next number, if that is retained. */
  lemma {:induction false} NextRow(log: map<nat, DeviceOp>, from: nat, to: nat, n: nat)
    requires 1 <= n <= |RowsIn(log, from, to)|
    ensures var rows := RowsIn(log, from, to); var next := rows[n - 1].0 + 1;
      next < to && next in log ==> n < |rows| && rows[n] == (next, log[next])
  {
    var rows := RowsIn(log, from, to);
    var next := rows[n - 1].0 + 1;
    if next < to && next in log {
      RowsAreBatches(log, from, to);
      RowsPrefix(log, from, to, n);
      RowsGrow(log, from, next + 1, to);
      assert RowsIn(log, from, next + 1) == rows[..n] + [(next, log[next])];
    }
  }

  /** A coalesced request is exactly the retained records from the neck through `last`. */
  lemma {:induction false} CoalescedIsWindow(log: map<nat, DeviceOp>, neck: nat, until: nat,
                                             batches: seq<AdmissionBatch>)
    requires var window := RowsIn(log, neck, until + 1);
      1 <= |batches| <= |window| && batches == ToBatches(window)[..|batches|] && Consecutive(window, |batches|)
    ensures var window := RowsIn(log, neck, until + 1); var last := window[|batches| - 1].0;
      && neck <= window[0].0 && last <= until && last - window[0].0 == |batches| - 1
      && batches == Batches(log, neck, last + 1)
      && forall i :: 0 <= i < |batches| ==> batches[i].deviceSeq == window[0].0 + i
  {
    var window := RowsIn(log, neck, until + 1);
    var n := |batches|;
    var last := window[n - 1].0;
    RowsAreBatches(log, neck, until + 1);
    RowsPrefix(log, neck, until + 1, n);
    RowsAreBatches(log, neck, last + 1);
    assert ToBatches(window[..n]) == ToBatches(window)[..n];
    forall i | 0 <= i < n ensures window[i].0 == window[0].0 + i {
      ConsecutiveFrom(window, n, i);
    }
  }

  lemma {:induction false} ConsecutiveFrom(rows: seq<(nat, DeviceOp)>, n: nat, i: nat)
    requires n <= |rows| && Consecutive(rows, n) && i < n
    ensures rows[i].0 == rows[0].0 + i
  {
    if i > 0 {
      ConsecutiveFrom(rows, n, i - 1);
    }
  }

  /** A dense window starts at its neck. */
  lemma {:induction false} DenseWindowStarts(s: SpaceState, until: nat)
    requires Local(s) && s.cursors.neck <= until < s.cursors.tail
    ensures var window := RowsIn(s.oplog, s.cursors.neck, until + 1); window != [] && window[0].0 == s.cursors.neck
  {
    RowsDense(s.oplog, s.cursors.neck, until + 1);
  }

  // ----- reconciliation ------------------------------------------------------------

  /**
   Trim exactly when the server's stream extends the confirmed one by the retained records; otherwise
   touch nothing.
   */
  method Reconcile(store: MetaStore.MetaStore, currentSeq: nat, current: Checksum) returns (forked: bool)
    modifies store
    ensures forked <==> !Reconcilable(old(store.State()), currentSeq, current)
    ensures store.State() ==
            if forked then old(store.State())
              else Stored(old(store.State()), TrimOplog(old(store.State()), currentSeq, current))
  {
    var neck := store.cursors.neck;
    var retained := [];
    if currentSeq >= neck && currentSeq < store.cursors.tail {
      retained := store.Oplog(neck, currentSeq);
      RowsReach(store.oplog, neck, currentSeq);
      RowsAreBatches(store.oplog, neck, currentSeq + 1);
    }
    var rebuilt := store.checksum;
    for i := 0 to |retained|
      invariant rebuilt == store.checksum + ToBatches(retained)[..i]
    {
      rebuilt := rebuilt + [BatchOf(retained[i].0, retained[i].1)];
    }
    var reachesCurrent := retained != [] && retained[|retained| - 1].0 == currentSeq;
    if !reachesCurrent || rebuilt != current {
      return true;
    }
    var _ := store.Trim(currentSeq, current);
    return false;
  }

  // ----- the network --------------------------------------------------------------------

  /** Batch number `at` of the log is the one `device` submitted under `deviceSeq`. */
  predicate LoggedAt(log: seq<LogBatch>, device: DeviceId, at: nat, deviceSeq: nat) {
    1 <= at <= |log| && log[at - 1].device == device && log[at - 1].deviceSeq == deviceSeq
  }

  /** Every result names the log position its batch received. */
  predicate ResultsLogged(log: seq<LogBatch>, device: DeviceId, batches: seq<AdmissionBatch>,
                          results: seq<AdmissionResult>)
    requires |results| == |batches| && AllApplied(results)
  {
    forall i :: 0 <= i < |batches| ==> LoggedAt(log, device, results[i].admissionSeq, batches[i].deviceSeq)
  }

  lemma {:induction false} NumberedAreLogged(before: seq<LogBatch>, log: seq<LogBatch>, device: DeviceId,
                                             batches: seq<AdmissionBatch>, results: seq<AdmissionResult>)
    requires SpaceServer.Extends(before, log, device, batches, |batches|)
    requires results == SpaceServer.AllAdmitted(|before| + 1, |batches|)
    ensures AllApplied(results) && ResultsLogged(log, device, batches, results)
  {
    forall i | 0 <= i < |batches| ensures LoggedAt(log, device, results[i].admissionSeq, batches[i].deviceSeq) {
      assert SpaceServer.PlacedAt(before, log, device, batches, i);
    }
  }

  /** One request of a device: the log it met, what it carried and what came back. */
  datatype Call = Call(device: DeviceId, met: seq<LogBatch>, expected: Checksum, batches: seq<AdmissionBatch>,
                       answer: Answer)

  /** The answer is what the whole history demands under a verdict of the leases. */
  ghost predicate JudgedUnder(call: Call, contended: Option<Rejection>) {
    var h, stream := SpaceServer.Entries(call.met), SpaceServer.StreamOf(call.met, call.device);
    call.answer == SpaceServer.Judge(h, call.device, stream, call.expected, call.batches, contended, |call.met| + 1)
  }

  ghost predicate Judged(call: Call) {
    exists contended :: JudgedUnder(call, contended)
  }

  lemma {:induction false} JudgedBy(call: Call, contended: Option<Rejection>)
    requires JudgedUnder(call, contended)
    ensures Judged(call)
  {}

  /** What came back is the server's judgement or, where answers can be lost, nothing. */
  ghost predicate Truthful(call: Call, answers: bool) {
    (call.answer == Unavailable && !answers) || Judged(call)
  }

  /** A judged request is answered, with one result for each batch if with any. */
  lemma {:induction false} JudgedIsAnswered(call: Call)
    requires Judged(call)
    ensures call.answer != Unavailable && (call.answer.Response? ==> |call.answer.results| == |call.batches|)
  {
    var contended :| JudgedUnder(call, contended);
  }

  /**
   One device's connection to a server that other devices use at the same time: unless it `answers`
   every call, requests may not arrive and answers may not return; and any number of foreign requests
   may be served before and after each own one. `calls` lists the own ones.
   */
  class Network {
    const server: SpaceServer.Server
    const device: DeviceId
    const answers: bool
    ghost var calls: seq<Call>

    constructor (s: SpaceServer.Server, d: DeviceId, a: bool)
      ensures server == s && device == d && answers == a && calls == []
    {
      server, device, answers, calls := s, d, a, [];
    }

    ghost function Stream(): Checksum
      reads server
    {
      SpaceServer.StreamOf(server.log, device)
    }

    /** Whatever the other devices ask for in the meantime. */
    method OthersAdmit()
      requires server.Valid()
      modifies server
      ensures server.Valid() && old(server.log) <= server.log && Stream() == old(Stream())
    {
      SpaceServer.Meanwhile(server, Some(device));
    }

    /** The own request, once it has arrived. */
    method Serve(expected: Checksum, batches: seq<AdmissionBatch>) returns (answer: Answer)
      requires server.Valid()
      modifies server
      ensures server.Valid() && old(server.log) <= server.log
      ensures AdmitStep(old(Stream()), expected, batches, Stream(), answer)
      ensures Judged(Call(device, old(server.log), expected, batches, answer))
      ensures answer.Response? && |answer.results| == |batches| && AllApplied(answer.results)
              ==> ResultsLogged(server.log, device, batches, answer.results)
    {
      ghost var before := server.log;
      var contended: Option<Rejection> := *;
      answer := server.Admit(device, expected, batches, contended);
      JudgedBy(Call(device, before, expected, batches, answer), contended);
      if answer.Response? && AllApplied(answer.results) && batches != [] {
        ghost var stream := SpaceServer.StreamOf(before, device);
        SpaceServer.AppliedIsTaken(SpaceServer.Entries(before), device, stream, expected, batches, contended,
                                   |before| + 1);
        NumberedAreLogged(before, server.log, device, batches, answer.results);
      }
    }

    /** The own request and its answer, either of which may be lost. */
    method Exchange(expected: Checksum, batches: seq<AdmissionBatch>)
      returns (answer: Answer, ghost met: seq<LogBatch>)
      requires server.Valid()
      modifies server
      ensures server.Valid() && old(server.log) <= met <= server.log
      ensures AdmitStep(old(Stream()), expected, batches, Stream(), answer)
      ensures Truthful(Call(device, met, expected, batches, answer), answers)
      ensures answer.Response? && |answer.results| == |batches| && AllApplied(answer.results)
              ==> ResultsLogged(server.log, device, batches, answer.results)
    {
      OthersAdmit();
      met := server.log;
      var lost: bool := *;
      if lost && !answers {
        return Unavailable, met;
      }
      answer := Serve(expected, batches);
      OthersAdmit();
      var dropped: bool := *;
      if dropped && !answers {
        return Unavailable, met;
      }
    }

    method Admit(expected: Checksum, batches: seq<AdmissionBatch>) returns (answer: Answer, ghost call: Call)
      requires server.Valid()
      modifies server, this`calls
      ensures server.Valid() && old(server.log) <= call.met <= server.log
      ensures AdmitStep(old(Stream()), expected, batches, Stream(), answer)
      ensures call == Call(device, call.met, expected, batches, answer) && Truthful(call, answers)
      ensures calls == old(calls) + [call]
      ensures answer.Response? && |answer.results| == |batches| && AllApplied(answer.results)
              ==> ResultsLogged(server.log, device, batches, answer.results)
    {
      ghost var met;
      answer, met := Exchange(expected, batches);
      call := Call(device, met, expected, batches, answer);
      calls := calls + [call];
    }
  }

  // ----- the loop --------------------------------------------------------------------

  datatype PushRun =
    | Drained(acked: Option<nat>, admission: Option<nat>)
    | Stalled(at: nat, acked: Option<nat>, admission: Option<nat>)
    | NotPending(target: nat)
    | ForkReported(admitted: nat)
    | NoAnswer

  /** The two sides agree as module Replication requires. */
  ghost predicate Synced(s: SpaceState, stream: Checksum) {
    Local(s) && Agreed(s, stream) && Ascending(stream)
  }

  /** `s` is `s0` with the records below its neck confirmed and trimmed, and nothing else changed. */
  ghost predicate Progress(s0: SpaceState, s: SpaceState) {
    && s0.cursors.neck <= s.cursors.neck <= s.cursors.tail == s0.cursors.tail
    && s.checksum == s0.checksum + Batches(s0.oplog, s0.cursors.neck, s.cursors.neck)
    && s.admitCursors == s0.admitCursors && s.admits == s0.admits && s.verHigh == s0.verHigh
    && forall q :: s.cursors.neck <= q < s.cursors.tail ==>
      (q in s.oplog <==> q in s0.oplog) && (q in s.oplog ==> s.oplog[q] == s0.oplog[q])
  }

  lemma {:induction false} NoProgress(s: SpaceState)
    requires s.cursors.Ordered()
    ensures Progress(s, s)
  {
    assert Batches(s.oplog, s.cursors.neck, s.cursors.neck) == [];
  }

  lemma {:induction false} ProgressStream(s0: SpaceState, s: SpaceState, m: nat)
    requires Progress(s0, s) && s.cursors.neck <= m <= s.cursors.tail
    ensures s.checksum + Batches(s.oplog, s.cursors.neck, m) == s0.checksum + Batches(s0.oplog, s0.cursors.neck, m)
  {
    BatchesAgree(s.oplog, s0.oplog, s.cursors.neck, m);
    BatchesSplit(s0.oplog, s0.cursors.neck, s.cursors.neck, m);
    Associate(s0.checksum, Batches(s0.oplog, s0.cursors.neck, s.cursors.neck),
              Batches(s0.oplog, s.cursors.neck, m));
  }

  lemma {:induction false} MoreProgress(s0: SpaceState, s: SpaceState, through: nat, stream: Checksum)
    requires Progress(s0, s) && s.cursors.neck <= through < s.cursors.tail
    requires stream == s.checksum + Batches(s.oplog, s.cursors.neck, through + 1)
    ensures Progress(s0, Stored(s, TrimOplog(s, through, stream)))
  {
    ProgressStream(s0, s, through + 1);
  }

  /** What a finished push says about the two sides and about the last call it made. */
  ghost predicate Reported(s: SpaceState, stream: Checksum, through: Option<nat>, run: PushRun, call: Option<Call>) {
    match run
    case Drained(acked, admission) =>
      && (through.None? ==> s.cursors.neck == s.cursors.tail && stream == s.checksum)
      && (through.Some? ==> through.value < s.cursors.neck && TargetReported(acked, admission, call))
    case Stalled(at, _, admission) =>
      && at == s.cursors.neck < s.cursors.tail && stream == s.checksum && at in s.oplog
      && (through.Some? ==> at <= through.value)
      && admission.None? && call.Some? && RefusedAlone(s, stream, at, call.value)
    case NotPending(target) =>
      through == Some(target) && s.cursors.head <= target && !(s.cursors.neck <= target < s.cursors.tail)
    case ForkReported(_) => false
    case NoAnswer => call.Some? && exists m :: LostAt(s, m, call.value)
  }

  /** A target confirmed by this push is reported with its admission number iff the last answer applied it. */
  predicate TargetReported(acked: Option<nat>, admission: Option<nat>, call: Option<Call>) {
    if acked.Some? then call.Some? && (admission.Some? <==> call.value.answer.Response?) else admission.None?
  }

  /** The call carried record `at` and nothing else, and was refused. */
  ghost predicate RefusedAlone(s: SpaceState, stream: Checksum, at: nat, call: Call)
    requires at == s.cursors.neck && at in s.oplog
  {
    && |call.batches| == 1 && Says(call.batches[0], at, s.oplog[at]) && call.expected == s.checksum
    && AdmitStep(stream, s.checksum, call.batches, stream, call.answer)
    && Settle(s, at + 1, call.answer).Kept?
  }

  /** The call carried the records in `[neck, m)`, and nothing came back. */
  ghost predicate LostAt(s: SpaceState, m: nat, call: Call) {
    && s.cursors.neck < m <= s.cursors.tail && call.batches == Batches(s.oplog, s.cursors.neck, m)
    && call.answer == Unavailable
  }

  /** The last call made since `before`. */
  function LastCall(before: seq<Call>, calls: seq<Call>): Option<Call> {
    if |before| < |calls| then Some(calls[|calls| - 1]) else None
  }

  /** Every call since `before` is this device's, met the log as it then was, and came back as the server judged it. */
  ghost predicate Ledger(before: seq<Call>, calls: seq<Call>, device: DeviceId, answers: bool, log: seq<LogBatch>) {
    before <= calls && forall i :: |before| <= i < |calls| ==> Recorded(calls[i], device, answers, log)
  }

  ghost predicate Recorded(call: Call, device: DeviceId, answers: bool, log: seq<LogBatch>) {
    call.device == device && call.met <= log && Truthful(call, answers)
  }

  predicate TargetLogged(log: seq<LogBatch>, device: DeviceId, through: Option<nat>, admission: Option<nat>) {
    admission.Some? ==> through.Some? && LoggedAt(log, device, admission.value, through.value)
  }

  datatype Turn = Again(probe: bool, acked: Option<nat>, admission: Option<nat>) | Finished(run: PushRun)

  function AdmissionOf(turn: Turn): Option<nat> {
    match turn
    case Again(_, _, admission) => admission
    case Finished(Drained(_, admission)) => admission
    case Finished(Stalled(_, _, admission)) => admission
    case _ => None
  }

  function AckedOf(turn: Turn): Option<nat> {
    match turn
    case Again(_, acked, _) => acked
    case Finished(Drained(acked, _)) => acked
    case Finished(Stalled(_, acked, _)) => acked
    case _ => None
  }

  /** The acknowledgement a turn carries from `neck`: the last record confirmed, or what it was before. */
  predicate AckedFits(neck: nat, acked: Option<nat>, neck': nat, turn: Turn) {
    turn.Again? || turn.run.Drained? || turn.run.Stalled? ==>
      AckedOf(turn) == if neck' == neck then acked else if neck' > 0 then Some(neck' - 1) else None
  }

  /** A loop that has confirmed something has not passed its target. */
  predicate NotPast(neck: nat, through: Option<nat>, acked: Option<nat>) {
    through.Some? && acked.Some? ==> neck <= through.value
  }

  /** The admission number a turn carries: taken from a response that reaches the target, else as it was before. */
  predicate AdmissionFits(answer: Answer, head: nat, through: Option<nat>, admission: Option<nat>, turn: Turn) {
    match turn
    case Again(_, _, now) => now == admission
    case Finished(Drained(_, now)) =>
      if answer.Response? && through.Some? && head <= through.value then now.Some? else now == admission
    case Finished(Stalled(_, _, now)) => now == admission
    case _ => true
  }

  /** A new admission number is the one an all-applied answer gives the target. */
  predicate NumberTaken(answer: Answer, head: nat, last: nat, through: Option<nat>, admission: Option<nat>, turn: Turn)
    requires head <= last
  {
    AdmissionOf(turn).Some? && AdmissionOf(turn) != admission ==>
      && answer.Response? && |answer.results| == last - head + 1 && AllApplied(answer.results)
      && through.Some? && head <= through.value <= last
      && AdmissionOf(turn).value == answer.results[through.value - head].admissionSeq
  }

  /** A fork report names the number the server holds. */
  predicate ForkNamed(answer: Answer, turn: Turn) {
    turn.Finished? && turn.run.ForkReported? ==>
      answer.Kernel? && match answer.error
        case DeviceChecksumMismatch(currentSeq, _) => turn.run.admitted == currentSeq
        case DeviceSeqRegression(current, _) => turn.run.admitted == current
        case Rejected(_) => false
  }

  /** Which turn an outcome leads to, for a request numbered `[head, last]`. */
  ghost predicate Leads(outcome: Outcome, head: nat, last: nat, through: Option<nat>, acked: Option<nat>,
                        admission: Option<nat>, turn: Turn) {
    match outcome
    case Advanced(s) =>
      if through.Some? && s.cursors.neck > through.value then
        turn.Finished? && turn.run.Drained? && turn.run.acked == Some(s.cursors.neck - 1)
      else turn.Again? && !turn.probe && turn.acked == Some(s.cursors.neck - 1)
    case Kept =>
      turn == if last > head then Again(true, acked, admission) else Finished(Stalled(head, acked, admission))
    case Fork => turn.Finished? && turn.run.ForkReported?
    case Unknown => turn == Finished(NoAnswer)
  }

  /** The first failed batch of a response, if any. */
  method FirstFailed(results: seq<AdmissionResult>) returns (failed: Option<nat>)
    ensures failed.None? <==> AllApplied(results)
    ensures failed.Some? ==> failed.value < |results| && results[failed.value].Failed?
  {
    for i := 0 to |results|
      invariant forall j :: 0 <= j < i ==> results[j].Applied?
    {
      if results[i].Failed? {
        return Some(i);
      }
    }
    return None;
  }

  /** Act on the answer to a request numbered `[head, last]`, exactly as `Settle` says. */
  method Act(store: MetaStore.MetaStore, through: Option<nat>, head: nat, last: nat, answer: Answer, acked: Option<nat>,
             admission: Option<nat>)
    returns (turn: Turn)
    requires store.cursors.neck <= head <= last < store.cursors.tail
    requires |Batches(store.oplog, store.cursors.neck, last + 1)| == last - head + 1
    modifies store
    ensures Leads(Settle(old(store.State()), last + 1, answer), head, last, through, acked, admission, turn)
    ensures store.State() ==
            var outcome := Settle(old(store.State()), last + 1, answer);
            if outcome.Advanced? then outcome.s else old(store.State())
    ensures NumberTaken(answer, head, last, through, admission, turn)
    ensures AdmissionFits(answer, head, through, admission, turn) && ForkNamed(answer, turn)
  {
    match answer
    case Response(checksum, results) =>
      if |results| != last - head + 1 {
        return Finished(NoAnswer);
      }
      var failed := FirstFailed(results);
      if failed.Some? {
        var at := head + failed.value;
        if last > head {
          return Again(true, acked, admission);
        }
        return Finished(Stalled(at, acked, admission));
      }
      var now := admission;
      if through.Some? && through.value >= head && through.value <= last {
        now := Some(results[through.value - head].admissionSeq);
      }
      var _ := store.Trim(last, checksum);
      if through.Some? && last >= through.value {
        return Finished(Drained(Some(last), now));
      }
      return Again(false, Some(last), now);
    case Kernel(DeviceChecksumMismatch(currentSeq, current)) =>
      var forked := Reconcile(store, currentSeq, current);
      if forked {
        return Finished(ForkReported(currentSeq));
      }
      if through.Some? && currentSeq >= through.value {
        return Finished(Drained(Some(currentSeq), admission));
      }
      return Again(false, Some(currentSeq), admission);
    case Kernel(DeviceSeqRegression(current, _)) =>
      return Finished(ForkReported(current));
    case Kernel(Rejected(_)) =>
      if last > head {
        return Again(true, acked, admission);
      }
      return Finished(Stalled(head, acked, admission));
    case Unavailable =>
      return Finished(NoAnswer);
  }

  lemma {:induction false} SingleBatch(s: SpaceState, head: nat)
    requires Local(s) && s.cursors.neck <= head < s.cursors.tail
    ensures head in s.oplog && Batches(s.oplog, head, head + 1) == [BatchOf(head, s.oplog[head])]
  {
    assert Batches(s.oplog, head, head) == [];
  }

  lemma {:induction false} AdvanceIsSound(s: SpaceState, s': SpaceState, post: Checksum)
    requires Synced(s, post) && Confirms(s, s', post)
    ensures Synced(s', post) && Progress(s, s')
  {
    NoProgress(s);
    MoreProgress(s, s, s'.cursors.neck - 1, post);
  }

  /** The call carried the records in `[head, last]` under the confirmed checksum. */
  predicate Carried(s: SpaceState, last: nat, call: Call) {
    call.batches == Batches(s.oplog, s.cursors.neck, last + 1) && call.expected == s.checksum
  }

  /** A stall names the neck, whose record was refused on its own. */
  lemma {:induction false} StallIsSound(s: SpaceState, pre: Checksum, head: nat, post: Checksum, call: Call,
                                        through: Option<nat>, run: PushRun)
    requires Local(s) && s.cursors.neck == head < s.cursors.tail && Carried(s, head, call)
    requires post == s.checksum && (post == pre || post == s.checksum + call.batches)
    requires AdmitStep(pre, s.checksum, call.batches, post, call.answer)
    requires Settle(s, head + 1, call.answer).Kept? && run.Stalled? && run.at == head && run.admission.None?
    requires through.Some? ==> head <= through.value
    ensures Reported(s, post, through, run, Some(call))
  {
    SingleBatch(s, head);
  }

  lemma {:induction false} KeptIsReported(s: SpaceState, pre: Checksum, head: nat, last: nat, post: Checksum,
                                          call: Call, through: Option<nat>, acked: Option<nat>, turn: Turn)
    requires Local(s) && s.cursors.neck == head <= last < s.cursors.tail && Carried(s, last, call)
    requires through.Some? ==> last <= through.value
    requires post == s.checksum && (post == pre || post == s.checksum + call.batches)
    requires AdmitStep(pre, s.checksum, call.batches, post, call.answer)
    requires Settle(s, last + 1, call.answer).Kept? && Leads(Kept, head, last, through, acked, None, turn)
    ensures turn.Finished? ==> Reported(s, post, through, turn.run, Some(call))
  {
    if last == head {
      StallIsSound(s, pre, head, post, call, through, turn.run);
    }
  }

  lemma {:induction false} AdvancedIsReported(s: SpaceState, s': SpaceState, head: nat, last: nat, post: Checksum,
                                              call: Call, through: Option<nat>, acked: Option<nat>, turn: Turn)
    requires Confirms(s, s', post) && Leads(Advanced(s'), head, last, through, acked, None, turn)
    requires AdmissionFits(call.answer, head, through, None, turn) && (through.Some? ==> head <= through.value)
    ensures turn.Finished? ==> Reported(s', post, through, turn.run, Some(call))
  {}

  /** An answer has one result for each batch, if it has any. */
  predicate Counted(call: Call) { call.answer.Response? ==> |call.answer.results| == |call.batches| }

  lemma {:induction false} TruthfulIsCounted(call: Call, answers: bool)
    requires Truthful(call, answers)
    ensures Counted(call)
  {
    if Judged(call) {
      JudgedIsAnswered(call);
    }
  }

  /** Only a call that was not answered settles nothing. */
  lemma {:induction false} UnknownIsReported(s: SpaceState, last: nat, post: Checksum, call: Call, through: Option<nat>)
    requires s.cursors.neck <= last < s.cursors.tail && Carried(s, last, call) && Counted(call)
    requires Settle(s, last + 1, call.answer) == Unknown
    ensures Reported(s, post, through, NoAnswer, Some(call))
  {
    assert LostAt(s, last + 1, call);
  }

  /** The store after a call for `[neck, last]` is settled. */
  function Settled(s: SpaceState, last: nat, answer: Answer): SpaceState
    requires s.cursors.neck <= last
  {
    var outcome := Settle(s, last + 1, answer);
    if outcome.Advanced? then outcome.s else s
  }

  lemma {:induction false} SettledStaysSynced(s: SpaceState, pre: Checksum, last: nat, post: Checksum, call: Call)
    requires Synced(s, pre) && s.cursors.neck <= last < s.cursors.tail && Carried(s, last, call)
    requires AdmitStep(pre, s.checksum, call.batches, post, call.answer)
    ensures Synced(Settled(s, last, call.answer), post) && Progress(s, Settled(s, last, call.answer))
  {
    SettleIsSound(s, pre, last + 1, post, call.answer);
    RequestAgrees(s, pre, last + 1, post, call.answer);
    var outcome := Settle(s, last + 1, call.answer);
    if outcome.Advanced? {
      AdvanceIsSound(s, outcome.s, post);
    } else {
      NoProgress(s);
    }
  }

  lemma {:induction false} SettledReportsTruth(s: SpaceState, pre: Checksum, head: nat, last: nat, post: Checksum,
                                               call: Call, through: Option<nat>, acked: Option<nat>, turn: Turn,
                                               outcome: Outcome)
    requires Synced(s, pre) && s.cursors.neck == head <= last < s.cursors.tail
    requires through.Some? ==> last <= through.value
    requires Carried(s, last, call) && Counted(call) && outcome == Settle(s, last + 1, call.answer)
    requires AdmitStep(pre, s.checksum, call.batches, post, call.answer)
    requires Leads(outcome, head, last, through, acked, None, turn)
    requires AdmissionFits(call.answer, head, through, None, turn) && turn.Finished?
    ensures Reported(Settled(s, last, call.answer), post, through, turn.run, Some(call))
  {
    SettleIsSound(s, pre, last + 1, post, call.answer);
    if outcome.Advanced? {
      AdvancedIsReported(s, outcome.s, head, last, post, call, through, acked, turn);
    } else if outcome.Kept? {
      RequestAgrees(s, pre, last + 1, post, call.answer);
      KeptIsReported(s, pre, head, last, post, call, through, acked, turn);
    } else {
      UnknownIsReported(s, last, post, call, through);
    }
  }

  /** What one settled request does to a synced pair, and what it lets the loop report. */
  lemma {:induction false} TurnIsSound(s: SpaceState, pre: Checksum, head: nat, last: nat, post: Checksum, call: Call,
                                       answers: bool, through: Option<nat>, acked: Option<nat>, turn: Turn)
    requires Synced(s, pre) && s.cursors.neck == head <= last < s.cursors.tail
    requires through.Some? ==> last <= through.value
    requires Carried(s, last, call) && Truthful(call, answers)
    requires AdmitStep(pre, s.checksum, call.batches, post, call.answer)
    requires Leads(Settle(s, last + 1, call.answer), head, last, through, acked, None, turn)
    requires AdmissionFits(call.answer, head, through, None, turn)
    ensures var s' := Settled(s, last, call.answer);
      && Synced(s', post) && Progress(s, s')
      && (turn.Finished? ==> Reported(s', post, through, turn.run, Some(call)))
  {
    SettledStaysSynced(s, pre, last, post, call);
    if turn.Finished? {
      TruthfulIsCounted(call, answers);
      SettledReportsTruth(s, pre, head, last, post, call, through, acked, turn, Settle(s, last + 1, call.answer));
    }
  }

  /** The loop's measure: records left to confirm, then whether the next request is already a probe. */
  predicate Closer(before: Cursors, probe: bool, now: Cursors, probe': bool) {
    && now.tail == before.tail
    && (now.neck > before.neck || (now.neck == before.neck && !probe && probe'))
  }

  /** How many more calls the loop can make: two for each record left, one fewer once probing. */
  function CallsLeft(cursors: Cursors, probe: bool): nat {
    if cursors.neck < cursors.tail then 2 * (cursors.tail - cursors.neck) - if probe then 1 else 0 else 0
  }

  /** Calls left after a turn. */
  function CallsAfter(cursors: Cursors, turn: Turn): nat { if turn.Again? then CallsLeft(cursors, turn.probe) else 0 }

  /** A request: consecutive retained records from the first at or after the neck. */
  predicate Chosen(log: map<nat, DeviceOp>, neck: nat, head: nat, last: nat, batches: seq<AdmissionBatch>) {
    && neck <= head <= last && |batches| == last - head + 1
    && batches == Batches(log, neck, last + 1)
    && forall i :: 0 <= i < |batches| ==> batches[i].deviceSeq == head + i
  }

  /** The last number a request may reach: one cap's worth of numbers, the tail, or the target. */
  predicate Reaches(cursors: Cursors, through: Option<nat>, cap: nat, until: nat) {
    && cursors.neck <= until < cursors.tail && until <= cursors.neck + cap - 1
    && (through.Some? ==> until <= through.value)
    && (until == cursors.neck + cap - 1 || until == cursors.tail - 1 || Some(until) == through)
  }

  /** No further record of the window would fit the request. */
  predicate Full(log: map<nat, DeviceOp>, until: nat, last: nat, batches: seq<AdmissionBatch>, cap: nat) {
    last < until && last + 1 in log ==> EntryCount(batches) + |log[last + 1].Entries()| > cap
  }

  lemma {:induction false} CoalescedIsFull(log: map<nat, DeviceOp>, neck: nat, until: nat,
                                           batches: seq<AdmissionBatch>, cap: nat)
    requires var window := RowsIn(log, neck, until + 1);
      && 1 <= |batches| <= |window|
      && (|batches| < |window| ==>
        || window[|batches|].0 != window[|batches| - 1].0 + 1
        || EntryCount(batches) + |window[|batches|].1.Entries()| > cap)
    ensures Full(log, until, RowsIn(log, neck, until + 1)[|batches| - 1].0, batches, cap)
  {
    NextRow(log, neck, until + 1, |batches|);
  }

  method Reach(cursors: Cursors, through: Option<nat>, cap: nat) returns (until: nat)
    requires cap >= 1 && cursors.neck < cursors.tail
    requires through.Some? ==> cursors.neck <= through.value < cursors.tail
    ensures Reaches(cursors, through, cap, until)
  {
    var streamEnd := if through.Some? then Min(through.value, cursors.tail - 1) else cursors.tail - 1;
    until := Min(cursors.neck + cap - 1, streamEnd);
  }

  /** Choose the next request. An empty window is one with no retained record up to `until`. */
  method Choose(store: MetaStore.MetaStore, through: Option<nat>, cap: nat, probe: bool)
    returns (until: nat, head: nat, last: nat, batches: seq<AdmissionBatch>)
    requires cap >= 1 && store.cursors.neck < store.cursors.tail
    requires through.Some? ==> store.cursors.neck <= through.value < store.cursors.tail
    ensures Reaches(store.cursors, through, cap, until)
    ensures batches != [] ==>
            Chosen(store.oplog, store.cursors.neck, head, last, batches) && last <= until && (probe ==> last == head)
    ensures batches != [] && !probe ==> Full(store.oplog, until, last, batches, cap)
    ensures Local(store.State()) ==> batches != [] && head == store.cursors.neck
  {
    var cursors := store.cursors;
    until := Reach(cursors, through, cap);
    head, last, batches := 0, 0, [];
    var window := store.Oplog(cursors.neck, until);
    if Local(store.State()) {
      DenseWindowStarts(store.State(), until);
    }
    if window != [] {
      head := window[0].0;
      batches, last := Coalesce(window, probe, cap);
      CoalescedIsWindow(store.oplog, cursors.neck, until, batches);
      if !probe {
        CoalescedIsFull(store.oplog, cursors.neck, until, batches, cap);
      }
    }
  }

  lemma {:induction false} TargetIsLogged(log: seq<LogBatch>, device: DeviceId, head: nat, batches: seq<AdmissionBatch>,
                                          results: seq<AdmissionResult>, target: nat)
    requires |results| == |batches| && AllApplied(results) && ResultsLogged(log, device, batches, results)
    requires forall i :: 0 <= i < |batches| ==> batches[i].deviceSeq == head + i
    requires head <= target < head + |batches|
    ensures LoggedAt(log, device, results[target - head].admissionSeq, target)
  {
    assert batches[target - head].deviceSeq == target;
  }

  lemma {:induction false} TargetFollows(log: seq<LogBatch>, longer: seq<LogBatch>, device: DeviceId, head: nat,
                                         last: nat, batches: seq<AdmissionBatch>, answer: Answer, through: Option<nat>,
                                         admission: Option<nat>, turn: Turn)
    requires head <= last && |batches| == last - head + 1 && log <= longer
    requires forall i :: 0 <= i < |batches| ==> batches[i].deviceSeq == head + i
    requires TargetLogged(log, device, through, admission)
    requires NumberTaken(answer, head, last, through, admission, turn)
    requires answer.Response? && |answer.results| == |batches| && AllApplied(answer.results) ==>
               ResultsLogged(longer, device, batches, answer.results)
    ensures TargetLogged(longer, device, through, AdmissionOf(turn))
  {
    if AdmissionOf(turn).Some? && AdmissionOf(turn) != admission {
      TargetIsLogged(longer, device, head, batches, answer.results, through.value);
    }
  }

  /** The device's store, its stream and the log on the server, and the calls made so far. */
  datatype Sides = Sides(s: SpaceState, stream: Checksum, log: seq<LogBatch>, calls: seq<Call>)

  ghost function View(store: MetaStore.MetaStore, net: Network): Sides
    reads store, net, net.server
  {
    Sides(store.State(), net.Stream(), net.server.log, net.calls)
  }

  /** One call for the records in `[head, last]` was made, recorded and acted on as `Settle` says. */
  ghost predicate Delivered(w: Sides, w': Sides, device: DeviceId, answers: bool, through: Option<nat>, head: nat,
                            last: nat, acked: Option<nat>, admission: Option<nat>, call: Call, turn: Turn)
  {
    && w.s.cursors.neck <= head <= last < w.s.cursors.tail && Carried(w.s, last, call)
    && w.log <= w'.log && w'.calls == w.calls + [call] && Recorded(call, device, answers, w'.log)
    && AdmitStep(w.stream, w.s.checksum, call.batches, w'.stream, call.answer)
    && AdmissionFits(call.answer, head, through, admission, turn) && ForkNamed(call.answer, turn)
    && var outcome := Settle(w.s, last + 1, call.answer);
      && Leads(outcome, head, last, through, acked, admission, turn)
      && w'.s == if outcome.Advanced? then outcome.s else w.s
  }

  /** Send one request and act on whatever comes back. */
  method Deliver(store: MetaStore.MetaStore, net: Network, through: Option<nat>, head: nat, last: nat,
                 batches: seq<AdmissionBatch>, acked: Option<nat>, admission: Option<nat>)
    returns (turn: Turn, ghost call: Call)
    requires net.server.Valid() && last < store.cursors.tail
             && Chosen(store.oplog, store.cursors.neck, head, last, batches)
    requires TargetLogged(net.server.log, net.device, through, admission)
    modifies store, net.server, net`calls
    ensures net.server.Valid()
    ensures Delivered(old(View(store, net)), View(store, net), net.device, net.answers, through, head, last, acked,
            admission, call, turn)
    ensures TargetLogged(net.server.log, net.device, through, AdmissionOf(turn))
  {
    ghost var log := net.server.log;
    var answer;
    answer, call := net.Admit(store.checksum, batches);
    turn := Act(store, through, head, last, answer, acked, admission);
    TargetFollows(log, net.server.log, net.device, head, last, batches, answer, through, admission, turn);
  }

  lemma {:induction false} OutcomeIsCloser(s: SpaceState, head: nat, last: nat, answer: Answer, probe: bool,
                                           through: Option<nat>, acked: Option<nat>, admission: Option<nat>, turn: Turn)
    requires s.cursors.neck <= head <= last < s.cursors.tail && (probe ==> last == head) && turn.Again?
    requires Leads(Settle(s, last + 1, answer), head, last, through, acked, admission, turn)
    ensures var outcome := Settle(s, last + 1, answer);
      Closer(s.cursors, probe, if outcome.Advanced? then outcome.s.cursors else s.cursors, turn.probe)
  {}

  lemma {:induction false} AckedFollows(outcome: Outcome, neck: nat, head: nat, last: nat, through: Option<nat>,
                                        acked: Option<nat>, admission: Option<nat>, turn: Turn)
    requires neck == head <= last && NotPast(neck, through, acked)
             && Leads(outcome, head, last, through, acked, admission, turn)
    requires outcome.Advanced? ==> neck < outcome.s.cursors.neck
    ensures var neck' := if outcome.Advanced? then outcome.s.cursors.neck else neck;
      && AckedFits(neck, acked, neck', turn)
      && (turn.Again? ==> NotPast(neck', through, turn.acked))
  {}

  lemma {:induction false} AckedIsRight(s: SpaceState, pre: Checksum, head: nat, last: nat, post: Checksum,
                                        answer: Answer, through: Option<nat>, acked: Option<nat>,
                                        admission: Option<nat>, turn: Turn)
    requires Synced(s, pre) && s.cursors.neck == head <= last < s.cursors.tail && NotPast(head, through, acked)
    requires AdmitStep(pre, s.checksum, Batches(s.oplog, head, last + 1), post, answer)
    requires Leads(Settle(s, last + 1, answer), head, last, through, acked, admission, turn)
    ensures var outcome := Settle(s, last + 1, answer); var s' := if outcome.Advanced? then outcome.s else s;
      && AckedFits(head, acked, s'.cursors.neck, turn)
      && (turn.Again? ==> NotPast(s'.cursors.neck, through, turn.acked))
  {
    SettleIsSound(s, pre, last + 1, post, answer);
    AckedFollows(Settle(s, last + 1, answer), s.cursors.neck, head, last, through, acked, admission, turn);
  }

  /** What one pass of the loop does to a synced pair: confirm, acknowledge, and report the truth. */
  ghost predicate TurnOk(s: SpaceState, pre: Checksum, through: Option<nat>, acked: Option<nat>,
                         admission: Option<nat>, s': SpaceState, post: Checksum, turn: Turn, call: Option<Call>)
  {
    Synced(s, pre) && NotPast(s.cursors.neck, through, acked) && admission.None? ==>
      && Synced(s', post) && Progress(s, s')
      && AckedFits(s.cursors.neck, acked, s'.cursors.neck, turn)
      && (turn.Again? ==> NotPast(s'.cursors.neck, through, turn.acked) && turn.admission.None?)
      && (turn.Finished? ==> Reported(s', post, through, turn.run, call))
  }

  lemma {:induction false} TurnIsOk(w: Sides, w': Sides, device: DeviceId, answers: bool, through: Option<nat>,
                                    head: nat, last: nat, acked: Option<nat>, admission: Option<nat>, call: Call,
                                    turn: Turn)
    requires Delivered(w, w', device, answers, through, head, last, acked, admission, call, turn)
    requires (Local(w.s) ==> w.s.cursors.neck == head) && (through.Some? ==> last <= through.value)
    ensures TurnOk(w.s, w.stream, through, acked, admission, w'.s, w'.stream, turn, Some(call))
  {
    if Synced(w.s, w.stream) && NotPast(w.s.cursors.neck, through, acked) && admission.None? {
      TurnIsSound(w.s, w.stream, head, last, w'.stream, call, answers, through, acked, turn);
      AckedIsRight(w.s, w.stream, head, last, w'.stream, call.answer, through, acked, admission, turn);
    }
  }

  /**
   One pass of the loop, or many: the log only grew, every call was recorded, the calls fit the records left,
   the next pass is closer to the end, and a synced pair stays one with a true report.
   */
  ghost predicate Took(w: Sides, w': Sides, device: DeviceId, answers: bool, through: Option<nat>, probe: bool,
                       acked: Option<nat>, admission: Option<nat>, turn: Turn)
  {
    && w.log <= w'.log && Ledger(w.calls, w'.calls, device, answers, w'.log)
    && |w'.calls| + CallsAfter(w'.s.cursors, turn) <= |w.calls| + CallsLeft(w.s.cursors, probe)
    && (turn.Again? ==> w.s.cursors.neck < w.s.cursors.tail && Closer(w.s.cursors, probe, w'.s.cursors, turn.probe))
    && TurnOk(w.s, w.stream, through, acked, admission, w'.s, w'.stream, turn, LastCall(w.calls, w'.calls))
  }

  lemma {:induction false} DeliveredIsTaken(w: Sides, w': Sides, device: DeviceId, answers: bool, through: Option<nat>,
                                            head: nat, last: nat, probe: bool, acked: Option<nat>,
                                            admission: Option<nat>, call: Call, turn: Turn)
    requires Delivered(w, w', device, answers, through, head, last, acked, admission, call, turn)
    requires (Local(w.s) ==> w.s.cursors.neck == head) && (through.Some? ==> last <= through.value)
    requires probe ==> last == head
    ensures Took(w, w', device, answers, through, probe, acked, admission, turn)
  {
    TurnIsOk(w, w', device, answers, through, head, last, acked, admission, call, turn);
    if turn.Again? {
      OutcomeIsCloser(w.s, head, last, call.answer, probe, through, acked, admission, turn);
    }
  }

  /** A window without records is passed over; only a store that is not dense has one. */
  lemma {:induction false} SkippedIsTaken(w: Sides, w': Sides, device: DeviceId, answers: bool, through: Option<nat>,
                                          until: nat, probe: bool, acked: Option<nat>, admission: Option<nat>)
    requires !Local(w.s) && w.s.cursors.neck <= until < w.s.cursors.tail
    requires w' == w.(s := Stored(w.s, TrimOplog(w.s, until, w.s.checksum)))
    ensures Took(w, w', device, answers, through, probe, acked, admission, Again(probe, acked, admission))
  {}

  /** Choose, send and settle one request from the head of a nonempty window. */
  method Exchange(store: MetaStore.MetaStore, net: Network, through: Option<nat>, cap: nat, probe: bool,
                  acked: Option<nat>, admission: Option<nat>)
    returns (turn: Turn)
    requires cap >= 1 && net.server.Valid() && store.cursors.neck < store.cursors.tail
    requires through.Some? ==> store.cursors.neck <= through.value < store.cursors.tail
    requires TargetLogged(net.server.log, net.device, through, admission)
    modifies store, net.server, net`calls
    ensures net.server.Valid()
    ensures Took(old(View(store, net)), View(store, net), net.device, net.answers, through, probe, acked, admission,
            turn)
    ensures TargetLogged(net.server.log, net.device, through, AdmissionOf(turn))
  {
    var until, head, last, batches := Choose(store, through, cap, probe);
    ghost var w := View(store, net);
    if batches == [] {
      var _ := store.Trim(until, store.checksum);
      SkippedIsTaken(w, View(store, net), net.device, net.answers, through, until, probe, acked, admission);
      return Again(probe, acked, admission);
    }
    ghost var call;
    turn, call := Deliver(store, net, through, head, last, batches, acked, admission);
    DeliveredIsTaken(w, View(store, net), net.device, net.answers, through, head, last, probe, acked, admission, call,
                     turn);
  }

  lemma {:induction false} ProgressChains(s0: SpaceState, s1: SpaceState, s2: SpaceState)
    requires Progress(s0, s1) && Progress(s1, s2)
    ensures Progress(s0, s2)
  {
    ProgressStream(s0, s1, s2.cursors.neck);
  }

  lemma {:induction false} EmptyWindowIsSettled(s: SpaceState, stream: Checksum)
    requires Agreed(s, stream) && s.cursors.neck == s.cursors.tail
    ensures stream == s.checksum
  {
    assert Batches(s.oplog, s.cursors.neck, s.cursors.neck) == [];
  }

  lemma {:induction false} AckedChains(neck0: nat, neck1: nat, neck2: nat, first: Turn, second: Turn)
    requires first.Again? && AckedFits(neck0, None, neck1, first) && AckedFits(neck1, first.acked, neck2, second)
    requires neck0 <= neck1 <= neck2
    ensures AckedFits(neck0, None, neck2, second)
  {}

  /** A report on the last call of a turn is one on the last call of the run. */
  lemma {:induction false} ReportCarries(s: SpaceState, stream: Checksum, through: Option<nat>, run: PushRun,
                                         call: Option<Call>, last: Option<Call>)
    requires Reported(s, stream, through, run, call) && (call.Some? ==> last == call)
    ensures Reported(s, stream, through, run, last)
  {}

  /** Two passes in a row are as good as one. */
  lemma {:induction false} TurnsChain(s0: SpaceState, pre: Checksum, through: Option<nat>, s1: SpaceState,
                                      mid: Checksum, first: Turn, call1: Option<Call>, s2: SpaceState, post: Checksum,
                                      second: Turn, call2: Option<Call>, last: Option<Call>)
    requires first.Again? && TurnOk(s0, pre, through, None, None, s1, mid, first, call1)
    requires TurnOk(s1, mid, through, first.acked, first.admission, s2, post, second, call2)
    requires call2.Some? ==> last == call2
    ensures TurnOk(s0, pre, through, None, None, s2, post, second, last)
  {
    if Synced(s0, pre) {
      ProgressChains(s0, s1, s2);
      AckedChains(s0.cursors.neck, s1.cursors.neck, s2.cursors.neck, first, second);
      if second.Finished? {
        ReportCarries(s2, post, through, second.run, call2, last);
      }
    }
  }

  /** A pass that finds its answer in the cursors alone. */
  lemma {:induction false} QuietTurnIsOk(w: Sides, device: DeviceId, answers: bool, through: Option<nat>, probe: bool,
                                         acked: Option<nat>, admission: Option<nat>, turn: Turn)
    requires var c := w.s.cursors;
      turn == if through.Some? && through.value < c.head then Finished(Drained(None, None))
              else if through.Some? && !(c.neck <= through.value < c.tail) then Finished(NotPending(through.value))
              else Finished(Drained(acked, admission))
    requires var c := w.s.cursors;
      c.neck >= c.tail || (through.Some? && (through.value < c.head || !(c.neck <= through.value < c.tail)))
    ensures Took(w, w, device, answers, through, probe, acked, admission, turn)
  {
    if Synced(w.s, w.stream) && NotPast(w.s.cursors.neck, through, acked) {
      NoProgress(w.s);
      if w.s.cursors.neck == w.s.cursors.tail {
        EmptyWindowIsSettled(w.s, w.stream);
      }
    }
  }

  /** One pass of the loop: check the target, then exchange one request. */
  method PushTurn(store: MetaStore.MetaStore, net: Network, through: Option<nat>, cap: nat, probe: bool,
                  acked: Option<nat>, admission: Option<nat>)
    returns (turn: Turn)
    requires cap >= 1 && net.server.Valid()
    requires TargetLogged(net.server.log, net.device, through, admission)
    modifies store, net.server, net`calls
    ensures net.server.Valid()
    ensures Took(old(View(store, net)), View(store, net), net.device, net.answers, through, probe, acked, admission,
            turn)
    ensures TargetLogged(net.server.log, net.device, through, AdmissionOf(turn))
  {
    var cursors := store.cursors;
    if through.Some? {
      if through.value < cursors.head {
        turn := Finished(Drained(None, None));
        QuietTurnIsOk(View(store, net), net.device, net.answers, through, probe, acked, admission, turn);
        return;
      }
      if through.value < cursors.neck || through.value >= cursors.tail {
        turn := Finished(NotPending(through.value));
        QuietTurnIsOk(View(store, net), net.device, net.answers, through, probe, acked, admission, turn);
        return;
      }
    }
    if cursors.neck >= cursors.tail {
      turn := Finished(Drained(acked, admission));
      QuietTurnIsOk(View(store, net), net.device, net.answers, through, probe, acked, admission, turn);
      return;
    }
    turn := Exchange(store, net, through, cap, probe, acked, admission);
  }

  /** A longer log and more recorded calls keep the ledger. */
  lemma {:induction false} LedgerGrows(before: seq<Call>, calls: seq<Call>, more: seq<Call>, device: DeviceId,
                                       answers: bool, log: seq<LogBatch>, longer: seq<LogBatch>)
    requires Ledger(before, calls, device, answers, log) && Ledger(calls, more, device, answers, longer)
    requires log <= longer
    ensures Ledger(before, more, device, answers, longer)
  {
    forall i | |before| <= i < |more| ensures Recorded(more[i], device, answers, longer) {
      assert i < |calls| ==> more[i] == calls[i] && Recorded(calls[i], device, answers, log);
    }
  }

  lemma {:induction false} TookChains(w0: Sides, w1: Sides, w2: Sides, device: DeviceId, answers: bool,
                                      through: Option<nat>, first: Turn, second: Turn)
    requires first.Again? && Took(w0, w1, device, answers, through, false, None, None, first)
    requires Took(w1, w2, device, answers, through, first.probe, first.acked, first.admission, second)
    ensures Took(w0, w2, device, answers, through, false, None, None, second)
  {
    LedgerGrows(w0.calls, w1.calls, w2.calls, device, answers, w1.log, w2.log);
    TurnsChain(w0.s, w0.stream, through, w1.s, w1.stream, first, LastCall(w0.calls, w1.calls), w2.s, w2.stream, second,
               LastCall(w1.calls, w2.calls), LastCall(w0.calls, w2.calls));
  }

  // ----- what a confirmed record left in the server's log ------------------------------------

  /** Row `m` of the log is this device's record `q`, with its assertions, and its operations in order. */
  ghost predicate HeldAt(log: seq<LogBatch>, device: DeviceId, m: nat, q: nat, op: DeviceOp) {
    && m < |log| && log[m].device == device && log[m].deviceSeq == q
    && log[m].checksum != [] && Says(SpaceServer.Submitted(log[m]), q, op)
    && match op
      case Commit(entries, _, _, _) =>
        && |log[m].entries| == |entries|
        && forall i :: 0 <= i < |entries| ==> log[m].entries[i] == AdmittedEntry(entries[i], AdmissionOrder(m + 1, i))
      case Rollback(_) => log[m].entries == []
  }

  /** Every record confirmed between two states of the store is in the log. */
  ghost predicate AllHeld(s: SpaceState, s': SpaceState, log: seq<LogBatch>, device: DeviceId) {
    forall q :: s.cursors.neck <= q < s'.cursors.neck ==> q in s.oplog && Held(log, device, q, s.oplog[q])
  }

  ghost predicate Held(log: seq<LogBatch>, device: DeviceId, q: nat, op: DeviceOp) {
    exists m: nat :: HeldAt(log, device, m, q, op)
  }

  /** Every batch of a device's stream has its own row, whose checksum ends with it. */
  lemma {:induction false} StreamHasRow(log: seq<LogBatch>, device: DeviceId, i: nat) returns (m: nat)
    requires SpaceServer.LogValid(log) && i < |SpaceServer.StreamOf(log, device)|
    ensures m < |log| && log[m].device == device && log[m].checksum == SpaceServer.StreamOf(log, device)[..i + 1]
  {
    var front, last := log[..|log| - 1], log[|log| - 1];
    if last.device == device && i == |last.checksum| - 1 {
      m := |log| - 1;
    } else {
      assert SpaceServer.Link(front, last);
      m := StreamHasRow(front, device, i);
      assert SpaceServer.StreamOf(log, device)[..i + 1] == SpaceServer.StreamOf(front, device)[..i + 1];
    }
  }

  lemma {:induction false} RowHoldsRecord(log: seq<LogBatch>, device: DeviceId, m: nat, q: nat, op: DeviceOp)
    requires SpaceServer.LogValid(log) && m < |log| && log[m].device == device && log[m].checksum != []
    requires SpaceServer.Submitted(log[m]) == BatchOf(q, op)
    ensures HeldAt(log, device, m, q, op)
  {
    BatchSaysRecord(q, op, BatchOf(q, op));
    SpaceServer.LinkAt(log, m);
  }

  lemma {:induction false} ConfirmedIsHeld(s: SpaceState, s': SpaceState, log: seq<LogBatch>, device: DeviceId, q: nat)
    requires SpaceServer.LogValid(log) && Local(s) && Progress(s, s')
    requires s'.checksum <= SpaceServer.StreamOf(log, device)
    requires s.cursors.neck <= q < s'.cursors.neck
    ensures q in s.oplog && Held(log, device, q, s.oplog[q])
  {
    var stream, i := SpaceServer.StreamOf(log, device), |s.checksum| + q - s.cursors.neck;
    BatchesDense(s.oplog, s.cursors.neck, s'.cursors.neck);
    assert s'.checksum[i] == BatchOf(q, s.oplog[q]);
    var m := StreamHasRow(log, device, i);
    assert log[m].checksum[|log[m].checksum| - 1] == stream[i];
    RowHoldsRecord(log, device, m, q, s.oplog[q]);
  }

  lemma {:induction false} ConfirmedAreHeld(w: Sides, w': Sides, device: DeviceId)
    requires SpaceServer.LogValid(w'.log) && w'.stream == SpaceServer.StreamOf(w'.log, device)
    requires Synced(w.s, w.stream) && Synced(w'.s, w'.stream) && Progress(w.s, w'.s)
    ensures AllHeld(w.s, w'.s, w'.log, device)
  {
    forall q | w.s.cursors.neck <= q < w'.s.cursors.neck ensures q in w.s.oplog && Held(w'.log, device, q, w.s.oplog[q])
    {
      ConfirmedIsHeld(w.s, w'.s, w'.log, device, q);
    }
  }

  /** From a synced state, a network that answers every call ends a push with its answer. */
  lemma {:induction false} AnsweredPushEnds(w: Sides, w': Sides, device: DeviceId, through: Option<nat>, run: PushRun)
    requires Synced(w.s, w.stream) && Took(w, w', device, true, through, false, None, None, Finished(run))
    ensures run.Drained? || run.Stalled? || run.NotPending?
  {
    if |w.calls| < |w'.calls| {
      var call := w'.calls[|w'.calls| - 1];
      assert Recorded(call, device, true, w'.log);
      JudgedIsAnswered(call);
    }
  }

  /**
   Push everything, or everything through a target, reconciling lost answers on the way, with at most two
   calls for each record pending at the start.
   */
  method PushSpace(store: MetaStore.MetaStore, net: Network, through: Option<nat>, cap: nat) returns (run: PushRun)
    requires cap >= 1 && net.server.Valid()
    modifies store, net.server, net`calls
    ensures net.server.Valid()
    ensures Took(old(View(store, net)), View(store, net), net.device, net.answers, through, false, None, None,
            Finished(run))
    ensures TargetLogged(net.server.log, net.device, through, AdmissionOf(Finished(run)))
    ensures net.answers && old(Synced(store.State(), net.Stream())) ==> run.Drained? || run.Stalled? || run.NotPending?
    ensures old(Synced(store.State(), net.Stream())) ==>
              AllHeld(old(store.State()), store.State(), net.server.log, net.device)
  {
    ghost var w0 := View(store, net);
    var turn := PushTurn(store, net, through, cap, false, None, None);
    while turn.Again?
      invariant net.server.Valid()
      invariant Took(w0, View(store, net), net.device, net.answers, through, false, None, None, turn)
      invariant TargetLogged(net.server.log, net.device, through, AdmissionOf(turn))
      decreases turn.Again?, store.cursors.tail - store.cursors.neck, turn.Again? && !turn.probe
    {
      ghost var w1, first := View(store, net), turn;
      turn := PushTurn(store, net, through, cap, turn.probe, turn.acked, turn.admission);
      TookChains(w0, w1, View(store, net), net.device, net.answers, through, first, turn);
    }
    run := turn.run;
    if Synced(w0.s, w0.stream) {
      ConfirmedAreHeld(w0, View(store, net), net.device);
      if net.answers {
        AnsweredPushEnds(w0, View(store, net), net.device, through, run);
      }
    }
  }
}
