/**
 Admission of a whole request (server/src/space/data.rs).

 `Judge` says what a request deserves by scanning the full history. The class
 `Server` decides the same from the staged records, and its log is shown to
 be a merge of the device streams: dense admission numbers, and for every
 device exactly the batches its checksum commits to, in sequence.
 */
module SpaceServer {
  import opened Types
  import opened DeviceHeads
  import opened RangeTree
  import opened AdmissionGate
  import opened Admission
  import opened AdmissionRules
  import opened Wire

  // ----- the reference: admission by scanning history ----------------------------

  /** The greatest admission by another device that bears on a prefix. */
  function Foreign(h: seq<AdmittedEntry>, device: DeviceId, prefix: Key): nat {
    Scan(RelevantSeen(h, Prefix(prefix)), Some(device))
  }

  /** The assertions some foreign admission broke, in order. */
  function Failures(h: seq<AdmittedEntry>, device: DeviceId, asserts: seq<RangeAssert>): seq<RangeAssertFailure> {
    if asserts == [] then []
    else
      var a := asserts[|asserts| - 1];
      var actual := Foreign(h, device, a.prefix);
      Failures(h, device, asserts[..|asserts| - 1]) + if actual > a.upto
        then [RangeAssertFailure(a.prefix, a.upto, actual)] else []
  }

  /** Nothing is reported exactly when every assertion holds. */
  lemma {:induction false} NoFailureIffHold(h: seq<AdmittedEntry>, device: DeviceId, asserts: seq<RangeAssert>)
    ensures Failures(h, device, asserts) == [] <==> AssertsHold(h, device, asserts)
  {
    if asserts != [] {
      var front, a := asserts[..|asserts| - 1], asserts[|asserts| - 1];
      NoFailureIffHold(h, device, front);
      ScanBound(h, Prefix(a.prefix), Some(device), a.upto);
      assert AssertHolds(h, device, a) <==> Foreign(h, device, a.prefix) <= a.upto;
      assert forall x :: x in asserts <==> x in front || x == a;
    }
  }

  function Stamp(batch: AdmissionBatch, at: nat, i: nat): AdmittedEntry
    requires i < |batch.entries|
  {
    AdmittedEntry(batch.entries[i], AdmissionOrder(at, i))
  }

  /** Why one operation is refused after history `h`, if it is. */
  ghost function EntryFault(h: seq<AdmittedEntry>, device: DeviceId, deviceSeq: nat,
                            e: DeviceEntry): Option<Rejection> {
    if e.tag.device != device || e.tag.deviceSeq != deviceSeq || e.seal.payload != [] then Some(InvalidSeal)
    else if Outranks(h, e.mutation, e.tag.ver) then None
    else Some(Regression(e.mutation, Floor(h, e.mutation), e.tag.ver))
  }

  function Regression(m: Mutation, floor: Option<nat>, attempted: nat): Rejection {
    var current := if floor.Some? then floor.value else 0;
    match m
    case DeleteRange(r) => RangeVerRegression(r, current, attempted)
    case _ => VerRegression(m.key, current, attempted)
  }

  /** The history after the first `i` operations of a batch, or the first fault. */
  ghost function FoldEntries(h: seq<AdmittedEntry>, device: DeviceId, batch: AdmissionBatch, at: nat,
                             i: nat): Result<seq<AdmittedEntry>, Rejection>
    requires i <= |batch.entries|
  {
    if i == 0 then Ok(h)
    else match FoldEntries(h, device, batch, at, i - 1)
      case Err(r) => Err(r)
      case Ok(g) =>
        match EntryFault(g, device, batch.deviceSeq, batch.entries[i - 1])
        case Some(r) => Err(r)
        case None => Ok(g + [Stamp(batch, at, i - 1)])
  }

  ghost function FoldBatch(h: seq<AdmittedEntry>, device: DeviceId, batch: AdmissionBatch,
                           at: nat): Result<seq<AdmittedEntry>, Rejection> {
    if Failures(h, device, batch.rangeAsserts) != []
      then Err(RangeAssertFailed(Failures(h, device, batch.rangeAsserts)))
    else if |batch.entries| > MAX_U32 then Err(InvalidSeal)
    else FoldEntries(h, device, batch, at, |batch.entries|)
  }

  /** The history after the first `i` batches of a request, numbered from `at`, or the first fault. */
  ghost function FoldBatches(h: seq<AdmittedEntry>, device: DeviceId, batches: seq<AdmissionBatch>, at: nat,
                             i: nat): Result<seq<AdmittedEntry>, Rejection>
    requires i <= |batches|
  {
    if i == 0 then Ok(h)
    else match FoldBatches(h, device, batches, at, i - 1)
      case Err(r) => Err(r)
      case Ok(g) => FoldBatch(g, device, batches[i - 1], at + i - 1)
  }

  function AllAdmitted(at: nat, n: nat): seq<AdmissionResult> { seq(n, i requires 0 <= i < n => Applied(at + i)) }

  function AllFailed(reason: Rejection, n: nat): seq<AdmissionResult> {
    seq(n, i requires 0 <= i < n => Failed(reason))
  }

  /** Whether a request passes both fences, the reservations and every check on its operations. */
  ghost predicate Takes(h: seq<AdmittedEntry>, device: DeviceId, stream: Checksum, expected: Checksum,
                        batches: seq<AdmissionBatch>, contended: Option<Rejection>, at: nat)
  {
    && expected == stream && Sequenced(LastSeq(stream), batches) && contended.None?
    && FoldBatches(h, device, batches, at, |batches|).Ok?
  }

  /** What the server must answer to a request. */
  ghost function Judge(h: seq<AdmittedEntry>, device: DeviceId, stream: Checksum, expected: Checksum,
                       batches: seq<AdmissionBatch>, contended: Option<Rejection>, at: nat): Answer
  {
    if expected != stream then Kernel(DeviceChecksumMismatch(LastSeq(stream), stream))
    else if !Sequenced(LastSeq(stream), batches) then
      Kernel(DeviceSeqRegression(FenceLast(LastSeq(stream), batches), FenceSeq(LastSeq(stream), batches)))
    else if contended.Some? then Kernel(Rejected(contended.value))
    else
      match FoldBatches(h, device, batches, at, |batches|)
      case Ok(_) => Response(stream + batches, AllAdmitted(at, |batches|))
      case Err(r) => Refusal(r, stream, |batches|)
  }

  function Refusal(r: Rejection, stream: Checksum, n: nat): Answer {
    if r.RangeAssertFailed? then Response(stream, AllFailed(r, n)) else Kernel(Rejected(r))
  }

  /** A batch at the head of a request that does not follow what precedes it. */
  predicate OutOfSequence(last: nat, batch: AdmissionBatch, first: bool) {
    batch.deviceSeq <= last || (!first && batch.deviceSeq != last + 1)
  }

  predicate FaultAt(last: nat, batches: seq<AdmissionBatch>, i: nat)
    requires i < |batches|
  {
    OutOfSequence(if i == 0 then last else batches[i - 1].deviceSeq, batches[i], i == 0)
  }

  /** The first out-of-sequence batch, or the number of batches. */
  function FirstFault(last: nat, batches: seq<AdmissionBatch>, i: nat): (k: nat)
    requires i <= |batches|
    ensures i <= k <= |batches|
    ensures forall j :: i <= j < k ==> !FaultAt(last, batches, j)
    ensures k < |batches| ==> FaultAt(last, batches, k)
    decreases |batches| - i
  {
    if i == |batches| || FaultAt(last, batches, i) then i else FirstFault(last, batches, i + 1)
  }

  function FenceLast(last: nat, batches: seq<AdmissionBatch>): nat {
    var k := FirstFault(last, batches, 0);
    if k == 0 then last else batches[k - 1].deviceSeq
  }

  function FenceSeq(last: nat, batches: seq<AdmissionBatch>): nat {
    var k := FirstFault(last, batches, 0);
    if k < |batches| then batches[k].deviceSeq else 0
  }

  lemma {:induction false} SequencedIsNoFault(last: nat, batches: seq<AdmissionBatch>)
    ensures Sequenced(last, batches) <==> FirstFault(last, batches, 0) == |batches|
  {
    var k := FirstFault(last, batches, 0);
    if k == |batches| {
      assert batches != [] ==> !FaultAt(last, batches, 0);
      forall i | 0 < i < |batches| ensures batches[i].deviceSeq == batches[i - 1].deviceSeq + 1 {
        assert !FaultAt(last, batches, i);
      }
    }
  }

  lemma {:induction false} FailedIsNotApplied(n: nat)
    requires n > 0
    ensures forall r :: !AllApplied(AllFailed(r, n))
  {
    forall r ensures !AllApplied(AllFailed(r, n)) {
      assert AllFailed(r, n)[0].Failed?;
    }
  }

  /** The reference verdict honours the exchange contract. */
  lemma {:induction false} JudgeIsAdmitStep(h: seq<AdmittedEntry>, device: DeviceId, stream: Checksum,
                                            expected: Checksum, batches: seq<AdmissionBatch>,
                                            contended: Option<Rejection>, at: nat)
    ensures AdmitStep(stream, expected, batches,
                      if Takes(h, device, stream, expected, batches, contended, at) then stream + batches else stream,
                      Judge(h, device, stream, expected, batches, contended, at))
  {
    if batches != [] {
      FailedIsNotApplied(|batches|);
    }
  }

  /** A response that applies a nonempty request is one that took effect, numbered from `at`. */
  lemma {:induction false} AppliedIsTaken(h: seq<AdmittedEntry>, device: DeviceId, stream: Checksum, expected: Checksum,
                                          batches: seq<AdmissionBatch>, contended: Option<Rejection>, at: nat)
    requires var answer := Judge(h, device, stream, expected, batches, contended, at);
      answer.Response? && AllApplied(answer.results) && batches != []
    ensures Takes(h, device, stream, expected, batches, contended, at)
    ensures Judge(h, device, stream, expected, batches, contended, at).results == AllAdmitted(at, |batches|)
  {
    FailedIsNotApplied(|batches|);
  }

  // ----- the verdict meets the rules ---------------------------------------------------

  /** The newest foreign admission is that of some operation, once it breaks an assertion. */
  lemma {:induction false} ForeignIsSomebody(h: seq<AdmittedEntry>, device: DeviceId, a: RangeAssert)
    ensures AssertHolds(h, device, a) <==> Foreign(h, device, a.prefix) <= a.upto
    ensures !AssertHolds(h, device, a) ==>
              Names(h, device, a, RangeAssertFailure(a.prefix, a.upto, Foreign(h, device, a.prefix)))
  {
    var actual := Foreign(h, device, a.prefix);
    ScanBound(h, Prefix(a.prefix), Some(device), a.upto);
    ScanBound(h, Prefix(a.prefix), Some(device), actual);
    if actual > a.upto {
      ScanBound(h, Prefix(a.prefix), Some(device), actual - 1);
    }
  }

  lemma {:induction false} OneMoreHolds(h: seq<AdmittedEntry>, device: DeviceId, asserts: seq<RangeAssert>,
                                        a: RangeAssert, failures: seq<RangeAssertFailure>, which: seq<nat>)
    requires ListsBroken(h, device, asserts, failures, which) && AssertHolds(h, device, a)
    ensures ListsBroken(h, device, asserts + [a], failures, which)
  {
    forall k | 0 <= k < |which| ensures Names(h, device, (asserts + [a])[which[k]], failures[k]) {
      assert (asserts + [a])[which[k]] == asserts[which[k]];
    }
  }

  lemma {:induction false} OneMoreBroken(h: seq<AdmittedEntry>, device: DeviceId, asserts: seq<RangeAssert>,
                                         a: RangeAssert, failures: seq<RangeAssertFailure>, which: seq<nat>,
                                         f: RangeAssertFailure)
    requires ListsBroken(h, device, asserts, failures, which) && Names(h, device, a, f)
    ensures ListsBroken(h, device, asserts + [a], failures + [f], which + [|asserts|])
  {
    var all, fs, ws := asserts + [a], failures + [f], which + [|asserts|];
    forall k | 0 <= k < |ws| ensures ws[k] < |all| && Names(h, device, all[ws[k]], fs[k]) {
      if k < |which| {
        assert all[ws[k]] == asserts[which[k]] && fs[k] == failures[k];
      }
    }
    forall i | 0 <= i < |all| && !AssertHolds(h, device, all[i]) ensures i in ws {
      if i < |asserts| {
        assert i in which;
      }
    }
  }

  /** What is reported names exactly the broken assertions, in order. */
  lemma {:induction false} FailuresListBroken(h: seq<AdmittedEntry>, device: DeviceId, asserts: seq<RangeAssert>)
      returns (which: seq<nat>)
    ensures ListsBroken(h, device, asserts, Failures(h, device, asserts), which)
  {
    if asserts == [] {
      which := [];
    } else {
      var front, a := asserts[..|asserts| - 1], asserts[|asserts| - 1];
      which := FailuresListBroken(h, device, front);
      ForeignIsSomebody(h, device, a);
      assert asserts == front + [a];
      var actual := Foreign(h, device, a.prefix);
      if actual > a.upto {
        OneMoreBroken(h, device, front, a, Failures(h, device, front), which,
                      RangeAssertFailure(a.prefix, a.upto, actual));
        which := which + [|front|];
      } else {
        OneMoreHolds(h, device, front, a, Failures(h, device, front), which);
      }
    }
  }

  lemma {:induction false} FloorIsHighest(h: seq<AdmittedEntry>, m: Mutation)
    ensures Floor(h, m).Some? ==> exists x :: Highest(h, m, x) && x.Ver() == Floor(h, m).value
    ensures Floor(h, m).None? ==> forall x :: x in h ==> !Affects(x.Mutation(), m)
  {
    if h != [] {
      var g, e := h[..|h| - 1], h[|h| - 1];
      FloorIsHighest(g, m);
      assert forall x :: x in h <==> x in g || x == e;
      if Floor(g, m).Some? {
        var x :| Highest(g, m, x) && x.Ver() == Floor(g, m).value;
        assert (Affects(e.Mutation(), m) && x.Ver() < e.Ver()) || Highest(h, m, x);
      }
      if Affects(e.Mutation(), m) && Floor(h, m) == Some(e.Ver()) {
        assert Highest(h, m, e);
      }
    }
  }

  /** One operation fits or is refused as the rules say. */
  lemma {:induction false} EntryVerdict(h: seq<AdmittedEntry>, device: DeviceId, deviceSeq: nat, e: DeviceEntry)
    ensures EntryFault(h, device, deviceSeq, e).None? <==> EntryFits(h, device, deviceSeq, e)
    ensures EntryFault(h, device, deviceSeq, e).Some? ==>
              EntryRefused(h, device, deviceSeq, e, EntryFault(h, device, deviceSeq, e).value)
  {
    var fault := EntryFault(h, device, deviceSeq, e);
    if Tagged(device, deviceSeq, e) && fault.Some? {
      FloorIsExact(h, e.mutation, e.tag.ver);
      FloorIsHighest(h, e.mutation);
      var x :| Highest(h, e.mutation, x) && x.Ver() == Floor(h, e.mutation).value;
      assert Regressed(h, e, x, fault.value);
    }
  }

  /** The fold of a batch's operations, step by step. */
  lemma {:induction false} EntriesVerdict(h: seq<AdmittedEntry>, device: DeviceId, batch: AdmissionBatch, at: nat,
                                          n: nat)
    requires n <= |batch.entries|
    ensures var g := FoldEntries(h, device, batch, at, n);
      && (g.Ok? ==> g.value == h + Stamps(batch, at)[..n] && forall i :: 0 <= i < n ==> FitsAt(h, device, batch, at, i))
      && (g.Err? ==> exists i: nat :: i < n && RefusedAt(h, device, batch, at, i, g.error))
  {
    if n == 0 {
      assert h + Stamps(batch, at)[..0] == h;
    } else {
      EntriesVerdict(h, device, batch, at, n - 1);
      var g := FoldEntries(h, device, batch, at, n - 1);
      if g.Ok? {
        EntryVerdict(g.value, device, batch.deviceSeq, batch.entries[n - 1]);
        if EntryFault(g.value, device, batch.deviceSeq, batch.entries[n - 1]).None? {
          assert Stamps(batch, at)[..n] == Stamps(batch, at)[..n - 1] + [Stamp(batch, at, n - 1)];
          Associate(h, Stamps(batch, at)[..n - 1], [Stamp(batch, at, n - 1)]);
        } else {
          assert RefusedAt(h, device, batch, at, n - 1,
                           EntryFault(g.value, device, batch.deviceSeq, batch.entries[n - 1]).value);
        }
      }
    }
  }

  lemma {:induction false} TakenBatchFits(h: seq<AdmittedEntry>, device: DeviceId, batch: AdmissionBatch, at: nat,
                                          g: seq<AdmittedEntry>)
    requires FoldBatch(h, device, batch, at) == Ok(g)
    ensures g == h + Stamps(batch, at) && BatchFits(h, device, batch, at)
  {
    NoFailureIffHold(h, device, batch.rangeAsserts);
    EntriesVerdict(h, device, batch, at, |batch.entries|);
    assert Stamps(batch, at)[..|batch.entries|] == Stamps(batch, at);
  }

  lemma {:induction false} DroppedBatchIsRefused(h: seq<AdmittedEntry>, device: DeviceId, batch: AdmissionBatch,
                                                 at: nat, r: Rejection)
    requires FoldBatch(h, device, batch, at) == Err(r)
    ensures BatchRefused(h, device, batch, at, r)
  {
    NoFailureIffHold(h, device, batch.rangeAsserts);
    if AssertsHold(h, device, batch.rangeAsserts) {
      EntriesVerdict(h, device, batch, at, |batch.entries|);
    } else {
      var _ := FailuresListBroken(h, device, batch.rangeAsserts);
    }
  }

  lemma {:induction false} FoldBatchesStep(h: seq<AdmittedEntry>, device: DeviceId, batches: seq<AdmissionBatch>,
                                           at: nat, i: nat, g: seq<AdmittedEntry>)
    requires i < |batches| && FoldBatches(h, device, batches, at, i) == Ok(g)
    ensures FoldBatches(h, device, batches, at, i + 1) == FoldBatch(g, device, batches[i], at + i)
    ensures HistoryAfter(h, batches, at, i + 1) == HistoryAfter(h, batches, at, i) + Stamps(batches[i], at + i)
  {}

  /** The batches folded so far fit, and the history is the one they leave. */
  ghost predicate FittingTo(h: seq<AdmittedEntry>, device: DeviceId, batches: seq<AdmissionBatch>, at: nat, n: nat)
    requires n <= |batches|
  {
    forall j :: 0 <= j < n ==> BatchFitsAt(h, device, batches, at, j)
  }

  lemma {:induction false} NextFits(h: seq<AdmittedEntry>, device: DeviceId, batches: seq<AdmissionBatch>, at: nat,
                                    n: nat, g: seq<AdmittedEntry>)
    requires n < |batches| && FoldBatches(h, device, batches, at, n) == Ok(HistoryAfter(h, batches, at, n))
    requires FoldBatches(h, device, batches, at, n + 1) == Ok(g)
    ensures g == HistoryAfter(h, batches, at, n + 1) && BatchFitsAt(h, device, batches, at, n)
  {
    FoldBatchesStep(h, device, batches, at, n, HistoryAfter(h, batches, at, n));
    TakenBatchFits(HistoryAfter(h, batches, at, n), device, batches[n], at + n, g);
  }

  lemma {:induction false} NextIsRefused(h: seq<AdmittedEntry>, device: DeviceId, batches: seq<AdmissionBatch>, at: nat,
                                         n: nat, r: Rejection)
    requires n < |batches| && FoldBatches(h, device, batches, at, n) == Ok(HistoryAfter(h, batches, at, n))
    requires FoldBatches(h, device, batches, at, n + 1) == Err(r) && FittingTo(h, device, batches, at, n)
    ensures RequestRefusedAt(h, device, batches, at, n, r)
  {
    FoldBatchesStep(h, device, batches, at, n, HistoryAfter(h, batches, at, n));
    DroppedBatchIsRefused(HistoryAfter(h, batches, at, n), device, batches[n], at + n, r);
  }

  lemma {:induction false} BatchesFit(h: seq<AdmittedEntry>, device: DeviceId, batches: seq<AdmissionBatch>, at: nat,
                                      n: nat)
    requires n <= |batches| && FoldBatches(h, device, batches, at, n).Ok?
    ensures FoldBatches(h, device, batches, at, n) == Ok(HistoryAfter(h, batches, at, n))
    ensures FittingTo(h, device, batches, at, n)
  {
    if n > 0 {
      BatchesFit(h, device, batches, at, n - 1);
      NextFits(h, device, batches, at, n - 1, FoldBatches(h, device, batches, at, n).value);
    }
  }

  lemma {:induction false} BatchesRefused(h: seq<AdmittedEntry>, device: DeviceId, batches: seq<AdmissionBatch>,
                                          at: nat, n: nat, r: Rejection)
      returns (j: nat)
    requires n <= |batches| && FoldBatches(h, device, batches, at, n) == Err(r)
    ensures RequestRefusedAt(h, device, batches, at, j, r)
  {
    if FoldBatches(h, device, batches, at, n - 1).Err? {
      BatchesStuck(h, device, batches, at, n - 1, n);
      j := BatchesRefused(h, device, batches, at, n - 1, r);
    } else {
      j := n - 1;
      BatchesFit(h, device, batches, at, n - 1);
      NextIsRefused(h, device, batches, at, n - 1, r);
    }
  }

  /** A refused batch does not fit, so a request is refused exactly when some batch does not fit. */
  lemma {:induction false} RefusedIsUnfit(h: seq<AdmittedEntry>, device: DeviceId, batch: AdmissionBatch, at: nat,
                                          r: Rejection)
    requires BatchRefused(h, device, batch, at, r)
    ensures !BatchFits(h, device, batch, at)
  {
    if AssertsHold(h, device, batch.rangeAsserts) && |batch.entries| <= MAX_U32 {
      var i: nat :| RefusedAt(h, device, batch, at, i, r);
      var g, e := h + Stamps(batch, at)[..i], batch.entries[i];
      if Tagged(device, batch.deviceSeq, e) {
        var x :| Regressed(g, e, x, r);
        assert !Outranks(g, e.mutation, e.tag.ver);
      }
      assert !FitsAt(h, device, batch, at, i);
    }
  }

  lemma {:induction false} RequestVerdict(h: seq<AdmittedEntry>, device: DeviceId, batches: seq<AdmissionBatch>,
                                          at: nat)
    ensures var g := FoldBatches(h, device, batches, at, |batches|);
      && (g.Ok? <==> RequestFits(h, device, batches, at))
      && (g.Ok? ==> g.value == HistoryAfter(h, batches, at, |batches|))
      && (g.Err? ==> exists j: nat :: RequestRefusedAt(h, device, batches, at, j, g.error))
  {
    var g := FoldBatches(h, device, batches, at, |batches|);
    if g.Ok? {
      BatchesFit(h, device, batches, at, |batches|);
    } else {
      var j := BatchesRefused(h, device, batches, at, |batches|, g.error);
      RefusedIsUnfit(HistoryAfter(h, batches, at, j), device, batches[j], at + j, g.error);
      assert !BatchFitsAt(h, device, batches, at, j);
    }
  }

  // ----- the log --------------------------------------------------------------------

  /** Every operation of the log in admission order. */
  function Entries(log: seq<LogBatch>): seq<AdmittedEntry> {
    if log == [] then [] else Entries(log[..|log| - 1]) + log[|log| - 1].entries
  }

  /** What the newest checksum of a device commits to. */
  function StreamOf(log: seq<LogBatch>, device: DeviceId): Checksum {
    if log == [] then EMPTY_CHECKSUM
    else if log[|log| - 1].device == device then log[|log| - 1].checksum
    else StreamOf(log[..|log| - 1], device)
  }

  /**
   A stored batch is the admitted form of the submitted one: same operations, in order, under its own
   device and sequence.
   */
  predicate AdmittedForm(b: LogBatch, batch: AdmissionBatch) {
    && b.deviceSeq == batch.deviceSeq
    && |b.entries| == |batch.entries| <= MAX_U32
    && forall j :: 0 <= j < |b.entries| ==>
                     && b.entries[j] == Stamp(batch, b.admissionSeq, j)
                     && b.entries[j].deviceEntry.tag.device == b.device
                     && b.entries[j].deviceEntry.tag.deviceSeq == b.deviceSeq
  }

  /** One link of the log: it takes the next number and extends its own device's stream by one later batch. */
  predicate Link(log: seq<LogBatch>, b: LogBatch) {
    && b.admissionSeq == |log| + 1
    && b.checksum != []
    && b.checksum[..|b.checksum| - 1] == StreamOf(log, b.device)
    && LastSeq(StreamOf(log, b.device)) < b.deviceSeq
    && AdmittedForm(b, b.checksum[|b.checksum| - 1])
  }

  predicate LogValid(log: seq<LogBatch>) {
    log == [] || (LogValid(log[..|log| - 1]) && Link(log[..|log| - 1], log[|log| - 1]))
  }

  /** Every batch of the log is a link on what precedes it. */
  lemma {:induction false} LinkAt(log: seq<LogBatch>, i: nat)
    requires LogValid(log) && i < |log|
    ensures Link(log[..i], log[i])
  {
    if i < |log| - 1 {
      LinkAt(log[..|log| - 1], i);
      assert log[..|log| - 1][..i] == log[..i];
    }
  }

  /** Operations are dated within the numbers already given out. */
  lemma {:induction false} EntriesDated(log: seq<LogBatch>)
    requires LogValid(log)
    ensures forall x :: x in Entries(log) ==> 1 <= x.order.admissionSeq <= |log|
  {
    if log != [] {
      EntriesDated(log[..|log| - 1]);
    }
  }

  /** The batches one device has in the log. */
  function Project(log: seq<LogBatch>, device: DeviceId): seq<LogBatch> {
    if log == [] then []
    else Project(log[..|log| - 1], device) + if log[|log| - 1].device == device then [log[|log| - 1]] else []
  }

  /** The stored batches are the admitted forms of an ascending stream, one by one. */
  ghost predicate Realizes(stored: seq<LogBatch>, stream: Checksum) {
    && |stored| == |stream| && Ascending(stream)
    && forall i :: 0 <= i < |stored| ==> AdmittedForm(stored[i], stream[i])
  }

  lemma {:induction false} StreamGrows(stored: seq<LogBatch>, stream: Checksum, b: LogBatch)
    requires Realizes(stored, stream) && b.checksum != [] && b.checksum[..|b.checksum| - 1] == stream
    requires LastSeq(stream) < b.deviceSeq && AdmittedForm(b, b.checksum[|b.checksum| - 1])
    ensures Realizes(stored + [b], b.checksum)
  {
    var newest := b.checksum[|b.checksum| - 1];
    assert b.checksum == stream + [newest];
  }

  /** For every device, the log holds exactly the batches its checksum commits to, in order and in sequence. */
  lemma {:induction false} LogIsMergeOfStreams(log: seq<LogBatch>, device: DeviceId)
    requires LogValid(log)
    ensures Realizes(Project(log, device), StreamOf(log, device))
  {
    if log != [] {
      var front, last := log[..|log| - 1], log[|log| - 1];
      LogIsMergeOfStreams(front, device);
      if last.device == device {
        assert Link(front, last);
        StreamGrows(Project(front, device), StreamOf(front, device), last);
      }
    }
  }

  // ----- the staged fold ---------------------------------------------------------

  ghost predicate Before(h: seq<AdmittedEntry>, o: AdmissionOrder) { forall x :: x in h ==> x.order.Less(o) }

  lemma {:induction false} OrderedAppend(h: seq<AdmittedEntry>, e: AdmittedEntry)
    requires Ordered(h) && Before(h, e.order) && e.order.admissionSeq >= 1
    ensures Ordered(h + [e])
  {
    var g := h + [e];
    forall i | 0 <= i < |h| ensures g[i].order.Less(e.order) {
      assert g[i] in h;
    }
  }

  ghost predicate OwnedBy(events: seq<AdmittedEntry>, device: DeviceId) {
    forall x :: x in events ==> x.Device() == device
  }

  lemma {:induction false} EntriesStuck(h: seq<AdmittedEntry>, device: DeviceId, batch: AdmissionBatch, at: nat, i: nat,
                                        n: nat)
    requires i <= n <= |batch.entries| && FoldEntries(h, device, batch, at, i).Err?
    ensures FoldEntries(h, device, batch, at, n) == FoldEntries(h, device, batch, at, i)
  {
    if i < n {
      EntriesStuck(h, device, batch, at, i, n - 1);
    }
  }

  lemma {:induction false} BatchesStuck(h: seq<AdmittedEntry>, device: DeviceId, batches: seq<AdmissionBatch>, at: nat,
                                        i: nat, n: nat)
    requires i <= n <= |batches| && FoldBatches(h, device, batches, at, i).Err?
    ensures FoldBatches(h, device, batches, at, n) == FoldBatches(h, device, batches, at, i)
  {
    if i < n {
      BatchesStuck(h, device, batches, at, i, n - 1);
    }
  }

  lemma {:induction false} RelevantConcat(a: seq<AdmittedEntry>, b: seq<AdmittedEntry>, query: Range)
    ensures RelevantSeen(a + b, query) == RelevantSeen(a, query) + RelevantSeen(b, query)
  {
    if b == [] {
      assert a + b == a;
    } else {
      RelevantConcat(a, b[..|b| - 1], query);
      assert (a + b)[..|a + b| - 1] == a + b[..|b| - 1];
    }
  }

  lemma {:induction false} OwnScansToNothing(events: seq<AdmittedEntry>, device: DeviceId, query: Range)
    requires OwnedBy(events, device)
    ensures Scan(RelevantSeen(events, query), Some(device)) == 0
  {
    if events != [] {
      var front, last := events[..|events| - 1], events[|events| - 1];
      assert events == front + [last] && last in events;
      OwnScansToNothing(front, device, query);
      RelevantScanStep(front, last, query, Some(device));
    }
  }

  lemma {:induction false} OwnIsNotForeign(before: seq<AdmittedEntry>, events: seq<AdmittedEntry>, device: DeviceId,
                                           query: Range)
    requires OwnedBy(events, device)
    ensures Scan(RelevantSeen(before + events, query), Some(device)) == Scan(RelevantSeen(before, query), Some(device))
  {
    RelevantConcat(before, events, query);
    ScanConcat(RelevantSeen(before, query), RelevantSeen(events, query), Some(device));
    OwnScansToNothing(events, device, query);
  }

  /** The request's own operations never break its own assertions, so the stored records decide them. */
  lemma {:induction false} FailuresIgnoreOwn(before: seq<AdmittedEntry>, events: seq<AdmittedEntry>, device: DeviceId,
                                             asserts: seq<RangeAssert>)
    requires OwnedBy(events, device)
    ensures Failures(before + events, device, asserts) == Failures(before, device, asserts)
  {
    if asserts != [] {
      FailuresIgnoreOwn(before, events, device, asserts[..|asserts| - 1]);
      OwnIsNotForeign(before, events, device, Prefix(asserts[|asserts| - 1].prefix));
    }
  }

  /** Check and fold one operation. */
  method StageOperation(stage: StagedAdmission, device: DeviceId, deviceSeq: nat, e: AdmittedEntry)
    returns (fault: Option<Rejection>)
    requires stage.Valid() && Before(stage.History(), e.order) && e.order.admissionSeq >= 1
    requires OwnedBy(stage.stagedEvents, device)
    modifies stage
    ensures stage.Valid() && OwnedBy(stage.stagedEvents, device)
    ensures fault == EntryFault(old(stage.History()), device, deviceSeq, e.deviceEntry)
    ensures stage.History() == if fault.None? then old(stage.History()) + [e] else old(stage.History())
  {
    if e.deviceEntry.tag.device != device || e.deviceEntry.tag.deviceSeq != deviceSeq {
      return Some(InvalidSeal);
    }
    if e.deviceEntry.seal.payload != [] {
      return Some(InvalidSeal);
    }
    OrderedAppend(stage.History(), e);
    Associate(stage.before, stage.stagedEvents, [e]);
    var ok, floor := stage.StageEntry(e);
    if !ok {
      return Some(Regression(e.Mutation(), floor, e.Ver()));
    }
    return None;
  }

  /** `g` is `h` followed by the first `i` operations of the batch, all of them sound. */
  ghost predicate Staged(h: seq<AdmittedEntry>, device: DeviceId, batch: AdmissionBatch, at: nat, i: nat,
                         g: seq<AdmittedEntry>, entries: seq<AdmittedEntry>) {
    && i == |entries| <= |batch.entries|
    && FoldEntries(h, device, batch, at, i) == Ok(g)
    && g == h + entries && Before(g, AdmissionOrder(at, i))
    && forall j :: 0 <= j < i ==>
      && entries[j] == Stamp(batch, at, j)
      && batch.entries[j].tag.device == device && batch.entries[j].tag.deviceSeq == batch.deviceSeq
  }

  lemma {:induction false} StagedStep(h: seq<AdmittedEntry>, device: DeviceId, batch: AdmissionBatch, at: nat, i: nat,
                                      g: seq<AdmittedEntry>, entries: seq<AdmittedEntry>)
    requires i < |batch.entries| && Staged(h, device, batch, at, i, g, entries)
    requires EntryFault(g, device, batch.deviceSeq, batch.entries[i]).None?
    ensures Staged(h, device, batch, at, i + 1, g + [Stamp(batch, at, i)], entries + [Stamp(batch, at, i)])
  {
    Associate(h, entries, [Stamp(batch, at, i)]);
    var g' := g + [Stamp(batch, at, i)];
    assert forall x :: x in g' ==> x in g || x == Stamp(batch, at, i);
  }

  lemma {:induction false} StagedFault(h: seq<AdmittedEntry>, device: DeviceId, batch: AdmissionBatch, at: nat, i: nat,
                                       g: seq<AdmittedEntry>, entries: seq<AdmittedEntry>)
    requires i < |batch.entries| && Staged(h, device, batch, at, i, g, entries)
    requires EntryFault(g, device, batch.deviceSeq, batch.entries[i]).Some?
    ensures FoldEntries(h, device, batch, at, |batch.entries|) ==
            Err(EntryFault(g, device, batch.deviceSeq, batch.entries[i]).value)
  {
    EntriesStuck(h, device, batch, at, i + 1, |batch.entries|);
  }

  /** Check and fold operation `i` of a batch. */
  method StageNext(stage: StagedAdmission, device: DeviceId, batch: AdmissionBatch, at: nat, i: nat,
                   ghost h: seq<AdmittedEntry>, entries: seq<AdmittedEntry>) returns (fault: Option<Rejection>)
    requires stage.Valid() && OwnedBy(stage.stagedEvents, device)
    requires at >= 1 && i < |batch.entries| && Staged(h, device, batch, at, i, stage.History(), entries)
    modifies stage
    ensures stage.Valid() && OwnedBy(stage.stagedEvents, device)
    ensures fault.Some? ==> FoldEntries(h, device, batch, at, |batch.entries|) == Err(fault.value)
    ensures fault.None? ==> Staged(h, device, batch, at, i + 1, stage.History(), entries + [Stamp(batch, at, i)])
  {
    ghost var g := stage.History();
    fault := StageOperation(stage, device, batch.deviceSeq, Stamp(batch, at, i));
    if fault.Some? {
      StagedFault(h, device, batch, at, i, g, entries);
    } else {
      StagedStep(h, device, batch, at, i, g, entries);
    }
  }

  /** Check and fold the operations of one batch. */
  method StageBatch(stage: StagedAdmission, device: DeviceId, batch: AdmissionBatch, at: nat)
    returns (fault: Option<Rejection>, entries: seq<AdmittedEntry>)
    requires stage.Valid() && at >= 1 && Before(stage.History(), AdmissionOrder(at, 0))
             && OwnedBy(stage.stagedEvents, device)
    modifies stage
    ensures stage.Valid() && OwnedBy(stage.stagedEvents, device)
    ensures fault.Some? ==> FoldEntries(old(stage.History()), device, batch, at, |batch.entries|) == Err(fault.value)
    ensures fault.None? ==> Staged(old(stage.History()), device, batch, at, |batch.entries|, stage.History(), entries)
  {
    entries, fault := [], None;
    ghost var h := stage.History();
    assert h + [] == h;
    var i := 0;
    while i < |batch.entries| && fault.None?
      invariant 0 <= i <= |batch.entries|
      invariant stage.Valid() && OwnedBy(stage.stagedEvents, device)
      invariant fault.None? ==> Staged(h, device, batch, at, i, stage.History(), entries)
      invariant fault.Some? ==> FoldEntries(h, device, batch, at, |batch.entries|) == Err(fault.value)
    {
      fault := StageNext(stage, device, batch, at, i, h, entries);
      entries := entries + [Stamp(batch, at, i)];
      i := i + 1;
    }
  }

  /** The failing assertions, read from the stored aggregates on their paths. */
  method RangeAssertFailures(stage: StagedAdmission, device: DeviceId, asserts: seq<RangeAssert>)
    returns (failures: seq<RangeAssertFailure>)
    requires stage.base == Materialize(stage.before) && OwnedBy(stage.stagedEvents, device)
    ensures failures == Failures(stage.History(), device, asserts)
  {
    failures := [];
    for i := 0 to |asserts|
      invariant failures == Failures(stage.before, device, asserts[..i])
    {
      var a := asserts[i];
      var heads, _ := stage.EffectiveHistory(Prefix(a.prefix));
      EffectiveHeadsAreExact(stage.before, Prefix(a.prefix), Some(device));
      var actual := heads.MaxExcluding(device);
      assert asserts[..i + 1][..i] == asserts[..i];
      if actual > a.upto {
        failures := failures + [RangeAssertFailure(a.prefix, a.upto, actual)];
      }
    }
    assert asserts[..|asserts|] == asserts;
    FailuresIgnoreOwn(stage.before, stage.stagedEvents, device, asserts);
  }

  /** The stream fence: the request's batches follow the device's stream. */
  method Fence(last: nat, batches: seq<AdmissionBatch>) returns (error: Option<KernelError>)
    ensures error.None? <==> Sequenced(last, batches)
    ensures error.Some? ==> error.value == DeviceSeqRegression(FenceLast(last, batches), FenceSeq(last, batches))
  {
    SequencedIsNoFault(last, batches);
    var current, first := last, true;
    var i := 0;
    while i < |batches|
      invariant 0 <= i <= |batches| && (first <==> i == 0)
      invariant current == if i == 0 then last else batches[i - 1].deviceSeq
      invariant i <= FirstFault(last, batches, 0)
    {
      if batches[i].deviceSeq <= current {
        assert FaultAt(last, batches, i);
        return Some(DeviceSeqRegression(current, batches[i].deviceSeq));
      }
      if !first && batches[i].deviceSeq != current + 1 {
        assert FaultAt(last, batches, i);
        return Some(DeviceSeqRegression(current, batches[i].deviceSeq));
      }
      assert !FaultAt(last, batches, i);
      first, current := false, batches[i].deviceSeq;
      i := i + 1;
    }
    return None;
  }

  // ----- the server ---------------------------------------------------------------

  datatype DeviceRecord = DeviceRecord(lastSeq: nat, checksum: Checksum)

  const NEW_DEVICE := DeviceRecord(0, EMPTY_CHECKSUM)

  /** The log a request is building: numbered from `at`, its first `i` batches linked on. */
  ghost predicate Extends(log: seq<LogBatch>, now: seq<LogBatch>, device: DeviceId, batches: seq<AdmissionBatch>,
                          i: nat) {
    && i <= |batches| && |now| == |log| + i && log <= now && LogValid(now)
    && StreamOf(now, device) == StreamOf(log, device) + batches[..i]
    && (forall j :: 0 <= j < i ==> PlacedAt(log, now, device, batches, j))
    && Elsewhere(log, now, device)
  }

  /** The log row of batch `j` of a request. */
  predicate Placed(b: LogBatch, device: DeviceId, stream: Checksum, batches: seq<AdmissionBatch>, j: nat)
    requires j < |batches|
  {
    b.device == device && b.deviceSeq == batches[j].deviceSeq && b.checksum == stream + batches[..j + 1]
  }

  predicate PlacedAt(log: seq<LogBatch>, now: seq<LogBatch>, device: DeviceId, batches: seq<AdmissionBatch>, j: nat) {
    j < |batches| && |log| + j < |now| && Placed(now[|log| + j], device, StreamOf(log, device), batches, j)
  }

  /** The streams of all other devices are the same in both logs. */
  ghost predicate Elsewhere(log: seq<LogBatch>, now: seq<LogBatch>, device: DeviceId) {
    forall d :: d != device ==> StreamOf(now, d) == StreamOf(log, d)
  }

  lemma {:induction false} NextFollows(stream: Checksum, batches: seq<AdmissionBatch>, i: nat)
    requires i < |batches| && Sequenced(LastSeq(stream), batches)
    ensures LastSeq(stream + batches[..i]) < batches[i].deviceSeq
  {
    if i > 0 {
      assert (stream + batches[..i])[|stream| + i - 1] == batches[i - 1];
    } else {
      assert stream + batches[..0] == stream;
    }
  }

  lemma {:induction false} LinkNext(stream: Checksum, now: seq<LogBatch>, batches: seq<AdmissionBatch>, i: nat,
                                    b: LogBatch)
    requires i < |batches| && StreamOf(now, b.device) == stream + batches[..i] && Sequenced(LastSeq(stream), batches)
    requires b.admissionSeq == |now| + 1 && b.checksum == StreamOf(now, b.device) + [batches[i]]
    requires AdmittedForm(b, batches[i])
    ensures Link(now, b) && b.checksum == stream + batches[..i + 1]
  {
    NextFollows(stream, batches, i);
    assert b.checksum[..|b.checksum| - 1] == StreamOf(now, b.device);
    assert stream + batches[..i + 1] == (stream + batches[..i]) + [batches[i]];
  }

  lemma {:induction false} ElsewhereStep(log: seq<LogBatch>, now: seq<LogBatch>, b: LogBatch)
    requires Elsewhere(log, now, b.device)
    ensures Elsewhere(log, now + [b], b.device)
  {
    assert (now + [b])[..|now|] == now;
  }

  lemma {:induction false} ExtendsStep(log: seq<LogBatch>, now: seq<LogBatch>, device: DeviceId,
                                       batches: seq<AdmissionBatch>, i: nat, b: LogBatch)
    requires i < |batches| && Extends(log, now, device, batches, i) && Link(now, b)
    requires Placed(b, device, StreamOf(log, device), batches, i)
    ensures Extends(log, now + [b], device, batches, i + 1) && StreamOf(now + [b], device) == b.checksum
    ensures Entries(now + [b]) == Entries(now) + b.entries
  {
    var next := now + [b];
    assert next[..|now|] == now;
    assert Elsewhere(log, next, device) by {
      ElsewhereStep(log, now, b);
    }
    forall j | 0 <= j < i + 1 ensures PlacedAt(log, next, device, batches, j) {
      assert j < i ==> PlacedAt(log, now, device, batches, j) && next[|log| + j] == now[|log| + j];
    }
  }

  /** After `i` batches the log under construction carries exactly the folded history. */
  ghost predicate Folding(log: seq<LogBatch>, now: seq<LogBatch>, device: DeviceId, batches: seq<AdmissionBatch>,
                          i: nat, g: seq<AdmittedEntry>) {
    && Extends(log, now, device, batches, i)
    && FoldBatches(Entries(log), device, batches, |log| + 1, i) == Ok(g)
    && Entries(now) == g && Before(g, AdmissionOrder(|now| + 1, 0))
  }

  lemma {:induction false} FoldingStarts(log: seq<LogBatch>, device: DeviceId, batches: seq<AdmissionBatch>)
    requires LogValid(log)
    ensures Folding(log, log, device, batches, 0, Entries(log))
  {
    EntriesDated(log);
    assert StreamOf(log, device) + batches[..0] == StreamOf(log, device);
  }

  lemma {:induction false} StagedForm(g: seq<AdmittedEntry>, g': seq<AdmittedEntry>, b: LogBatch, batch: AdmissionBatch)
    requires Staged(g, b.device, batch, b.admissionSeq, |batch.entries|, g', b.entries)
    requires |batch.entries| <= MAX_U32 && b.deviceSeq == batch.deviceSeq
    ensures AdmittedForm(b, batch) && g' == g + b.entries && Before(g', AdmissionOrder(b.admissionSeq + 1, 0))
  {}

  lemma {:induction false} FoldingStep(log: seq<LogBatch>, now: seq<LogBatch>, device: DeviceId,
                                       batches: seq<AdmissionBatch>, i: nat, g: seq<AdmittedEntry>,
                                       g': seq<AdmittedEntry>, b: LogBatch)
    requires i < |batches| && Folding(log, now, device, batches, i, g)
    requires Sequenced(LastSeq(StreamOf(log, device)), batches)
    requires b.admissionSeq == |now| + 1 && b.device == device && b.deviceSeq == batches[i].deviceSeq
    requires b.checksum == StreamOf(now, device) + [batches[i]]
    requires FoldBatch(g, device, batches[i], |now| + 1) == Ok(g')
    requires Staged(g, device, batches[i], |now| + 1, |batches[i].entries|, g', b.entries)
    ensures Folding(log, now + [b], device, batches, i + 1, g') && StreamOf(now + [b], device) == b.checksum
  {
    StagedForm(g, g', b, batches[i]);
    LinkNext(StreamOf(log, device), now, batches, i, b);
    ExtendsStep(log, now, device, batches, i, b);
    FoldBatchesStep(Entries(log), device, batches, |log| + 1, i, g);
  }

  lemma {:induction false} FoldingFault(log: seq<LogBatch>, now: seq<LogBatch>, device: DeviceId,
                                        batches: seq<AdmissionBatch>, i: nat, g: seq<AdmittedEntry>, r: Rejection)
    requires i < |batches| && Folding(log, now, device, batches, i, g)
    requires FoldBatch(g, device, batches[i], |now| + 1) == Err(r)
    ensures FoldBatches(Entries(log), device, batches, |log| + 1, |batches|) == Err(r)
  {
    BatchesStuck(Entries(log), device, batches, |log| + 1, i + 1, |batches|);
  }

  /** Assertions, operation count and operations of one batch. */
  method FoldOne(stage: StagedAdmission, device: DeviceId, batch: AdmissionBatch, at: nat)
    returns (fault: Option<Rejection>, entries: seq<AdmittedEntry>)
    requires stage.Valid() && at >= 1 && Before(stage.History(), AdmissionOrder(at, 0))
             && OwnedBy(stage.stagedEvents, device)
    modifies stage
    ensures stage.Valid() && OwnedBy(stage.stagedEvents, device)
    ensures fault.Some? ==> FoldBatch(old(stage.History()), device, batch, at) == Err(fault.value)
    ensures fault.None? ==> FoldBatch(old(stage.History()), device, batch, at) == Ok(stage.History())
    ensures fault.None? ==> Staged(old(stage.History()), device, batch, at, |batch.entries|, stage.History(), entries)
  {
    var failures := RangeAssertFailures(stage, device, batch.rangeAsserts);
    if failures != [] {
      return Some(RangeAssertFailed(failures)), [];
    }
    if |batch.entries| > MAX_U32 {
      return Some(InvalidSeal), [];
    }
    fault, entries := StageBatch(stage, device, batch, at);
  }

  /** Fold batch `i` of a request and link it onto the log under construction. */
  method FoldNext(stage: StagedAdmission, ghost log: seq<LogBatch>, device: DeviceId, batches: seq<AdmissionBatch>,
                  i: nat, now: seq<LogBatch>, checksum: Checksum)
    returns (fault: Option<Rejection>, b: LogBatch)
    requires stage.Valid() && OwnedBy(stage.stagedEvents, device)
    requires i < |batches| && Folding(log, now, device, batches, i, stage.History())
    requires checksum == StreamOf(now, device) && Sequenced(LastSeq(StreamOf(log, device)), batches)
    modifies stage
    ensures stage.Valid() && OwnedBy(stage.stagedEvents, device)
    ensures fault.Some? ==> FoldBatches(Entries(log), device, batches, |log| + 1, |batches|) == Err(fault.value)
    ensures fault.None? ==> Folding(log, now + [b], device, batches, i + 1, stage.History())
    ensures fault.None? ==> StreamOf(now + [b], device) == checksum + [batches[i]]
  {
    ghost var g := stage.History();
    var entries;
    fault, entries := FoldOne(stage, device, batches[i], |now| + 1);
    b := AdmittedBatch(|now| + 1, device, batches[i].deviceSeq, checksum + [batches[i]], entries);
    if fault.Some? {
      FoldingFault(log, now, device, batches, i, g, fault.value);
    } else {
      FoldingStep(log, now, device, batches, i, g, stage.History(), b);
    }
  }

  /** The batches of a request, folded in order; nothing is written yet. */
  method FoldRequest(stage: StagedAdmission, log: seq<LogBatch>, device: DeviceId, batches: seq<AdmissionBatch>,
                     checksum: Checksum)
    returns (fault: Option<Rejection>, now: seq<LogBatch>, next: Checksum)
    requires stage.Valid() && stage.History() == Entries(log) && stage.stagedEvents == [] && LogValid(log)
    requires checksum == StreamOf(log, device) && Sequenced(LastSeq(checksum), batches)
    modifies stage
    ensures stage.Valid()
    ensures fault.Some? ==> FoldBatches(Entries(log), device, batches, |log| + 1, |batches|) == Err(fault.value)
    ensures fault.None? ==>
              Folding(log, now, device, batches, |batches|, stage.History()) && next == StreamOf(now, device)
  {
    fault, now, next := None, log, checksum;
    FoldingStarts(log, device, batches);
    var i := 0;
    while i < |batches| && fault.None?
      invariant 0 <= i <= |batches|
      invariant stage.Valid() && OwnedBy(stage.stagedEvents, device)
      invariant fault.None? ==> Folding(log, now, device, batches, i, stage.History()) && next == StreamOf(now, device)
      invariant fault.Some? ==> FoldBatches(Entries(log), device, batches, |log| + 1, |batches|) == Err(fault.value)
    {
      var b;
      fault, b := FoldNext(stage, log, device, batches, i, now, next);
      next := next + [batches[i]];
      now := now + [b];
      i := i + 1;
    }
  }

  lemma {:induction false} LinkIsWellFormed(log: seq<LogBatch>, i: nat)
    requires LogValid(log) && i < |log|
    ensures log[i].admissionSeq == i + 1 && WellFormed(log[i])
  {
    LinkAt(log, i);
  }

  /** Every interval of a valid log is a dense page. */
  lemma {:induction false} IntervalIsDense(log: seq<LogBatch>, after: nat, through: nat)
    requires LogValid(log) && after <= through <= |log|
    ensures Dense(PullResponse(after, through, log[after..through]))
  {
    var batches := log[after..through];
    forall i | 0 <= i < |batches| ensures batches[i].admissionSeq == after + i + 1 && WellFormed(batches[i]) {
      LinkIsWellFormed(log, after + i);
    }
  }

  // ----- what a request does to the log ------------------------------------------------------

  /** The submitted form of a stored batch: the newest one its checksum commits to. */
  function Submitted(b: LogBatch): AdmissionBatch
    requires b.checksum != []
  {
    b.checksum[|b.checksum| - 1]
  }

  /** Batch `m` of the log met every rule on the history before it, and is stored as it was submitted. */
  ghost predicate JustifiedAt(log: seq<LogBatch>, m: nat)
    requires m < |log|
  {
    && log[m].checksum != [] && log[m].deviceSeq == Submitted(log[m]).deviceSeq
    && log[m].entries == Stamps(Submitted(log[m]), m + 1)
    && BatchFits(Entries(log[..m]), log[m].device, Submitted(log[m]), m + 1)
  }

  ghost predicate Justified(log: seq<LogBatch>) {
    forall m :: 0 <= m < |log| ==> JustifiedAt(log, m)
  }

  /** The row batch `j` of a request gets. */
  function RowOf(before: seq<LogBatch>, device: DeviceId, batches: seq<AdmissionBatch>, j: nat): LogBatch
    requires j < |batches|
  {
    AdmittedBatch(|before| + j + 1, device, batches[j].deviceSeq, StreamOf(before, device) + batches[..j + 1],
                  Stamps(batches[j], |before| + j + 1))
  }

  /** The log is longer by one row for each batch of a request. */
  ghost predicate Grown(before: seq<LogBatch>, log: seq<LogBatch>, device: DeviceId, batches: seq<AdmissionBatch>) {
    && |log| == |before| + |batches| && before <= log
    && forall j :: 0 <= j < |batches| ==> log[|before| + j] == RowOf(before, device, batches, j)
  }

  /**
   What a request does and is told: fenced by checksum, then by sequence, then by leases; taken whole exactly
   when every batch fits the history it meets; else refused for the first thing that does not fit.
   */
  ghost predicate Served(before: seq<LogBatch>, log: seq<LogBatch>, device: DeviceId, expected: Checksum,
                         batches: seq<AdmissionBatch>, contended: Option<Rejection>, answer: Answer)
  {
    var h, stream, at := Entries(before), StreamOf(before, device), |before| + 1;
    if expected != stream then log == before && answer == Kernel(DeviceChecksumMismatch(LastSeq(stream), stream))
    else if exists k: nat :: k < |batches| && Breaks(LastSeq(stream), batches, k) then
      log == before && exists k: nat :: FencedAt(LastSeq(stream), batches, k, answer)
    else if contended.Some? then log == before && answer == Kernel(Rejected(contended.value))
    else if RequestFits(h, device, batches, at) then
      Grown(before, log, device, batches) && AppliedFrom(stream, batches, at, answer)
    else
      log == before && exists j: nat, r ::
        RequestRefusedAt(h, device, batches, at, j, r) && RefusedWith(stream, |batches|, r, answer)
  }

  lemma {:induction false} FormIsStamps(b: LogBatch, batch: AdmissionBatch)
    requires AdmittedForm(b, batch)
    ensures b.entries == Stamps(batch, b.admissionSeq)
  {}

  lemma {:induction false} ExtendedIsGrown(before: seq<LogBatch>, log: seq<LogBatch>, device: DeviceId,
                                           batches: seq<AdmissionBatch>)
    requires Extends(before, log, device, batches, |batches|)
    ensures Grown(before, log, device, batches)
  {
    forall j | 0 <= j < |batches| ensures log[|before| + j] == RowOf(before, device, batches, j) {
      assert PlacedAt(before, log, device, batches, j);
      LinkAt(log, |before| + j);
      FormIsStamps(log[|before| + j], batches[j]);
    }
  }

  lemma {:induction false} FenceIsFirst(last: nat, batches: seq<AdmissionBatch>)
    ensures Sequenced(last, batches) <==> !exists k: nat :: k < |batches| && Breaks(last, batches, k)
    ensures !Sequenced(last, batches) ==>
              FencedAt(last, batches, FirstFault(last, batches, 0),
                       Kernel(DeviceSeqRegression(FenceLast(last, batches), FenceSeq(last, batches))))
  {
    SequencedIsNoFault(last, batches);
    var first := FirstFault(last, batches, 0);
    forall k: nat | k < |batches| ensures Breaks(last, batches, k) <==> FaultAt(last, batches, k) {}
    if first < |batches| {
      assert Breaks(last, batches, first);
      forall j | 0 <= j < first ensures !Breaks(last, batches, j) {
        assert !FaultAt(last, batches, j);
      }
    }
  }

  /** The verdict, and a log that follows it, serve the request as the rules say. */
  lemma {:induction false} JudgedIsServed(before: seq<LogBatch>, log: seq<LogBatch>, device: DeviceId,
                                          expected: Checksum, batches: seq<AdmissionBatch>,
                                          contended: Option<Rejection>, answer: Answer)
    requires answer ==
             Judge(Entries(before), device, StreamOf(before, device), expected, batches, contended, |before| + 1)
    requires if Takes(Entries(before), device, StreamOf(before, device), expected, batches, contended, |before| + 1)
             then Extends(before, log, device, batches, |batches|) else log == before
    ensures Served(before, log, device, expected, batches, contended, answer)
  {
    var h, stream, at := Entries(before), StreamOf(before, device), |before| + 1;
    FenceIsFirst(LastSeq(stream), batches);
    if expected == stream && Sequenced(LastSeq(stream), batches) && contended.None? {
      RequestVerdict(h, device, batches, at);
      if RequestFits(h, device, batches, at) {
        ExtendedIsGrown(before, log, device, batches);
      } else {
        var r := FoldBatches(h, device, batches, at, |batches|).error;
        var j: nat :| RequestRefusedAt(h, device, batches, at, j, r);
        assert RefusedWith(stream, |batches|, r, answer);
      }
    }
  }

  lemma {:induction false} EntriesGrown(before: seq<LogBatch>, log: seq<LogBatch>, device: DeviceId,
                                        batches: seq<AdmissionBatch>, j: nat)
    requires Grown(before, log, device, batches) && j <= |batches|
    ensures Entries(log[..|before| + j]) == HistoryAfter(Entries(before), batches, |before| + 1, j)
  {
    var m := |before| + j;
    if j == 0 {
      assert log[..m] == before;
    } else {
      EntriesGrown(before, log, device, batches, j - 1);
      assert log[..m][..m - 1] == log[..m - 1];
      assert log[m - 1] == RowOf(before, device, batches, j - 1);
    }
  }

  /** A log of justified batches stays one when a fitting request is added. */
  lemma {:induction false} JustifiedGrows(before: seq<LogBatch>, log: seq<LogBatch>, device: DeviceId,
                                          batches: seq<AdmissionBatch>)
    requires Justified(before) && Grown(before, log, device, batches)
    requires RequestFits(Entries(before), device, batches, |before| + 1)
    ensures Justified(log)
  {
    forall m | 0 <= m < |log| ensures JustifiedAt(log, m) {
      if m < |before| {
        assert JustifiedAt(before, m) && log[m] == before[m] && log[..m] == before[..m];
      } else {
        var j := m - |before|;
        assert log[|before| + j] == RowOf(before, device, batches, j);
        EntriesGrown(before, log, device, batches, j);
        assert BatchFitsAt(Entries(before), device, batches, |before| + 1, j);
      }
    }
  }

  class Server {
    var tree: Tree
    var log: seq<LogBatch>
    var devices: map<DeviceId, DeviceRecord>

    function Record(device: DeviceId): DeviceRecord
      reads this
    {
      if device in devices then devices[device] else NEW_DEVICE
    }

    /**
     Every batch of the log met the rules when it was admitted, the store materializes the log, and every device
     record is the head of that device's stream.
     */
    ghost predicate Valid()
      reads this
    {
      && LogValid(log) && Justified(log)
      && Ordered(Entries(log)) && Admitted(Entries(log))
      && tree == Materialize(Entries(log))
      && forall d :: Record(d) == DeviceRecord(LastSeq(StreamOf(log, d)), StreamOf(log, d))
    }

    constructor ()
      ensures Valid() && log == []
    {
      tree, log, devices := EMPTY_TREE, [], map[];
    }

    /** Write everything a request staged, in one step. */
    method Commit(stage: StagedAdmission, now: seq<LogBatch>, device: DeviceId, next: Checksum)
      requires stage.Valid() && stage.History() == Entries(now) && LogValid(now) && Justified(now)
      requires next == StreamOf(now, device)
      requires forall d :: d != device ==> Record(d) == DeviceRecord(LastSeq(StreamOf(now, d)), StreamOf(now, d))
      modifies this
      ensures Valid() && log == now
    {
      tree := stage.View();
      log := now;
      devices := devices[device := DeviceRecord(LastSeq(next), next)];
    }

    /** Fold a fenced request, then write it or drop it. */
    method FoldAndCommit(device: DeviceId, batches: seq<AdmissionBatch>, checksum: Checksum)
      returns (fault: Option<Rejection>)
      requires Valid() && checksum == StreamOf(log, device) && Sequenced(LastSeq(checksum), batches)
      modifies this
      ensures Valid()
      ensures fault.Some? ==> log == old(log)
      ensures fault.Some? ==>
                FoldBatches(Entries(old(log)), device, batches, |old(log)| + 1, |batches|) == Err(fault.value)
      ensures fault.None? ==>
                FoldBatches(Entries(old(log)), device, batches, |old(log)| + 1, |batches|) == Ok(Entries(log))
      ensures fault.None? ==> Extends(old(log), log, device, batches, |batches|)
    {
      var stage := new StagedAdmission(tree, Entries(log));
      var now, next;
      fault, now, next := FoldRequest(stage, log, device, batches, checksum);
      if fault.None? {
        RequestVerdict(Entries(log), device, batches, |log| + 1);
        ExtendedIsGrown(log, now, device, batches);
        JustifiedGrows(log, now, device, batches);
        Commit(stage, now, device, next);
      }
    }

    /** The checks in their order, and the commit. */
    method Process(device: DeviceId, expected: Checksum, batches: seq<AdmissionBatch>, contended: Option<Rejection>)
      returns (answer: Answer)
      requires Valid()
      modifies this
      ensures Valid()
      ensures answer == Judge(Entries(old(log)), device, StreamOf(old(log), device), expected, batches, contended,
              |old(log)| + 1)
      ensures Takes(Entries(old(log)), device, StreamOf(old(log), device), expected, batches, contended, |old(log)| + 1)
              ==> Extends(old(log), log, device, batches, |batches|)
                  && Ok(Entries(log)) == FoldBatches(Entries(old(log)), device, batches, |old(log)| + 1, |batches|)
      ensures !Takes(Entries(old(log)), device, StreamOf(old(log), device), expected, batches, contended,
              |old(log)| + 1)
              ==> log == old(log)
      ensures AdmitStep(StreamOf(old(log), device), expected, batches, StreamOf(log, device), answer)
      ensures forall d :: d != device ==> StreamOf(log, d) == StreamOf(old(log), d)
    {
      JudgeIsAdmitStep(Entries(log), device, StreamOf(log, device), expected, batches, contended, |log| + 1);
      var record, at := Record(device), |log| + 1;
      if expected != record.checksum {
        return Kernel(DeviceChecksumMismatch(record.lastSeq, record.checksum));
      }
      var fence := Fence(record.lastSeq, batches);
      if fence.Some? {
        return Kernel(fence.value);
      }
      if contended.Some? {
        return Kernel(Rejected(contended.value));
      }
      var fault := FoldAndCommit(device, batches, record.checksum);
      if fault.Some? {
        return Refusal(fault.value, record.checksum, |batches|);
      }
      assert batches[..|batches|] == batches;
      return Response(record.checksum + batches, AllAdmitted(at, |batches|));
    }

    /** Admit one request atomically, or refuse it and change nothing. */
    method Admit(device: DeviceId, expected: Checksum, batches: seq<AdmissionBatch>, contended: Option<Rejection>)
      returns (answer: Answer)
      requires Valid()
      modifies this
      ensures Valid() && Served(old(log), log, device, expected, batches, contended, answer)
      ensures answer == Judge(Entries(old(log)), device, StreamOf(old(log), device), expected, batches, contended,
              |old(log)| + 1)
      ensures Takes(Entries(old(log)), device, StreamOf(old(log), device), expected, batches, contended, |old(log)| + 1)
              ==> Extends(old(log), log, device, batches, |batches|)
                  && Ok(Entries(log)) == FoldBatches(Entries(old(log)), device, batches, |old(log)| + 1, |batches|)
      ensures !Takes(Entries(old(log)), device, StreamOf(old(log), device), expected, batches, contended,
              |old(log)| + 1)
              ==> log == old(log)
      ensures AdmitStep(StreamOf(old(log), device), expected, batches, StreamOf(log, device), answer)
      ensures forall d :: d != device ==> StreamOf(log, d) == StreamOf(old(log), d)
    {
      ghost var before := log;
      answer := Process(device, expected, batches, contended);
      JudgedIsServed(before, log, device, expected, batches, contended, answer);
    }

    /** One dense page of the log: complete batches after a cursor. */
    method Pull(after: nat, maxBatches: Option<nat>) returns (page: Option<PullResponse>)
      requires Valid()
      ensures page.None? <==> after > |log|
      ensures page.Some? ==>
                && page.value.after == after && Dense(page.value)
                && page.value.through == (if maxBatches.Some? then Min(|log|, after + maxBatches.value) else |log|)
                && page.value.batches == log[after..page.value.through]
    {
      if after > |log| {
        return None;
      }
      var available := |log| - after;
      var through := after + if maxBatches.Some? then Min(available, maxBatches.value) else available;
      IntervalIsDense(log, after, through);
      return Some(PullResponse(after, through, log[after..through]));
    }
  }

  /** Any requests of any devices but one, in any order. */
  method Meanwhile(server: Server, except: Option<DeviceId>)
    requires server.Valid()
    modifies server
    ensures server.Valid() && old(server.log) <= server.log
    ensures except.Some? ==> StreamOf(server.log, except.value) == StreamOf(old(server.log), except.value)
  {
    var requests: int := *;
    while requests > 0
      invariant server.Valid() && old(server.log) <= server.log
      invariant except.Some? ==> StreamOf(server.log, except.value) == StreamOf(old(server.log), except.value)
    {
      var device: DeviceId := *;
      var expected: Checksum := *;
      var batches: seq<AdmissionBatch> := *;
      var contended: Option<Rejection> := *;
      if Some(device) != except {
        var _ := server.Admit(device, expected, batches, contended);
      }
      requests := requests - 1;
    }
  }
}
