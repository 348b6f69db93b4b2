/**
 The admission exchange between one device and the server of one space
 (core/src/messages.rs, core/src/space.rs).

 The cumulative device checksum is modelled as the list of batches it commits
 to: SHA-256 is taken to be collision-free, and module Checksum proves that the
 bytes hashed for a batch determine the batch.
 */
module Wire {
  import opened Types

  type Checksum = seq<AdmissionBatch>

  const EMPTY_CHECKSUM: Checksum := []

  /** An assertion that did not hold, with the foreign admission that broke it. */
  datatype RangeAssertFailure = RangeAssertFailure(prefix: Key, upto: nat, actual: nat)

  /** Semantic rejections other than the two stream fences. */
  datatype Rejection =
    | Contended(prefix: Key)
    | RangeContended(range: Range)
    | RangeAssertFailed(failures: seq<RangeAssertFailure>)
    | InvalidSeal
    | VerRegression(key: Key, current: nat, attempted: nat)
    | RangeVerRegression(range: Range, current: nat, attempted: nat)

  datatype KernelError =
    | DeviceChecksumMismatch(currentSeq: nat, current: Checksum)
    | DeviceSeqRegression(currentDeviceSeq: nat, attempted: nat)
    | Rejected(reason: Rejection)

  datatype AdmissionResult = Applied(admissionSeq: nat) | Failed(reason: Rejection)

  /** What the client hears. `Unavailable` says nothing about whether the request took effect. */
  datatype Answer =
    | Response(checksum: Checksum, results: seq<AdmissionResult>)
    | Kernel(error: KernelError)
    | Unavailable

  function LastSeq(stream: Checksum): nat {
    if stream == [] then 0 else stream[|stream| - 1].deviceSeq
  }

  /** The first batch follows the stream; the rest follow each other without a gap. */
  predicate Sequenced(last: nat, batches: seq<AdmissionBatch>) {
    && (batches != [] ==> last < batches[0].deviceSeq)
    && (forall i :: 0 < i < |batches| ==> batches[i].deviceSeq == batches[i - 1].deviceSeq + 1)
  }

  predicate AllApplied(results: seq<AdmissionResult>) {
    forall i :: 0 <= i < |results| ==> results[i].Applied?
  }

  /**
   The contract of one `admit` call on the device's stream `pre`. The request takes
   effect entirely or not at all; both fences come before any semantic rejection;
   and an answer may be lost or garbled on either side of the effect.
   */
  predicate AdmitStep(pre: Checksum, expected: Checksum, batches: seq<AdmissionBatch>, post: Checksum, answer: Answer) {
    var garbled := answer.Unavailable? || (answer.Response? && |answer.results| != |batches|);
    if expected != pre then
      post == pre && (garbled || answer == Kernel(DeviceChecksumMismatch(LastSeq(pre), pre)))
    else if !Sequenced(LastSeq(pre), batches) then
      post == pre && (garbled || (answer.Kernel? && answer.error.DeviceSeqRegression?))
    else
      || (post == pre && garbled)
      || (post == pre && answer.Kernel? && answer.error.Rejected?)
      || (post == pre && answer.Response? && |answer.results| == |batches| && !AllApplied(answer.results))
      || (post == pre + batches && garbled)
      || (post == pre + batches && answer.Response? && |answer.results| == |batches|
          && AllApplied(answer.results) && answer.checksum == post)
  }

  /** Sequence numbers increase along a device stream. */
  predicate Ascending(stream: Checksum) {
    && (forall i :: 0 <= i < |stream| ==> stream[i].deviceSeq > 0)
    && (forall i :: 0 < i < |stream| ==> stream[i - 1].deviceSeq < stream[i].deviceSeq)
  }

  // ----- pulled pages -----------------------------------------------------------------

  const MAX_U32: nat := 0xFFFF_FFFF

  type LogBatch = AdmittedBatch<Checksum>

  /** A dense interval `(after, through]` of the admission log. */
  datatype PullResponse = PullResponse(after: nat, through: nat, batches: seq<LogBatch>)

  /** The redundant order and device metadata of a batch agree. */
  predicate WellFormed(b: LogBatch) {
    && |b.entries| <= MAX_U32
    && forall i :: 0 <= i < |b.entries| ==> EntryAgrees(b, i)
  }

  predicate EntryAgrees(b: LogBatch, i: nat)
    requires i < |b.entries|
  {
    && b.entries[i].order == AdmissionOrder(b.admissionSeq, i)
    && b.entries[i].deviceEntry.tag.device == b.device
    && b.entries[i].deviceEntry.tag.deviceSeq == b.deviceSeq
  }

  predicate Dense(r: PullResponse) {
    && r.after <= r.through && |r.batches| == r.through - r.after
    && forall i :: 0 <= i < |r.batches| ==> r.batches[i].admissionSeq == r.after + i + 1 && WellFormed(r.batches[i])
  }

  datatype DensityError =
    | CursorRegression(after: nat, through: nat)
    | BatchCountMismatch(expectedCount: nat, actualCount: nat)
    | BatchSequenceMismatch(expectedSeq: nat, actualSeq: nat)
    | EntryAdmissionMismatch(batch: nat, entry: nat)
    | OperationIndexMismatch(admissionSeq: nat, expectedIndex: nat, actualIndex: nat)
    | EntryDeviceMismatch(admissionSeq: nat)
    | OperationCountOverflow

  /** `error` says what is wrong with operation `i`, and that is the first thing wrong with it. */
  predicate BlamesEntry(b: LogBatch, i: nat, error: DensityError)
    requires i < |b.entries|
  {
    var order, tag := b.entries[i].order, b.entries[i].deviceEntry.tag;
    match error
    case EntryAdmissionMismatch(batch, entry) => batch == b.admissionSeq != entry == order.admissionSeq
    case OperationIndexMismatch(at, expected, actual) =>
      at == b.admissionSeq == order.admissionSeq && expected == i != actual == order.opIndex
    case EntryDeviceMismatch(at) =>
      && at == b.admissionSeq && order == AdmissionOrder(b.admissionSeq, i)
      && (tag.device != b.device || tag.deviceSeq != b.deviceSeq)
    case _ => false
  }

  /** `error` is about the first operation of the batch that disagrees with it. */
  ghost predicate BlamesBatch(b: LogBatch, error: DensityError) {
    if |b.entries| > MAX_U32 then error == OperationCountOverflow
    else exists i :: 0 <= i < |b.entries| && (forall j :: 0 <= j < i ==> EntryAgrees(b, j)) && BlamesEntry(b, i, error)
  }

  method ValidateBatch(b: LogBatch) returns (error: Option<DensityError>)
    ensures error.None? <==> WellFormed(b)
    ensures error.None? <==>
            && |b.entries| <= MAX_U32
            && forall i :: 0 <= i < |b.entries| ==>
                             && b.entries[i].order.admissionSeq == b.admissionSeq && b.entries[i].order.opIndex == i
                             && b.entries[i].deviceEntry.tag.device == b.device
                             && b.entries[i].deviceEntry.tag.deviceSeq == b.deviceSeq
    ensures error.Some? ==> BlamesBatch(b, error.value)
  {
    if |b.entries| > MAX_U32 {
      return Some(OperationCountOverflow);
    }
    for i := 0 to |b.entries|
      invariant forall j :: 0 <= j < i ==> EntryAgrees(b, j)
    {
      var order, tag := b.entries[i].order, b.entries[i].deviceEntry.tag;
      if order.admissionSeq != b.admissionSeq {
        error := Some(EntryAdmissionMismatch(b.admissionSeq, order.admissionSeq));
      } else if order.opIndex != i {
        error := Some(OperationIndexMismatch(b.admissionSeq, i, order.opIndex));
      } else if tag.device != b.device || tag.deviceSeq != b.deviceSeq {
        error := Some(EntryDeviceMismatch(b.admissionSeq));
      } else {
        error := None;
      }
      if error.Some? {
        assert !EntryAgrees(b, i) && BlamesEntry(b, i, error.value);
        return;
      }
    }
    forall i | 0 <= i < |b.entries|
      ensures b.entries[i].order == AdmissionOrder(b.admissionSeq, i)
      ensures b.entries[i].deviceEntry.tag.device == b.device && b.entries[i].deviceEntry.tag.deviceSeq == b.deviceSeq
    {
      assert EntryAgrees(b, i);
    }
    return None;
  }

  /** Batch `i` has the number its place in the page demands, and is well formed. */
  predicate InPlace(r: PullResponse, i: nat)
    requires i < |r.batches|
  {
    r.batches[i].admissionSeq == r.after + i + 1 && WellFormed(r.batches[i])
  }

  /** `error` is about the cursors, then the number of batches, then the first batch out of place. */
  ghost predicate BlamesPage(r: PullResponse, error: DensityError) {
    if r.through < r.after then error == CursorRegression(r.after, r.through)
    else if |r.batches| != r.through - r.after then error == BatchCountMismatch(r.through - r.after, |r.batches|)
    else exists i ::
      && 0 <= i < |r.batches| && (forall j :: 0 <= j < i ==> InPlace(r, j))
      && var b := r.batches[i];
      if b.admissionSeq != r.after + i + 1 then error == BatchSequenceMismatch(r.after + i + 1, b.admissionSeq)
        else BlamesBatch(b, error)
  }

  /**
   A page passes exactly when it is the complete dense interval it claims to be; otherwise the first
   fault is named.
   */
  method ValidateDense(r: PullResponse) returns (error: Option<DensityError>)
    ensures error.None? <==> Dense(r)
    ensures error.None? ==>
              && r.through == r.after + |r.batches|
              && forall i :: 0 <= i < |r.batches| ==> r.batches[i].admissionSeq == r.after + i + 1
    ensures error.Some? ==> BlamesPage(r, error.value)
  {
    if r.through < r.after {
      return Some(CursorRegression(r.after, r.through));
    }
    if |r.batches| != r.through - r.after {
      return Some(BatchCountMismatch(r.through - r.after, |r.batches|));
    }
    for i := 0 to |r.batches|
      invariant forall j :: 0 <= j < i ==> InPlace(r, j)
    {
      if r.batches[i].admissionSeq != r.after + i + 1 {
        return Some(BatchSequenceMismatch(r.after + i + 1, r.batches[i].admissionSeq));
      }
      error := ValidateBatch(r.batches[i]);
      if error.Some? {
        return;
      }
      assert InPlace(r, i);
    }
    forall i | 0 <= i < |r.batches| ensures r.batches[i].admissionSeq == r.after + i + 1 && WellFormed(r.batches[i]) {
      assert InPlace(r, i);
    }
    return None;
  }
}
