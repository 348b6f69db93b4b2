/**
 What a request must meet to be admitted, and what it is told when it does not
 (physics.md, section 4; server/src/space/data.rs), said about whole histories.
 */
module AdmissionRules {
  import opened Types
  import opened Wire
  import opened AdmissionGate

  /** The operations of a batch as the log holds them under number `at`. */
  function Stamps(batch: AdmissionBatch, at: nat): seq<AdmittedEntry> {
    seq(|batch.entries|, i requires 0 <= i < |batch.entries| =>
      AdmittedEntry(batch.entries[i], AdmissionOrder(at, i)))
  }

  /** The history after the first `j` batches of a request, admitted from number `at` on. */
  function HistoryAfter(h: seq<AdmittedEntry>, batches: seq<AdmissionBatch>, at: nat, j: nat): seq<AdmittedEntry>
    requires j <= |batches|
  {
    if j == 0 then h else HistoryAfter(h, batches, at, j - 1) + Stamps(batches[j - 1], at + j - 1)
  }

  // ----- what a mutation must outrank, key by key ------------------------------------------

  /** The range holds the key. */
  predicate Holds(g: Range, k: Key) { g.Full? || g.prefix <= k }

  /** One of two ranges lies within the other. */
  predicate Meets(g: Range, r: Range) { g.Full? || r.Full? || g.prefix <= r.prefix || r.prefix <= g.prefix }

  /** A point mutation outranks what was done to its key, and every range delete over it. */
  predicate OutranksAtKey(h: seq<AdmittedEntry>, k: Key, ver: nat) {
    forall x :: x in h ==>
      match x.Mutation()
      case Set(j, _) => j == k ==> x.Ver() < ver
      case Delete(j) => j == k ==> x.Ver() < ver
      case DeleteRange(r) => Holds(r, k) ==> x.Ver() < ver
  }

  /** A range delete outranks everything done inside its range, and every range delete that meets it. */
  predicate OutranksInRange(h: seq<AdmittedEntry>, g: Range, ver: nat) {
    forall x :: x in h ==>
      match x.Mutation()
      case Set(j, _) => Holds(g, j) ==> x.Ver() < ver
      case Delete(j) => Holds(g, j) ==> x.Ver() < ver
      case DeleteRange(r) => Meets(g, r) ==> x.Ver() < ver
  }

  lemma {:induction false} OutranksMeans(h: seq<AdmittedEntry>, m: Mutation, ver: nat)
    ensures Outranks(h, m, ver) <==>
            match m
            case Set(k, _) => OutranksAtKey(h, k, ver)
            case Delete(k) => OutranksAtKey(h, k, ver)
            case DeleteRange(g) => OutranksInRange(h, g, ver)
  {}

  /** What bears on a prefix: a point at or below it, or a range that meets it. */
  lemma {:induction false} RelevantMeans(p: Key, m: Mutation)
    ensures Relevant(Prefix(p), m) <==>
            match m
            case Set(k, _) => p <= k
            case Delete(k) => p <= k
            case DeleteRange(r) => Meets(Prefix(p), r)
  {}

  // ----- what is admitted -----------------------------------------------------------------

  /** An operation of another device that bears on a prefix. */
  predicate Bears(device: DeviceId, prefix: Key, x: AdmittedEntry) {
    x.Device() != device && Relevant(Prefix(prefix), x.Mutation())
  }

  /** No foreign operation after `upto` bears on the prefix. */
  ghost predicate AssertHolds(h: seq<AdmittedEntry>, device: DeviceId, a: RangeAssert) {
    forall x :: x in h && Bears(device, a.prefix, x) ==> x.order.admissionSeq <= a.upto
  }

  ghost predicate AssertsHold(h: seq<AdmittedEntry>, device: DeviceId, asserts: seq<RangeAssert>) {
    forall a :: a in asserts ==> AssertHolds(h, device, a)
  }

  /** The operation is tagged and sealed for its batch. */
  predicate Tagged(device: DeviceId, deviceSeq: nat, e: DeviceEntry) {
    e.tag.device == device && e.tag.deviceSeq == deviceSeq && e.seal.payload == []
  }

  ghost predicate EntryFits(h: seq<AdmittedEntry>, device: DeviceId, deviceSeq: nat, e: DeviceEntry) {
    Tagged(device, deviceSeq, e) && Outranks(h, e.mutation, e.tag.ver)
  }

  /** Operation `i` of a batch fits the history it meets. */
  ghost predicate FitsAt(h: seq<AdmittedEntry>, device: DeviceId, batch: AdmissionBatch, at: nat, i: nat)
    requires i < |batch.entries|
  {
    EntryFits(h + Stamps(batch, at)[..i], device, batch.deviceSeq, batch.entries[i])
  }

  ghost predicate BatchFits(h: seq<AdmittedEntry>, device: DeviceId, batch: AdmissionBatch, at: nat) {
    && AssertsHold(h, device, batch.rangeAsserts) && |batch.entries| <= MAX_U32
    && forall i :: 0 <= i < |batch.entries| ==> FitsAt(h, device, batch, at, i)
  }

  /** Batch `j` of a request fits the history it meets. */
  ghost predicate BatchFitsAt(h: seq<AdmittedEntry>, device: DeviceId, batches: seq<AdmissionBatch>, at: nat, j: nat)
    requires j < |batches|
  {
    BatchFits(HistoryAfter(h, batches, at, j), device, batches[j], at + j)
  }

  ghost predicate RequestFits(h: seq<AdmittedEntry>, device: DeviceId, batches: seq<AdmissionBatch>, at: nat) {
    forall j :: 0 <= j < |batches| ==> BatchFitsAt(h, device, batches, at, j)
  }

  // ----- what a refusal says ----------------------------------------------------------------

  /** A failure names a broken assertion and the newest foreign admission that breaks it. */
  ghost predicate Names(h: seq<AdmittedEntry>, device: DeviceId, a: RangeAssert, f: RangeAssertFailure) {
    && f.prefix == a.prefix && f.upto == a.upto && f.actual > a.upto
    && (exists x :: x in h && Bears(device, a.prefix, x) && x.order.admissionSeq == f.actual)
    && (forall x :: x in h && Bears(device, a.prefix, x) ==> x.order.admissionSeq <= f.actual)
  }

  /** The failures name exactly the broken assertions, in their order: failure `k` is about assertion `which[k]`. */
  ghost predicate ListsBroken(h: seq<AdmittedEntry>, device: DeviceId, asserts: seq<RangeAssert>,
                              failures: seq<RangeAssertFailure>, which: seq<nat>)
  {
    && |which| == |failures|
    && (forall k :: 0 <= k < |which| ==> which[k] < |asserts| && Names(h, device, asserts[which[k]], failures[k]))
    && (forall k, l :: 0 <= k < l < |which| ==> which[k] < which[l])
    && (forall i :: 0 <= i < |asserts| && !AssertHolds(h, device, asserts[i]) ==> i in which)
  }

  /** `x` has the greatest version among the operations `m` must outrank. */
  predicate Highest(h: seq<AdmittedEntry>, m: Mutation, x: AdmittedEntry) {
    && x in h && Affects(x.Mutation(), m)
    && forall y :: y in h && Affects(y.Mutation(), m) ==> y.Ver() <= x.Ver()
  }

  /** A version refusal names the target, the version to beat and the version offered. */
  ghost predicate Regressed(h: seq<AdmittedEntry>, e: DeviceEntry, x: AdmittedEntry, r: Rejection) {
    && Highest(h, e.mutation, x) && e.tag.ver <= x.Ver()
    && match e.mutation
      case Set(k, _) => r == VerRegression(k, x.Ver(), e.tag.ver)
      case Delete(k) => r == VerRegression(k, x.Ver(), e.tag.ver)
      case DeleteRange(g) => r == RangeVerRegression(g, x.Ver(), e.tag.ver)
  }

  ghost predicate EntryRefused(h: seq<AdmittedEntry>, device: DeviceId, deviceSeq: nat, e: DeviceEntry, r: Rejection) {
    if !Tagged(device, deviceSeq, e) then r == InvalidSeal else exists x :: Regressed(h, e, x, r)
  }

  /** Operation `i` is the first that does not fit, and this is why. */
  ghost predicate RefusedAt(h: seq<AdmittedEntry>, device: DeviceId, batch: AdmissionBatch, at: nat, i: nat,
                            r: Rejection)
  {
    && i < |batch.entries| && (forall k :: 0 <= k < i ==> FitsAt(h, device, batch, at, k))
    && EntryRefused(h + Stamps(batch, at)[..i], device, batch.deviceSeq, batch.entries[i], r)
  }

  /** Assertions come first, then the number of operations, then the operations in order. */
  ghost predicate BatchRefused(h: seq<AdmittedEntry>, device: DeviceId, batch: AdmissionBatch, at: nat, r: Rejection) {
    if !AssertsHold(h, device, batch.rangeAsserts) then
      r.RangeAssertFailed? && exists which :: ListsBroken(h, device, batch.rangeAsserts, r.failures, which)
    else if |batch.entries| > MAX_U32 then r == InvalidSeal
    else exists i: nat :: RefusedAt(h, device, batch, at, i, r)
  }

  /** Batch `j` is the first that does not fit, and this is why. */
  ghost predicate RequestRefusedAt(h: seq<AdmittedEntry>, device: DeviceId, batches: seq<AdmissionBatch>, at: nat,
                                   j: nat, r: Rejection)
  {
    && j < |batches| && (forall k :: 0 <= k < j ==> BatchFitsAt(h, device, batches, at, k))
    && BatchRefused(HistoryAfter(h, batches, at, j), device, batches[j], at + j, r)
  }

  /** Batch `k` does not follow what precedes it: the device's last number, or the batch before it. */
  predicate Breaks(last: nat, batches: seq<AdmissionBatch>, k: nat)
    requires k < |batches|
  {
    if k == 0 then batches[0].deviceSeq <= last else batches[k].deviceSeq != batches[k - 1].deviceSeq + 1
  }

  /** Batch `k` is the first that does not follow, and the answer names both numbers. */
  predicate FencedAt(last: nat, batches: seq<AdmissionBatch>, k: nat, answer: Answer) {
    && k < |batches| && Breaks(last, batches, k) && (forall j :: 0 <= j < k ==> !Breaks(last, batches, j))
    && answer ==
       Kernel(DeviceSeqRegression(if k == 0 then last else batches[k - 1].deviceSeq, batches[k].deviceSeq))
  }

  /** A broken assertion fails every batch of the request; anything else is refused outright. */
  predicate RefusedWith(stream: Checksum, n: nat, r: Rejection, answer: Answer) {
    if r.RangeAssertFailed? then
      && answer.Response? && answer.checksum == stream && |answer.results| == n
      && forall j :: 0 <= j < n ==> answer.results[j] == Failed(r)
    else answer == Kernel(Rejected(r))
  }

  /** Every batch was applied, under consecutive numbers from `at` on. */
  predicate AppliedFrom(stream: Checksum, batches: seq<AdmissionBatch>, at: nat, answer: Answer) {
    && answer.Response? && answer.checksum == stream + batches && |answer.results| == |batches|
    && forall j :: 0 <= j < |batches| ==> answer.results[j] == Applied(at + j)
  }
}
