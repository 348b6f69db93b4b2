/**
 The durable records of a device (client/src/meta.rs, core/src/seal.rs,
 core/src/range.rs): submit-log records and captured server batches.
 */
module RecordCodec {
  import opened Types
  import opened Codec
  import opened Keys
  import opened MetaLog
  import opened Wire

  const SEAL_NONCE_LEN: nat := 24
  const SEAL_AEAD_TAG_LEN: nat := 16
  const SEAL_FIXED_HEADER_LEN: nat := 41
  const OPLOG_RECORD_VERSION: Byte := 4
  const ADMITTED_BATCH_RECORD_VERSION: Byte := 1

  // ----- seals ---------------------------------------------------------------------------

  predicate ValidSeal(s: Seal) { |s.nonce| == SEAL_NONCE_LEN && |s.aead| == SEAL_AEAD_TAG_LEN && s.payload == [] }

  function EncodeSeal(s: Seal): Bytes { [0] + (s.nonce + (s.aead + WriteBlob(s.payload, []))) }

  function DecodeSeal(bs: Bytes): Option<Seal> {
    if |bs| < SEAL_FIXED_HEADER_LEN + 4 || bs[0] != 0 then None
    else
      var payload := bs[45..];
      if FromBe(bs[41..45]) != |payload| || payload != [] then None
      else Some(Seal(bs[1..25], bs[25..41], payload))
  }

  lemma {:induction false} Cut(bs: Bytes, i: nat, j: nat)
    requires i <= j <= |bs|
    ensures bs[i..] == bs[i..j] + bs[j..]
  {}

  lemma {:induction false} Middle(a: Bytes, b: Bytes, c: Bytes)
    ensures (a + (b + c))[|a|..|a| + |b|] == b && a + (b + c) == (a + b) + c
  {}

  lemma {:induction false} SealInverse(s: Seal)
    requires ValidSeal(s)
    ensures DecodeSeal(EncodeSeal(s)) == Some(s) && |EncodeSeal(s)| == 45
  {
    Limits();
    BeInverse(4, 0);
    var tail := WriteBlob(s.payload, []);
    assert tail == Be(4, 0) + [];
    Middle([0], s.nonce, s.aead + tail);
    Middle([0] + s.nonce, s.aead, tail);
    Middle([0] + s.nonce + s.aead, Be(4, 0), []);
  }

  lemma {:induction false} EmptyBlobCanonical(bs: Bytes)
    requires |bs| == 4 && FromBe(bs) == 0
    ensures bs == WriteBlob([], [])
  {
    BeCanonical(bs);
    assert Be(4, 0) + ([] + []) == Be(4, 0);
  }

  lemma {:induction false} SealCanonical(bs: Bytes)
    requires DecodeSeal(bs).Some?
    ensures ValidSeal(DecodeSeal(bs).value) && bs == EncodeSeal(DecodeSeal(bs).value)
  {
    assert bs[41..45] == bs[41..];
    EmptyBlobCanonical(bs[41..]);
    Cut(bs, 0, 1);
    Cut(bs, 1, 25);
    Cut(bs, 25, 41);
    assert bs[0..] == bs && bs[0..1] == [0];
  }

  lemma {:induction false} SealCodec(s: Seal, bs: Bytes)
    ensures ValidSeal(s) ==> DecodeSeal(EncodeSeal(s)) == Some(s) && |EncodeSeal(s)| == 45
    ensures DecodeSeal(bs).Some? ==> ValidSeal(DecodeSeal(bs).value) && bs == EncodeSeal(DecodeSeal(bs).value)
  {
    if ValidSeal(s) {
      SealInverse(s);
    }
    if DecodeSeal(bs).Some? {
      SealCanonical(bs);
    }
  }

  // ----- ranges --------------------------------------------------------------------------

  predicate ValidRange(r: Range) { r.Prefix? ==> ValidKey(r.prefix) }

  function EncodeRange(r: Range): Bytes {
    match r
    case Full => [0]
    case Prefix(k) => [1] + WriteBlob(Enc(k), [])
  }

  function DecodeRange(bs: Bytes): Option<Range> {
    if bs == [0] then Some(Full)
    else if |bs| >= 5 && bs[0] == 1 && |bs[5..]| == FromBe(bs[1..5]) then
      var k := DecodedKey(bs[5..]);
      if k.Some? then Some(Prefix(k.value)) else None
    else None
  }

  lemma {:induction false} RangeCodec(r: Range, bs: Bytes)
    ensures ValidRange(r) ==> DecodeRange(EncodeRange(r)) == Some(r) && |EncodeRange(r)| < U32_LIMIT
    ensures DecodeRange(bs).Some? ==> ValidRange(DecodeRange(bs).value) && bs == EncodeRange(DecodeRange(bs).value)
  {
    Limits();
    if ValidRange(r) && r.Prefix? {
      var e := EncodeRange(r);
      assert e[1..5] == Be(4, |Enc(r.prefix)|) && e[5..] == Enc(r.prefix);
      BeInverse(4, |Enc(r.prefix)|);
      DecodedKeyIsExact(e[5..], r.prefix);
    }
    if DecodeRange(bs).Some? && DecodeRange(bs).value.Prefix? {
      BeCanonical(bs[1..5]);
      DecodedKeyIsExact(bs[5..], DecodeRange(bs).value.prefix);
      assert bs == [bs[0]] + (bs[1..5] + (bs[5..] + []));
    }
  }

  // ----- tags ------------------------------------------------------------------------------

  predicate ValidTag(t: DeviceTag) {
    |t.device| == 16 && t.deviceSeq < U64_LIMIT && t.ver < U64_LIMIT && t.cipherEpoch < U64_LIMIT
  }

  function WriteTag(t: DeviceTag, rest: Bytes): Bytes {
    t.device + WriteU64(t.deviceSeq, WriteU64(t.ver, WriteU64(t.cipherEpoch, rest)))
  }

  function ParseTag(bs: Bytes): Parsed<DeviceTag> {
    match Take(16, bs)
    case Fail => Fail
    case Done(device, bs) =>
      match TakeU64(bs)
      case Fail => Fail
      case Done(deviceSeq, bs) =>
        match TakeU64(bs)
        case Fail => Fail
        case Done(ver, bs) =>
          match TakeU64(bs)
          case Fail => Fail
          case Done(epoch, bs) => Done(DeviceTag(device, deviceSeq, ver, epoch), bs)
  }

  lemma {:induction false} TagInverse(t: DeviceTag, rest: Bytes)
    requires ValidTag(t)
    ensures ParseTag(WriteTag(t, rest)) == Done(t, rest)
  {
    var c := WriteU64(t.cipherEpoch, rest);
    var b := WriteU64(t.ver, c);
    TakeInverse(t.device, WriteU64(t.deviceSeq, b));
    U64Codec(t.deviceSeq, b, []);
    U64Codec(t.ver, c, []);
    U64Codec(t.cipherEpoch, rest, []);
  }

  lemma {:induction false} TagCanonical(bs: Bytes)
    requires ParseTag(bs).Done?
    ensures ValidTag(ParseTag(bs).value) && bs == WriteTag(ParseTag(bs).value, ParseTag(bs).rest)
  {
    TakeCanonical(16, bs);
    var b1 := Take(16, bs).rest;
    U64Codec(0, [], b1);
    var b2 := TakeU64(b1).rest;
    U64Codec(0, [], b2);
    U64Codec(0, [], TakeU64(b2).rest);
  }

  // ----- device entries ------------------------------------------------------------------

  predicate ValidMutation(m: Mutation) {
    match m
    case Set(k, v) => ValidKey(k) && |v| < U32_LIMIT
    case Delete(k) => ValidKey(k)
    case DeleteRange(r) => ValidRange(r)
  }

  predicate ValidEntry(e: DeviceEntry) { ValidMutation(e.mutation) && ValidTag(e.tag) && ValidSeal(e.seal) }

  function KindOf(m: Mutation): Byte {
    match m
    case Set(_, _) => 1
    case Delete(_) => 2
    case DeleteRange(_) => 3
  }

  function TargetBytes(m: Mutation): Bytes {
    match m
    case Set(k, _) => Enc(k)
    case Delete(k) => Enc(k)
    case DeleteRange(r) => EncodeRange(r)
  }

  function WriteValue(m: Mutation, rest: Bytes): Bytes { if m.Set? then WriteBlob(m.value, rest) else rest }

  function WriteEntry(e: DeviceEntry, rest: Bytes): Bytes {
    [KindOf(e.mutation)] + WriteBlob(TargetBytes(e.mutation),
      WriteTag(e.tag, WriteBlob(EncodeSeal(e.seal), WriteValue(e.mutation, rest))))
  }

  function ParseMutation(kind: Byte, target: Bytes, bs: Bytes): Parsed<Mutation> {
    if kind == 1 then
      match TakeBlob(bs)
      case Fail => Fail
      case Done(value, bs) => if DecodedKey(target).Some? then Done(Set(DecodedKey(target).value, value), bs) else Fail
    else if kind == 2 then if DecodedKey(target).Some? then Done(Delete(DecodedKey(target).value), bs) else Fail
    else if kind == 3 then if DecodeRange(target).Some? then Done(DeleteRange(DecodeRange(target).value), bs) else Fail
    else Fail
  }

  function ParseEntry(bs: Bytes): Parsed<DeviceEntry> {
    match Take(1, bs)
    case Fail => Fail
    case Done(kind, bs) =>
      match TakeBlob(bs)
      case Fail => Fail
      case Done(target, bs) =>
        match ParseTag(bs)
        case Fail => Fail
        case Done(tag, bs) =>
          match TakeBlob(bs)
          case Fail => Fail
          case Done(seal, bs) =>
            if DecodeSeal(seal).None? then Fail
            else match ParseMutation(kind[0], target, bs)
              case Fail => Fail
              case Done(mutation, bs) => Done(DeviceEntry(mutation, tag, DecodeSeal(seal).value), bs)
  }

  lemma {:induction false} MutationInverse(m: Mutation, rest: Bytes)
    requires ValidMutation(m)
    ensures ParseMutation(KindOf(m), TargetBytes(m), WriteValue(m, rest)) == Done(m, rest)
            && |TargetBytes(m)| < U32_LIMIT
  {
    match m
    case Set(k, v) =>
      BlobCodec(v, rest, []);
      DecodedKeyIsExact(Enc(k), k);
    case Delete(k) => DecodedKeyIsExact(Enc(k), k);
    case DeleteRange(r) => RangeCodec(r, []);
  }

  lemma {:induction false} SetCanonical(target: Bytes, bs: Bytes)
    requires ParseMutation(1, target, bs).Done?
    ensures var r := ParseMutation(1, target, bs);
      ValidMutation(r.value) && KindOf(r.value) == 1 && TargetBytes(r.value) == target
        && bs == WriteValue(r.value, r.rest)
  {
    BlobCodec([], [], bs);
    DecodedKeyIsExact(target, DecodedKey(target).value);
  }

  lemma {:induction false} MutationCanonical(kind: Byte, target: Bytes, bs: Bytes)
    requires ParseMutation(kind, target, bs).Done?
    ensures var r := ParseMutation(kind, target, bs);
      ValidMutation(r.value) && KindOf(r.value) == kind && TargetBytes(r.value) == target
        && bs == WriteValue(r.value, r.rest)
  {
    if kind == 1 {
      SetCanonical(target, bs);
    } else if kind == 2 {
      DecodedKeyIsExact(target, DecodedKey(target).value);
    } else {
      RangeCodec(Full, target);
    }
  }

  lemma {:induction false} EntryInverse(e: DeviceEntry, rest: Bytes)
    requires ValidEntry(e)
    ensures ParseEntry(WriteEntry(e, rest)) == Done(e, rest)
  {
    var d := WriteValue(e.mutation, rest);
    var c := WriteBlob(EncodeSeal(e.seal), d);
    var b := WriteTag(e.tag, c);
    MutationInverse(e.mutation, rest);
    TakeInverse([KindOf(e.mutation)], WriteBlob(TargetBytes(e.mutation), b));
    BlobCodec(TargetBytes(e.mutation), b, []);
    TagInverse(e.tag, c);
    SealCodec(e.seal, []);
    BlobCodec(EncodeSeal(e.seal), d, []);
  }

  lemma {:induction false} EntryCanonical(bs: Bytes)
    requires ParseEntry(bs).Done?
    ensures ValidEntry(ParseEntry(bs).value) && bs == WriteEntry(ParseEntry(bs).value, ParseEntry(bs).rest)
  {
    TakeCanonical(1, bs);
    var kind, b1 := Take(1, bs).value, Take(1, bs).rest;
    BlobCodec([], [], b1);
    var target, b2 := TakeBlob(b1).value, TakeBlob(b1).rest;
    TagCanonical(b2);
    var b3 := ParseTag(b2).rest;
    BlobCodec([], [], b3);
    var seal, b4 := TakeBlob(b3).value, TakeBlob(b3).rest;
    SealCodec(DecodeSeal(seal).value, seal);
    MutationCanonical(kind[0], target, b4);
    assert kind == [kind[0]];
  }

  lemma {:induction false} EntriesAreInverse()
    ensures Inverse(WriteEntry, ParseEntry, ValidEntry)
  {
    forall x, rest | ValidEntry(x) ensures ParseEntry(WriteEntry(x, rest)) == Done(x, rest) {
      EntryInverse(x, rest);
    }
    forall bs | ParseEntry(bs).Done?
      ensures ValidEntry(ParseEntry(bs).value) && bs == WriteEntry(ParseEntry(bs).value, ParseEntry(bs).rest)
    {
      EntryCanonical(bs);
    }
  }

  // ----- range assertions and lease evidence -------------------------------------------

  predicate ValidAssert(a: RangeAssert) { ValidKey(a.prefix) && a.upto < U64_LIMIT }

  function WriteAssert(a: RangeAssert, rest: Bytes): Bytes { WriteBlob(Enc(a.prefix), WriteU64(a.upto, rest)) }

  function ParseAssert(bs: Bytes): Parsed<RangeAssert> {
    match TakeBlob(bs)
    case Fail => Fail
    case Done(prefix, bs) =>
      if DecodedKey(prefix).None? then Fail
      else match TakeU64(bs)
        case Fail => Fail
        case Done(upto, bs) => Done(RangeAssert(DecodedKey(prefix).value, upto), bs)
  }

  lemma {:induction false} AssertsAreInverse()
    ensures Inverse(WriteAssert, ParseAssert, ValidAssert)
  {
    forall x, rest | ValidAssert(x) ensures ParseAssert(WriteAssert(x, rest)) == Done(x, rest) {
      BlobCodec(Enc(x.prefix), WriteU64(x.upto, rest), []);
      DecodedKeyIsExact(Enc(x.prefix), x.prefix);
      U64Codec(x.upto, rest, []);
    }
    forall bs | ParseAssert(bs).Done?
      ensures ValidAssert(ParseAssert(bs).value) && bs == WriteAssert(ParseAssert(bs).value, ParseAssert(bs).rest)
    {
      BlobCodec([], [], bs);
      DecodedKeyIsExact(TakeBlob(bs).value, ParseAssert(bs).value.prefix);
      U64Codec(0, [], TakeBlob(bs).rest);
    }
  }

  predicate ValidId(id: nat) { id < U64_LIMIT }

  lemma {:induction false} IdsAreInverse()
    ensures Inverse(WriteU64, TakeU64, ValidId)
  {
    forall x: nat, rest | ValidId(x) ensures TakeU64(WriteU64(x, rest)) == Done(x, rest) {
      U64Codec(x, rest, []);
    }
    forall bs | TakeU64(bs).Done?
      ensures ValidId(TakeU64(bs).value) && bs == WriteU64(TakeU64(bs).value, TakeU64(bs).rest)
    {
      U64Codec(0, [], bs);
    }
  }

  // ----- submit-log records ----------------------------------------------------------------

  predicate ValidOp(op: DeviceOp) {
    match op
    case Commit(entries, asserts, evidence, _) =>
      && |entries| < U32_LIMIT && AllValid(entries, ValidEntry)
      && |asserts| < U32_LIMIT && AllValid(asserts, ValidAssert)
      && |evidence| < U32_LIMIT && AllValid(evidence, ValidId)
    case Rollback(marker) => marker < U64_LIMIT
  }

  function ModeByte(mode: SubmitMode): Byte { if mode.Unchecked? then 0 else 1 }

  function CommitBody(entries: seq<DeviceEntry>, asserts: seq<RangeAssert>, evidence: seq<nat>): Bytes {
    WriteList(entries, WriteEntry, WriteList(asserts, WriteAssert, WriteList(evidence, WriteU64, [])))
  }

  function EncodeOp(op: DeviceOp): Bytes {
    match op
    case Commit(entries, asserts, evidence, mode) =>
      [OPLOG_RECORD_VERSION] + ([0] + ([ModeByte(mode)] + CommitBody(entries, asserts, evidence)))
    case Rollback(marker) => [OPLOG_RECORD_VERSION] + ([1] + WriteU64(marker, []))
  }

  function DecodeCommit(mode: SubmitMode, bs: Bytes): Option<DeviceOp> {
    match ParseList(ParseEntry, bs)
    case Fail => None
    case Done(entries, bs) =>
      match ParseList(ParseAssert, bs)
      case Fail => None
      case Done(asserts, bs) =>
        match ParseList(TakeU64, bs)
        case Fail => None
        case Done(evidence, bs) => if bs == [] then Some(Commit(entries, asserts, evidence, mode)) else None
  }

  function DecodeMarker(bs: Bytes): Option<DeviceOp> {
    match TakeU64(bs)
    case Fail => None
    case Done(marker, bs) => if bs == [] then Some(Rollback(marker)) else None
  }

  function DecodeMode(bs: Bytes): Option<DeviceOp> {
    match Take(1, bs)
    case Fail => None
    case Done(mode, bs) => if mode[0] > 1 then None else DecodeCommit(if mode[0] == 0 then Unchecked else Checked, bs)
  }

  function DecodeKind(bs: Bytes): Option<DeviceOp> {
    match Take(1, bs)
    case Fail => None
    case Done(kind, bs) => if kind[0] == 0 then DecodeMode(bs) else if kind[0] == 1 then DecodeMarker(bs) else None
  }

  function DecodeOp(bs: Bytes): Option<DeviceOp> {
    match Take(1, bs)
    case Fail => None
    case Done(version, bs) => if version[0] != OPLOG_RECORD_VERSION then None else DecodeKind(bs)
  }

  lemma {:induction false} CommitInverse(entries: seq<DeviceEntry>, asserts: seq<RangeAssert>, evidence: seq<nat>,
                                         mode: SubmitMode)
    requires ValidOp(Commit(entries, asserts, evidence, mode))
    ensures DecodeCommit(mode, CommitBody(entries, asserts, evidence)) == Some(Commit(entries, asserts, evidence, mode))
  {
    EntriesAreInverse();
    AssertsAreInverse();
    IdsAreInverse();
    var c := WriteList(evidence, WriteU64, []);
    ListCodec(entries, WriteEntry, ParseEntry, ValidEntry, WriteList(asserts, WriteAssert, c), []);
    ListCodec(asserts, WriteAssert, ParseAssert, ValidAssert, c, []);
    ListCodec(evidence, WriteU64, TakeU64, ValidId, [], []);
  }

  lemma {:induction false} CommitCanonical(mode: SubmitMode, bs: Bytes)
    requires DecodeCommit(mode, bs).Some?
    ensures var op := DecodeCommit(mode, bs).value;
      op.Commit? && ValidOp(op) && op.submitMode == mode
      && bs == CommitBody(op.entries, op.rangeAsserts, op.evidence)
  {
    EntriesAreInverse();
    AssertsAreInverse();
    IdsAreInverse();
    ListCodec([], WriteEntry, ParseEntry, ValidEntry, [], bs);
    var b1 := ParseList(ParseEntry, bs).rest;
    ListCodec([], WriteAssert, ParseAssert, ValidAssert, [], b1);
    var b2 := ParseList(ParseAssert, b1).rest;
    ListCodec([], WriteU64, TakeU64, ValidId, [], b2);
  }

  /** Reading one byte undoes writing one. */
  lemma {:induction false} ByteCodec(b: Byte, rest: Bytes, bs: Bytes)
    ensures Take(1, [b] + rest) == Done([b], rest)
    ensures Take(1, bs).Done? ==> |Take(1, bs).value| == 1 && bs == [Take(1, bs).value[0]] + Take(1, bs).rest
  {
    TakeInverse([b], rest);
    if Take(1, bs).Done? {
      TakeCanonical(1, bs);
      assert Take(1, bs).value == [Take(1, bs).value[0]];
    }
  }

  lemma {:induction false} ModeInverse(op: DeviceOp)
    requires ValidOp(op) && op.Commit?
    ensures DecodeMode([ModeByte(op.submitMode)] + CommitBody(op.entries, op.rangeAsserts, op.evidence)) == Some(op)
  {
    CommitInverse(op.entries, op.rangeAsserts, op.evidence, op.submitMode);
    ByteCodec(ModeByte(op.submitMode), CommitBody(op.entries, op.rangeAsserts, op.evidence), []);
  }

  lemma {:induction false} MarkerInverse(marker: nat)
    requires marker < U64_LIMIT
    ensures DecodeMarker(WriteU64(marker, [])) == Some(Rollback(marker))
  {
    U64Codec(marker, [], []);
  }

  /** Submit-log records survive storage. */
  lemma {:induction false} OpInverse(op: DeviceOp)
    requires ValidOp(op)
    ensures DecodeOp(EncodeOp(op)) == Some(op)
  {
    if op.Commit? {
      ModeInverse(op);
      var body := [ModeByte(op.submitMode)] + CommitBody(op.entries, op.rangeAsserts, op.evidence);
      ByteCodec(0, body, []);
      ByteCodec(OPLOG_RECORD_VERSION, [0] + body, []);
    } else {
      MarkerInverse(op.marker);
      ByteCodec(1, WriteU64(op.marker, []), []);
      ByteCodec(OPLOG_RECORD_VERSION, [1] + WriteU64(op.marker, []), []);
    }
  }

  lemma {:induction false} ModeCanonical(bs: Bytes)
    requires DecodeMode(bs).Some?
    ensures var op := DecodeMode(bs).value;
      op.Commit? && ValidOp(op)
        && bs == [ModeByte(op.submitMode)] + CommitBody(op.entries, op.rangeAsserts, op.evidence)
  {
    ByteCodec(0, [], bs);
    var mode, rest := Take(1, bs).value, Take(1, bs).rest;
    var submitMode := if mode[0] == 0 then Unchecked else Checked;
    CommitCanonical(submitMode, rest);
    var op := DecodeCommit(submitMode, rest).value;
    SamePrefix(bs, mode[0], rest, ModeByte(submitMode), CommitBody(op.entries, op.rangeAsserts, op.evidence));
  }

  lemma {:induction false} SamePrefix(bs: Bytes, b: Byte, rest: Bytes, b': Byte, rest': Bytes)
    requires bs == [b] + rest && b == b' && rest == rest'
    ensures bs == [b'] + rest'
  {}

  lemma {:induction false} MarkerCanonical(bs: Bytes)
    requires DecodeMarker(bs).Some?
    ensures var op := DecodeMarker(bs).value; op.Rollback? && ValidOp(op) && bs == WriteU64(op.marker, [])
  {
    U64Codec(0, [], bs);
  }

  lemma {:induction false} KindCanonical(bs: Bytes)
    requires DecodeKind(bs).Some?
    ensures ValidOp(DecodeKind(bs).value) && [OPLOG_RECORD_VERSION] + bs == EncodeOp(DecodeKind(bs).value)
  {
    ByteCodec(0, [], bs);
    var kind, rest := Take(1, bs).value, Take(1, bs).rest;
    if kind[0] == 0 {
      ModeCanonical(rest);
    } else {
      MarkerCanonical(rest);
    }
  }

  /** Every stored byte string that decodes is the encoding of what it decodes to. */
  lemma {:induction false} OpCanonical(bs: Bytes)
    requires DecodeOp(bs).Some?
    ensures ValidOp(DecodeOp(bs).value) && bs == EncodeOp(DecodeOp(bs).value)
  {
    ByteCodec(0, [], bs);
    KindCanonical(Take(1, bs).rest);
  }

  // ----- captured batches -------------------------------------------------------------------

  type StoredBatch = AdmittedBatch<Bytes>

  /** The redundant metadata of a stored batch agrees, as the decoder insists. */
  predicate Agrees(b: StoredBatch) {
    && |b.entries| < U32_LIMIT
    && forall i :: 0 <= i < |b.entries| ==>
                     && b.entries[i].order == AdmissionOrder(b.admissionSeq, i)
                     && b.entries[i].deviceEntry.tag.device == b.device
                     && b.entries[i].deviceEntry.tag.deviceSeq == b.deviceSeq
  }

  predicate ValidAdmitted(e: AdmittedEntry) {
    ValidEntry(e.deviceEntry) && e.order.admissionSeq < U64_LIMIT && e.order.opIndex < U32_LIMIT
  }

  predicate ValidBatch(b: StoredBatch) {
    && b.admissionSeq < U64_LIMIT && |b.device| == 16 && b.deviceSeq < U64_LIMIT && |b.checksum| == 32
    && AllValid(b.entries, ValidAdmitted) && Agrees(b)
  }

  function WriteAdmitted(e: AdmittedEntry, rest: Bytes): Bytes {
    WriteEntry(e.deviceEntry, WriteU64(e.order.admissionSeq, WriteU32(e.order.opIndex, rest)))
  }

  function ParseAdmitted(bs: Bytes): Parsed<AdmittedEntry> {
    match ParseEntry(bs)
    case Fail => Fail
    case Done(entry, bs) =>
      match TakeU64(bs)
      case Fail => Fail
      case Done(at, bs) =>
        match TakeU32(bs)
        case Fail => Fail
        case Done(index, bs) => Done(AdmittedEntry(entry, AdmissionOrder(at, index)), bs)
  }

  lemma {:induction false} AdmittedAreInverse()
    ensures Inverse(WriteAdmitted, ParseAdmitted, ValidAdmitted)
  {
    forall x, rest | ValidAdmitted(x) ensures ParseAdmitted(WriteAdmitted(x, rest)) == Done(x, rest) {
      var c := WriteU32(x.order.opIndex, rest);
      EntryInverse(x.deviceEntry, WriteU64(x.order.admissionSeq, c));
      U64Codec(x.order.admissionSeq, c, []);
      U32Codec(x.order.opIndex, rest, []);
    }
    forall bs | ParseAdmitted(bs).Done?
      ensures ValidAdmitted(ParseAdmitted(bs).value)
              && bs == WriteAdmitted(ParseAdmitted(bs).value, ParseAdmitted(bs).rest)
    {
      EntryCanonical(bs);
      var b1 := ParseEntry(bs).rest;
      U64Codec(0, [], b1);
      U32Codec(0, [], TakeU64(b1).rest);
    }
  }

  function EncodeBatch(b: StoredBatch): Bytes {
    [ADMITTED_BATCH_RECORD_VERSION] + BatchBody(b)
  }

  function BatchBody(b: StoredBatch): Bytes {
    WriteU64(b.admissionSeq, b.device + WriteU64(b.deviceSeq, b.checksum + WriteList(b.entries, WriteAdmitted, [])))
  }

  function DecodeBatchBody(bs: Bytes): Option<StoredBatch> {
    match TakeU64(bs)
    case Fail => None
    case Done(admissionSeq, bs) =>
      match Take(16, bs)
      case Fail => None
      case Done(device, bs) =>
        match TakeU64(bs)
        case Fail => None
        case Done(deviceSeq, bs) =>
          match Take(32, bs)
          case Fail => None
          case Done(checksum, bs) =>
            match ParseList(ParseAdmitted, bs)
            case Fail => None
            case Done(entries, bs) =>
              var b := AdmittedBatch(admissionSeq, device, deviceSeq, checksum, entries);
              if bs == [] && Agrees(b) then Some(b) else None
  }

  function DecodeBatch(bs: Bytes): Option<StoredBatch> {
    match Take(1, bs)
    case Fail => None
    case Done(version, bs) => if version[0] != ADMITTED_BATCH_RECORD_VERSION then None else DecodeBatchBody(bs)
  }

  lemma {:induction false} BatchBodyInverse(b: StoredBatch)
    requires ValidBatch(b)
    ensures DecodeBatchBody(BatchBody(b)) == Some(b)
  {
    AdmittedAreInverse();
    var d := WriteList(b.entries, WriteAdmitted, []);
    var c := WriteU64(b.deviceSeq, b.checksum + d);
    U64Codec(b.admissionSeq, b.device + c, []);
    TakeInverse(b.device, c);
    U64Codec(b.deviceSeq, b.checksum + d, []);
    TakeInverse(b.checksum, d);
    ListCodec(b.entries, WriteAdmitted, ParseAdmitted, ValidAdmitted, [], []);
  }

  lemma {:induction false} BatchInverse(b: StoredBatch)
    requires ValidBatch(b)
    ensures DecodeBatch(EncodeBatch(b)) == Some(b)
  {
    BatchBodyInverse(b);
    ByteCodec(ADMITTED_BATCH_RECORD_VERSION, BatchBody(b), []);
  }

  lemma {:induction false} BatchBodyCanonical(bs: Bytes)
    requires DecodeBatchBody(bs).Some?
    ensures var b := DecodeBatchBody(bs).value;
      ValidBatch(b) && bs == BatchBody(b)
  {
    AdmittedAreInverse();
    U64Codec(0, [], bs);
    var b1 := TakeU64(bs).rest;
    TakeCanonical(16, b1);
    var b2 := Take(16, b1).rest;
    U64Codec(0, [], b2);
    var b3 := TakeU64(b2).rest;
    TakeCanonical(32, b3);
    ListCodec([], WriteAdmitted, ParseAdmitted, ValidAdmitted, [], Take(32, b3).rest);
  }

  lemma {:induction false} BatchCanonical(bs: Bytes)
    requires DecodeBatch(bs).Some?
    ensures ValidBatch(DecodeBatch(bs).value) && bs == EncodeBatch(DecodeBatch(bs).value)
  {
    ByteCodec(0, [], bs);
    BatchBodyCanonical(Take(1, bs).rest);
  }
}
