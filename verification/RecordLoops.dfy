/**
 The record codecs as the loops that run (client/src/meta.rs): encoders append to
 a growing buffer, decoders advance a reader. Each is proved equal to the
 value-level codec of module RecordCodec.
 */
module RecordLoops {
  import opened Types
  import opened Codec
  import opened Keys
  import opened MetaLog
  import opened RecordCodec

  /** What a reader method owes its parser: the same verdict, and on success the same value and position. */
  ghost predicate Follows<T>(parsed: Parsed<T>, v: Option<T>, after: Bytes) {
    (v.Some? <==> parsed.Done?) && (v.Some? ==> v.value == parsed.value && after == parsed.rest)
  }

  method ReadTag(r: Reader) returns (tag: Option<DeviceTag>)
    requires r.Valid()
    modifies r
    ensures r.Valid() && Follows(ParseTag(old(r.Rest())), tag, r.Rest())
  {
    var device := r.TakeBytes(16);
    if device.None? {
      return None;
    }
    var deviceSeq := r.U64();
    if deviceSeq.None? {
      return None;
    }
    var ver := r.U64();
    if ver.None? {
      return None;
    }
    var epoch := r.U64();
    if epoch.None? {
      return None;
    }
    return Some(DeviceTag(device.value, deviceSeq.value, ver.value, epoch.value));
  }

  method ReadBlob(r: Reader) returns (blob: Option<Bytes>)
    requires r.Valid()
    modifies r
    ensures r.Valid() && Follows(TakeBlob(old(r.Rest())), blob, r.Rest())
  {
    var len := r.U32();
    if len.None? {
      return None;
    }
    blob := r.TakeBytes(len.value);
  }

  method ReadMutation(r: Reader, kind: Byte, target: Bytes) returns (m: Option<Mutation>)
    requires r.Valid()
    modifies r
    ensures r.Valid() && Follows(ParseMutation(kind, target, old(r.Rest())), m, r.Rest())
  {
    if kind == 1 {
      var value := ReadBlob(r);
      if value.None? {
        return None;
      }
      var key := DecodedKey(target);
      return if key.Some? then Some(Set(key.value, value.value)) else None;
    } else if kind == 2 {
      var key := DecodedKey(target);
      return if key.Some? then Some(Delete(key.value)) else None;
    } else if kind == 3 {
      var range := DecodeRange(target);
      return if range.Some? then Some(DeleteRange(range.value)) else None;
    }
    return None;
  }

  method ReadEntry(r: Reader) returns (entry: Option<DeviceEntry>)
    requires r.Valid()
    modifies r
    ensures r.Valid() && Follows(ParseEntry(old(r.Rest())), entry, r.Rest())
  {
    var kind := r.U8();
    if kind.None? {
      return None;
    }
    var target := ReadBlob(r);
    if target.None? {
      return None;
    }
    var tag := ReadTag(r);
    if tag.None? {
      return None;
    }
    var sealBytes := ReadBlob(r);
    if sealBytes.None? {
      return None;
    }
    var seal := DecodeSeal(sealBytes.value);
    if seal.None? {
      return None;
    }
    var mutation := ReadMutation(r, kind.value, target.value);
    if mutation.None? {
      return None;
    }
    return Some(DeviceEntry(mutation.value, tag.value, seal.value));
  }

  method ReadAssert(r: Reader) returns (a: Option<RangeAssert>)
    requires r.Valid()
    modifies r
    ensures r.Valid() && Follows(ParseAssert(old(r.Rest())), a, r.Rest())
  {
    var prefixBytes := ReadBlob(r);
    if prefixBytes.None? {
      return None;
    }
    var prefix := DecodedKey(prefixBytes.value);
    if prefix.None? {
      return None;
    }
    var upto := r.U64();
    if upto.None? {
      return None;
    }
    return Some(RangeAssert(prefix.value, upto.value));
  }

  method ReadAdmitted(r: Reader) returns (e: Option<AdmittedEntry>)
    requires r.Valid()
    modifies r
    ensures r.Valid() && Follows(ParseAdmitted(old(r.Rest())), e, r.Rest())
  {
    var entry := ReadEntry(r);
    if entry.None? {
      return None;
    }
    var at := r.U64();
    if at.None? {
      return None;
    }
    var index := r.U32();
    if index.None? {
      return None;
    }
    return Some(AdmittedEntry(entry.value, AdmissionOrder(at.value, index.value)));
  }

  // ----- counted loops ---------------------------------------------------------------

  /** The rest of a counted list in front of what has been read. */
  function After<T>(read: seq<T>, parsed: Parsed<seq<T>>): Parsed<seq<T>> {
    match parsed
    case Fail => Fail
    case Done(xs, rest) => Done(read + xs, rest)
  }

  /** One more item: either the whole list fails, or it is that item in front of one fewer. */
  lemma {:induction false} AfterStep<T>(all: Parsed<seq<T>>, read: seq<T>, n: nat, parse: Bytes -> Parsed<T>, bs: Bytes,
                                        v: Option<T>, after: Bytes)
    requires n > 0 && all == After(read, ParseMany(n, parse, bs)) && Follows(parse(bs), v, after)
    ensures v.None? ==> all.Fail?
    ensures v.Some? ==> all == After(read + [v.value], ParseMany(n - 1, parse, after))
  {
    if v.Some? && ParseMany(n - 1, parse, after).Done? {
      var xs := ParseMany(n - 1, parse, after).value;
      assert read + ([v.value] + xs) == read + [v.value] + xs;
    }
  }

  lemma {:induction false} AfterNothing<T>(parsed: Parsed<seq<T>>)
    ensures After([], parsed) == parsed
  {
    if parsed.Done? {
      assert [] + parsed.value == parsed.value;
    }
  }

  lemma {:induction false} AfterAll<T>(all: Parsed<seq<T>>, read: seq<T>, parse: Bytes -> Parsed<T>, bs: Bytes)
    requires all == After(read, ParseMany(0, parse, bs))
    ensures all == Done(read, bs)
  {
    assert read + [] == read;
  }

  method NextEntry(r: Reader, ghost parse: Bytes -> Parsed<DeviceEntry>, ghost all: Parsed<seq<DeviceEntry>>,
                   ghost read: seq<DeviceEntry>, ghost n: nat)
    returns (item: Option<DeviceEntry>)
    requires forall bs {:trigger ParseEntry(bs)} :: parse(bs) == ParseEntry(bs)
    requires r.Valid() && n > 0 && all == After(read, ParseMany(n, parse, r.Rest()))
    modifies r
    ensures r.Valid() && (item.None? ==> all.Fail?)
    ensures item.Some? ==> all == After(read + [item.value], ParseMany(n - 1, parse, r.Rest()))
  {
    ghost var before := r.Rest();
    item := ReadEntry(r);
    AfterStep(all, read, n, parse, before, item, r.Rest());
  }

  method ReadEntries(r: Reader, count: nat, ghost parse: Bytes -> Parsed<DeviceEntry>)
    returns (items: Option<seq<DeviceEntry>>)
    requires forall bs {:trigger ParseEntry(bs)} :: parse(bs) == ParseEntry(bs)
    requires r.Valid()
    modifies r
    ensures r.Valid() && Follows(ParseMany(count, parse, old(r.Rest())), items, r.Rest())
  {
    ghost var all := ParseMany(count, parse, r.Rest());
    AfterNothing(all);
    var out: seq<DeviceEntry> := [];
    var left := count;
    while left > 0
      invariant r.Valid() && all == After(out, ParseMany(left, parse, r.Rest()))
    {
      var item := NextEntry(r, parse, all, out, left);
      if item.None? {
        return None;
      }
      out := out + [item.value];
      left := left - 1;
    }
    AfterAll(all, out, parse, r.Rest());
    return Some(out);
  }

  method NextAssert(r: Reader, ghost parse: Bytes -> Parsed<RangeAssert>, ghost all: Parsed<seq<RangeAssert>>,
                    ghost read: seq<RangeAssert>, ghost n: nat)
    returns (item: Option<RangeAssert>)
    requires forall bs {:trigger ParseAssert(bs)} :: parse(bs) == ParseAssert(bs)
    requires r.Valid() && n > 0 && all == After(read, ParseMany(n, parse, r.Rest()))
    modifies r
    ensures r.Valid() && (item.None? ==> all.Fail?)
    ensures item.Some? ==> all == After(read + [item.value], ParseMany(n - 1, parse, r.Rest()))
  {
    ghost var before := r.Rest();
    item := ReadAssert(r);
    AfterStep(all, read, n, parse, before, item, r.Rest());
  }

  method ReadAsserts(r: Reader, count: nat, ghost parse: Bytes -> Parsed<RangeAssert>)
    returns (items: Option<seq<RangeAssert>>)
    requires forall bs {:trigger ParseAssert(bs)} :: parse(bs) == ParseAssert(bs)
    requires r.Valid()
    modifies r
    ensures r.Valid() && Follows(ParseMany(count, parse, old(r.Rest())), items, r.Rest())
  {
    ghost var all := ParseMany(count, parse, r.Rest());
    AfterNothing(all);
    var out: seq<RangeAssert> := [];
    var left := count;
    while left > 0
      invariant r.Valid() && all == After(out, ParseMany(left, parse, r.Rest()))
    {
      var item := NextAssert(r, parse, all, out, left);
      if item.None? {
        return None;
      }
      out := out + [item.value];
      left := left - 1;
    }
    AfterAll(all, out, parse, r.Rest());
    return Some(out);
  }

  method NextId(r: Reader, ghost parse: Bytes -> Parsed<nat>, ghost all: Parsed<seq<nat>>, ghost read: seq<nat>,
                ghost n: nat)
    returns (item: Option<nat>)
    requires forall bs {:trigger TakeU64(bs)} :: parse(bs) == TakeU64(bs)
    requires r.Valid() && n > 0 && all == After(read, ParseMany(n, parse, r.Rest()))
    modifies r
    ensures r.Valid() && (item.None? ==> all.Fail?)
    ensures item.Some? ==> all == After(read + [item.value], ParseMany(n - 1, parse, r.Rest()))
  {
    ghost var before := r.Rest();
    item := r.U64();
    AfterStep(all, read, n, parse, before, item, r.Rest());
  }

  method ReadEvidence(r: Reader, count: nat, ghost parse: Bytes -> Parsed<nat>) returns (items: Option<seq<nat>>)
    requires forall bs {:trigger TakeU64(bs)} :: parse(bs) == TakeU64(bs)
    requires r.Valid()
    modifies r
    ensures r.Valid() && Follows(ParseMany(count, parse, old(r.Rest())), items, r.Rest())
  {
    ghost var all := ParseMany(count, parse, r.Rest());
    AfterNothing(all);
    var out: seq<nat> := [];
    var left := count;
    while left > 0
      invariant r.Valid() && all == After(out, ParseMany(left, parse, r.Rest()))
    {
      var item := NextId(r, parse, all, out, left);
      if item.None? {
        return None;
      }
      out := out + [item.value];
      left := left - 1;
    }
    AfterAll(all, out, parse, r.Rest());
    return Some(out);
  }

  method NextAdmitted(r: Reader, ghost parse: Bytes -> Parsed<AdmittedEntry>, ghost all: Parsed<seq<AdmittedEntry>>,
                      ghost read: seq<AdmittedEntry>, ghost n: nat)
    returns (item: Option<AdmittedEntry>)
    requires forall bs {:trigger ParseAdmitted(bs)} :: parse(bs) == ParseAdmitted(bs)
    requires r.Valid() && n > 0 && all == After(read, ParseMany(n, parse, r.Rest()))
    modifies r
    ensures r.Valid() && (item.None? ==> all.Fail?)
    ensures item.Some? ==> all == After(read + [item.value], ParseMany(n - 1, parse, r.Rest()))
  {
    ghost var before := r.Rest();
    item := ReadAdmitted(r);
    AfterStep(all, read, n, parse, before, item, r.Rest());
  }

  method ReadAdmittedEntries(r: Reader, count: nat, ghost parse: Bytes -> Parsed<AdmittedEntry>)
    returns (items: Option<seq<AdmittedEntry>>)
    requires forall bs {:trigger ParseAdmitted(bs)} :: parse(bs) == ParseAdmitted(bs)
    requires r.Valid()
    modifies r
    ensures r.Valid() && Follows(ParseMany(count, parse, old(r.Rest())), items, r.Rest())
  {
    ghost var all := ParseMany(count, parse, r.Rest());
    AfterNothing(all);
    var out: seq<AdmittedEntry> := [];
    var left := count;
    while left > 0
      invariant r.Valid() && all == After(out, ParseMany(left, parse, r.Rest()))
    {
      var item := NextAdmitted(r, parse, all, out, left);
      if item.None? {
        return None;
      }
      out := out + [item.value];
      left := left - 1;
    }
    AfterAll(all, out, parse, r.Rest());
    return Some(out);
  }

  method ReadEntryList(r: Reader) returns (items: Option<seq<DeviceEntry>>)
    requires r.Valid()
    modifies r
    ensures r.Valid() && Follows(ParseList(ParseEntry, old(r.Rest())), items, r.Rest())
  {
    var count := r.U32();
    if count.None? {
      return None;
    }
    items := ReadEntries(r, count.value, ParseEntry);
  }

  method ReadAssertList(r: Reader) returns (items: Option<seq<RangeAssert>>)
    requires r.Valid()
    modifies r
    ensures r.Valid() && Follows(ParseList(ParseAssert, old(r.Rest())), items, r.Rest())
  {
    var count := r.U32();
    if count.None? {
      return None;
    }
    items := ReadAsserts(r, count.value, ParseAssert);
  }

  method ReadEvidenceList(r: Reader) returns (items: Option<seq<nat>>)
    requires r.Valid()
    modifies r
    ensures r.Valid() && Follows(ParseList(TakeU64, old(r.Rest())), items, r.Rest())
  {
    var count := r.U32();
    if count.None? {
      return None;
    }
    items := ReadEvidence(r, count.value, TakeU64);
  }

  method ReadAdmittedList(r: Reader) returns (items: Option<seq<AdmittedEntry>>)
    requires r.Valid()
    modifies r
    ensures r.Valid() && Follows(ParseList(ParseAdmitted, old(r.Rest())), items, r.Rest())
  {
    var count := r.U32();
    if count.None? {
      return None;
    }
    items := ReadAdmittedEntries(r, count.value, ParseAdmitted);
  }

  // ----- whole records -------------------------------------------------------------------

  method ReadCommit(r: Reader, mode: SubmitMode) returns (op: Option<DeviceOp>)
    requires r.Valid()
    modifies r
    ensures r.Valid() && op == DecodeCommit(mode, old(r.Rest()))
  {
    var entries := ReadEntryList(r);
    if entries.None? {
      return None;
    }
    var asserts := ReadAssertList(r);
    if asserts.None? {
      return None;
    }
    var evidence := ReadEvidenceList(r);
    if evidence.None? {
      return None;
    }
    if !r.AtEnd() {
      return None;
    }
    return Some(Commit(entries.value, asserts.value, evidence.value, mode));
  }

  method ReadMarker(r: Reader) returns (op: Option<DeviceOp>)
    requires r.Valid()
    modifies r
    ensures r.Valid() && op == DecodeMarker(old(r.Rest()))
  {
    var marker := r.U64();
    if marker.None? || !r.AtEnd() {
      return None;
    }
    return Some(Rollback(marker.value));
  }

  method ReadMode(r: Reader) returns (op: Option<DeviceOp>)
    requires r.Valid()
    modifies r
    ensures r.Valid() && op == DecodeMode(old(r.Rest()))
  {
    var mode := r.U8();
    if mode.None? || mode.value > 1 {
      return None;
    }
    op := ReadCommit(r, if mode.value == 0 then Unchecked else Checked);
  }

  method ReadKind(r: Reader) returns (op: Option<DeviceOp>)
    requires r.Valid()
    modifies r
    ensures r.Valid() && op == DecodeKind(old(r.Rest()))
  {
    var kind := r.U8();
    if kind.None? {
      return None;
    }
    if kind.value == 0 {
      op := ReadMode(r);
    } else if kind.value == 1 {
      op := ReadMarker(r);
    } else {
      return None;
    }
  }

  /** Decode one submit-log record. */
  method DecodeOpRecord(bytes: Bytes) returns (op: Option<DeviceOp>)
    ensures op == DecodeOp(bytes)
  {
    var r := new Reader(bytes);
    var version := r.U8();
    if version.None? || version.value != OPLOG_RECORD_VERSION {
      return None;
    }
    op := ReadKind(r);
  }

  method ReadBatchBody(r: Reader) returns (b: Option<StoredBatch>)
    requires r.Valid()
    modifies r
    ensures r.Valid() && b == DecodeBatchBody(old(r.Rest()))
  {
    var admissionSeq := r.U64();
    if admissionSeq.None? {
      return None;
    }
    var device := r.TakeBytes(16);
    if device.None? {
      return None;
    }
    var deviceSeq := r.U64();
    if deviceSeq.None? {
      return None;
    }
    var checksum := r.TakeBytes(32);
    if checksum.None? {
      return None;
    }
    var entries := ReadAdmittedList(r);
    if entries.None? || !r.AtEnd() {
      return None;
    }
    var batch := AdmittedBatch(admissionSeq.value, device.value, deviceSeq.value, checksum.value, entries.value);
    return if Agrees(batch) then Some(batch) else None;
  }

  method ReadBatch(r: Reader) returns (b: Option<StoredBatch>)
    requires r.Valid()
    modifies r
    ensures r.Valid() && b == DecodeBatch(old(r.Rest()))
  {
    var version := r.U8();
    if version.None? || version.value != ADMITTED_BATCH_RECORD_VERSION {
      return None;
    }
    b := ReadBatchBody(r);
  }

  /** Decode one captured batch. */
  method DecodeAdmittedBatch(bytes: Bytes) returns (b: Option<StoredBatch>)
    ensures b == DecodeBatch(bytes)
  {
    var r := new Reader(bytes);
    b := ReadBatch(r);
  }

  // ----- encoders --------------------------------------------------------------------------

  /** `out` holds everything of `whole` except what is still to be appended. */
  predicate Left(out: Bytes, rest: Bytes, whole: Bytes) { out + rest == whole }

  lemma {:induction false} Append(out: Bytes, piece: Bytes, rest: Bytes, whole: Bytes)
    requires Left(out, piece + rest, whole)
    ensures Left(out + piece, rest, whole)
  {
    assert (out + piece) + rest == out + (piece + rest);
  }

  method AppendBlob(out: Bytes, blob: Bytes, ghost rest: Bytes, ghost whole: Bytes) returns (next: Bytes)
    requires Left(out, WriteBlob(blob, rest), whole)
    ensures Left(next, rest, whole)
  {
    Append(out, Be(4, |blob|), blob + rest, whole);
    next := out + Be(4, |blob|);
    Append(next, blob, rest, whole);
    next := next + blob;
  }

  method AppendTag(out: Bytes, tag: DeviceTag, ghost rest: Bytes, ghost whole: Bytes) returns (next: Bytes)
    requires Left(out, WriteTag(tag, rest), whole)
    ensures Left(next, rest, whole)
  {
    ghost var c := WriteU64(tag.cipherEpoch, rest);
    ghost var b := WriteU64(tag.ver, c);
    Append(out, tag.device, WriteU64(tag.deviceSeq, b), whole);
    next := out + tag.device;
    Append(next, Be(8, tag.deviceSeq), b, whole);
    next := next + Be(8, tag.deviceSeq);
    Append(next, Be(8, tag.ver), c, whole);
    next := next + Be(8, tag.ver);
    Append(next, Be(8, tag.cipherEpoch), rest, whole);
    next := next + Be(8, tag.cipherEpoch);
  }

  method AppendEntry(out: Bytes, e: DeviceEntry, ghost rest: Bytes, ghost whole: Bytes) returns (next: Bytes)
    requires Left(out, WriteEntry(e, rest), whole)
    ensures Left(next, rest, whole)
  {
    ghost var d := WriteValue(e.mutation, rest);
    ghost var c := WriteBlob(EncodeSeal(e.seal), d);
    ghost var b := WriteTag(e.tag, c);
    Append(out, [KindOf(e.mutation)], WriteBlob(TargetBytes(e.mutation), b), whole);
    next := out + [KindOf(e.mutation)];
    next := AppendBlob(next, TargetBytes(e.mutation), b, whole);
    next := AppendTag(next, e.tag, c, whole);
    next := AppendBlob(next, EncodeSeal(e.seal), d, whole);
    if e.mutation.Set? {
      next := AppendBlob(next, e.mutation.value, rest, whole);
    }
  }

  method AppendEntries(out: Bytes, entries: seq<DeviceEntry>, ghost rest: Bytes, ghost whole: Bytes)
    returns (next: Bytes)
    requires Left(out, WriteList(entries, WriteEntry, rest), whole)
    ensures Left(next, rest, whole)
  {
    Append(out, Be(4, |entries|), WriteAll(entries, WriteEntry, rest), whole);
    next := out + Be(4, |entries|);
    assert entries[0..] == entries;
    for i := 0 to |entries|
      invariant Left(next, WriteAll(entries[i..], WriteEntry, rest), whole)
    {
      assert entries[i..][0] == entries[i] && entries[i..][1..] == entries[i + 1..];
      next := AppendEntry(next, entries[i], WriteAll(entries[i + 1..], WriteEntry, rest), whole);
    }
  }

  method AppendAsserts(out: Bytes, asserts: seq<RangeAssert>, ghost rest: Bytes, ghost whole: Bytes)
    returns (next: Bytes)
    requires Left(out, WriteList(asserts, WriteAssert, rest), whole)
    ensures Left(next, rest, whole)
  {
    Append(out, Be(4, |asserts|), WriteAll(asserts, WriteAssert, rest), whole);
    next := out + Be(4, |asserts|);
    assert asserts[0..] == asserts;
    for i := 0 to |asserts|
      invariant Left(next, WriteAll(asserts[i..], WriteAssert, rest), whole)
    {
      assert asserts[i..][0] == asserts[i] && asserts[i..][1..] == asserts[i + 1..];
      ghost var more := WriteAll(asserts[i + 1..], WriteAssert, rest);
      next := AppendBlob(next, Enc(asserts[i].prefix), WriteU64(asserts[i].upto, more), whole);
      Append(next, Be(8, asserts[i].upto), more, whole);
      next := next + Be(8, asserts[i].upto);
    }
  }

  method AppendEvidence(out: Bytes, evidence: seq<nat>, ghost rest: Bytes, ghost whole: Bytes) returns (next: Bytes)
    requires Left(out, WriteList(evidence, WriteU64, rest), whole)
    ensures Left(next, rest, whole)
  {
    Append(out, Be(4, |evidence|), WriteAll(evidence, WriteU64, rest), whole);
    next := out + Be(4, |evidence|);
    assert evidence[0..] == evidence;
    for i := 0 to |evidence|
      invariant Left(next, WriteAll(evidence[i..], WriteU64, rest), whole)
    {
      assert evidence[i..][0] == evidence[i] && evidence[i..][1..] == evidence[i + 1..];
      Append(next, Be(8, evidence[i]), WriteAll(evidence[i + 1..], WriteU64, rest), whole);
      next := next + Be(8, evidence[i]);
    }
  }

  method AppendCommitBody(out: Bytes, entries: seq<DeviceEntry>, asserts: seq<RangeAssert>, evidence: seq<nat>,
                          ghost whole: Bytes)
    returns (next: Bytes)
    requires Left(out, CommitBody(entries, asserts, evidence), whole)
    ensures next == whole
  {
    ghost var c := WriteList(evidence, WriteU64, []);
    next := AppendEntries(out, entries, WriteList(asserts, WriteAssert, c), whole);
    next := AppendAsserts(next, asserts, c, whole);
    next := AppendEvidence(next, evidence, [], whole);
    assert next + [] == next;
  }

  method AppendByte(out: Bytes, b: Byte, ghost rest: Bytes, ghost whole: Bytes) returns (next: Bytes)
    requires Left(out, [b] + rest, whole)
    ensures Left(next, rest, whole)
  {
    Append(out, [b], rest, whole);
    next := out + [b];
  }

  method AppendU64(out: Bytes, v: nat, ghost rest: Bytes, ghost whole: Bytes) returns (next: Bytes)
    requires Left(out, WriteU64(v, rest), whole)
    ensures Left(next, rest, whole)
  {
    Append(out, Be(8, v), rest, whole);
    next := out + Be(8, v);
  }

  /** Encode one submit-log record. */
  method EncodeOpRecord(op: DeviceOp) returns (out: Bytes)
    ensures out == EncodeOp(op)
  {
    ghost var whole := EncodeOp(op);
    assert Left([], whole, whole);
    match op
    case Commit(entries, asserts, evidence, mode) =>
      ghost var body := CommitBody(entries, asserts, evidence);
      out := AppendByte([], OPLOG_RECORD_VERSION, [0] + ([ModeByte(mode)] + body), whole);
      out := AppendByte(out, 0, [ModeByte(mode)] + body, whole);
      out := AppendByte(out, ModeByte(mode), body, whole);
      out := AppendCommitBody(out, entries, asserts, evidence, whole);
    case Rollback(marker) =>
      out := AppendByte([], OPLOG_RECORD_VERSION, [1] + WriteU64(marker, []), whole);
      out := AppendByte(out, 1, WriteU64(marker, []), whole);
      out := AppendU64(out, marker, [], whole);
      assert out + [] == out;
  }

  method AppendAdmitted(out: Bytes, e: AdmittedEntry, ghost rest: Bytes, ghost whole: Bytes) returns (next: Bytes)
    requires Left(out, WriteAdmitted(e, rest), whole)
    ensures Left(next, rest, whole)
  {
    ghost var c := WriteU32(e.order.opIndex, rest);
    next := AppendEntry(out, e.deviceEntry, WriteU64(e.order.admissionSeq, c), whole);
    Append(next, Be(8, e.order.admissionSeq), c, whole);
    next := next + Be(8, e.order.admissionSeq);
    Append(next, Be(4, e.order.opIndex), rest, whole);
    next := next + Be(4, e.order.opIndex);
  }

  method AppendAdmittedEntries(out: Bytes, entries: seq<AdmittedEntry>, ghost whole: Bytes) returns (next: Bytes)
    requires Left(out, WriteList(entries, WriteAdmitted, []), whole)
    ensures next == whole
  {
    Append(out, Be(4, |entries|), WriteAll(entries, WriteAdmitted, []), whole);
    next := out + Be(4, |entries|);
    assert entries[0..] == entries;
    for i := 0 to |entries|
      invariant Left(next, WriteAll(entries[i..], WriteAdmitted, []), whole)
    {
      assert entries[i..][0] == entries[i] && entries[i..][1..] == entries[i + 1..];
      next := AppendAdmitted(next, entries[i], WriteAll(entries[i + 1..], WriteAdmitted, []), whole);
    }
    assert next + [] == next;
  }

  method AppendBytes(out: Bytes, bytes: Bytes, ghost rest: Bytes, ghost whole: Bytes) returns (next: Bytes)
    requires Left(out, bytes + rest, whole)
    ensures Left(next, rest, whole)
  {
    Append(out, bytes, rest, whole);
    next := out + bytes;
  }

  /** Encode one captured batch. */
  method EncodeAdmittedBatch(b: StoredBatch) returns (out: Bytes)
    ensures out == EncodeBatch(b)
  {
    ghost var whole := EncodeBatch(b);
    ghost var d := WriteList(b.entries, WriteAdmitted, []);
    ghost var c := WriteU64(b.deviceSeq, b.checksum + d);
    assert Left([], whole, whole);
    out := AppendByte([], ADMITTED_BATCH_RECORD_VERSION, BatchBody(b), whole);
    out := AppendU64(out, b.admissionSeq, b.device + c, whole);
    out := AppendBytes(out, b.device, c, whole);
    out := AppendU64(out, b.deviceSeq, b.checksum + d, whole);
    out := AppendBytes(out, b.checksum, d, whole);
    out := AppendAdmittedEntries(out, b.entries, whole);
  }
}
