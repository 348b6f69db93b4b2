/**
 Stored range tombstones (server/src/schema.rs).

 The decoder insists that the newest event is one of the two heads. That is not
 true of every fold of events, but it is true of every tombstone a server can
 hold, because each admission number belongs to one device.
 */
module TombstoneCodec {
  import opened Types
  import opened DeviceHeads
  import opened RangeTree
  import opened AdmissionGate
  import opened Admission
  import opened Codec
  import opened RecordCodec
  import SpaceServer
  import Wire

  const RANGE_DELETE_RECORD_VERSION: Byte := 1

  function WriteHead(d: DeviceAdmission, rest: Bytes): Bytes { d.device + WriteU64(d.at, rest) }

  function WriteHeads(h: Heads, rest: Bytes): Bytes { WriteHead(h.first, WriteHead(h.second, rest)) }

  function EncodeTomb(rec: RangeRecord): Bytes {
    [RANGE_DELETE_RECORD_VERSION] + WriteTag(rec.entry.deviceEntry.tag, TombBody(rec))
  }

  function TombBody(rec: RangeRecord): Bytes {
    WriteU64(rec.entry.order.admissionSeq, WriteU32(rec.entry.order.opIndex,
      WriteHeads(rec.heads, WriteU64(rec.maxVer, WriteBlob(EncodeSeal(rec.entry.deviceEntry.seal), [])))))
  }

  function ParseHead(bs: Bytes): Parsed<DeviceAdmission> {
    match Take(16, bs)
    case Fail => Fail
    case Done(device, bs) =>
      match TakeU64(bs)
      case Fail => Fail
      case Done(at, bs) => Done(DeviceAdmission(device, at), bs)
  }

  /** Heads must be in order, of distinct devices, and not start with the second. */
  predicate HeadsSound(h: Heads) {
    && h.first.at >= h.second.at
    && (h.second.at == 0 || h.first.device != h.second.device)
    && (h.first.at != 0 || h.second.at == 0)
  }

  function ParseHeads(bs: Bytes): Parsed<Heads> {
    match ParseHead(bs)
    case Fail => Fail
    case Done(first, bs) =>
      match ParseHead(bs)
      case Fail => Fail
      case Done(second, bs) => if HeadsSound(Heads(first, second)) then Done(Heads(first, second), bs) else Fail
  }

  /** The checks that tie a decoded tombstone to its own history. */
  predicate Coherent(rec: RangeRecord) {
    var e := rec.entry;
    && (rec.heads.first == Seen(e) || rec.heads.second == Seen(e))
    && rec.heads.MaxSeq() == e.order.admissionSeq
    && e.Ver() <= rec.maxVer
  }

  function DecodeTombBody(range: Range, tag: DeviceTag, bs: Bytes): Option<RangeRecord> {
    match TakeU64(bs)
    case Fail => None
    case Done(at, bs) =>
      match TakeU32(bs)
      case Fail => None
      case Done(index, bs) =>
        match ParseHeads(bs)
        case Fail => None
        case Done(heads, bs) =>
          match TakeU64(bs)
          case Fail => None
          case Done(maxVer, bs) =>
            match TakeBlob(bs)
            case Fail => None
            case Done(seal, bs) =>
              if DecodeSeal(seal).None? || bs != [] then None
              else
                var rec := RangeRecord(
                  AdmittedEntry(DeviceEntry(DeleteRange(range), tag, DecodeSeal(seal).value),
                    AdmissionOrder(at, index)), heads, maxVer);
                if Coherent(rec) then Some(rec) else None
  }

  function DecodeTomb(range: Range, bs: Bytes): Option<RangeRecord> {
    match Take(1, bs)
    case Fail => None
    case Done(version, bs) =>
      if version[0] != RANGE_DELETE_RECORD_VERSION then None
      else match ParseTag(bs)
        case Fail => None
        case Done(tag, bs) => DecodeTombBody(range, tag, bs)
  }

  /** A record whose fields fit their columns. */
  predicate Fits(rec: RangeRecord, range: Range) {
    && rec.entry.Mutation() == DeleteRange(range)
    && ValidTag(rec.entry.deviceEntry.tag) && ValidSeal(rec.entry.deviceEntry.seal)
    && rec.entry.order.admissionSeq < U64_LIMIT && rec.entry.order.opIndex < U32_LIMIT && rec.maxVer < U64_LIMIT
    && HeadFits(rec.heads.first) && HeadFits(rec.heads.second) && HeadsSound(rec.heads)
  }

  predicate HeadFits(d: DeviceAdmission) { |d.device| == 16 && d.at < U64_LIMIT }

  lemma {:induction false} HeadInverse(d: DeviceAdmission, rest: Bytes)
    requires HeadFits(d)
    ensures ParseHead(WriteHead(d, rest)) == Done(d, rest)
  {
    TakeInverse(d.device, WriteU64(d.at, rest));
    U64Codec(d.at, rest, []);
  }

  lemma {:induction false} HeadsInverse(h: Heads, rest: Bytes)
    requires HeadFits(h.first) && HeadFits(h.second) && HeadsSound(h)
    ensures ParseHeads(WriteHeads(h, rest)) == Done(h, rest)
  {
    HeadInverse(h.first, WriteHead(h.second, rest));
    HeadInverse(h.second, rest);
  }

  lemma {:induction false} TombBodyInverse(rec: RangeRecord, range: Range)
    requires Fits(rec, range)
    ensures DecodeTombBody(range, rec.entry.deviceEntry.tag, TombBody(rec)) == if Coherent(rec) then Some(rec) else None
  {
    var e := rec.entry;
    var d := WriteBlob(EncodeSeal(e.deviceEntry.seal), []);
    var c := WriteU64(rec.maxVer, d);
    var b := WriteHeads(rec.heads, c);
    U64Codec(e.order.admissionSeq, WriteU32(e.order.opIndex, b), []);
    U32Codec(e.order.opIndex, b, []);
    HeadsInverse(rec.heads, c);
    U64Codec(rec.maxVer, d, []);
    SealInverse(e.deviceEntry.seal);
    BlobCodec(EncodeSeal(e.deviceEntry.seal), [], []);
  }

  /** A tombstone survives storage exactly when its newest event is one of its heads. */
  lemma {:induction false} SurvivesIffCoherent(rec: RangeRecord, range: Range)
    requires Fits(rec, range)
    ensures DecodeTomb(range, EncodeTomb(rec)) == if Coherent(rec) then Some(rec) else None
  {
    TombBodyInverse(rec, range);
    ByteCodec(RANGE_DELETE_RECORD_VERSION, WriteTag(rec.entry.deviceEntry.tag, TombBody(rec)), []);
    TagInverse(rec.entry.deviceEntry.tag, TombBody(rec));
  }

  // ----- which tombstones are coherent ------------------------------------------------------

  ghost predicate OneDevicePerSeq(h: seq<AdmittedEntry>) {
    forall x, y :: x in h && y in h && x.order.admissionSeq == y.order.admissionSeq ==> x.Device() == y.Device()
  }

  /** The record that folding a list of range deletes leaves, in whatever order they come. */
  function Fold(h: seq<AdmittedEntry>): RangeRecord
    requires h != []
  {
    if |h| == 1 then NewRecord(h[0]) else ObserveRecord(Fold(h[..|h| - 1]), h[|h| - 1])
  }

  function Observations(h: seq<AdmittedEntry>): seq<DeviceAdmission> {
    if h == [] then [] else Observations(h[..|h| - 1]) + [Seen(h[|h| - 1])]
  }

  lemma {:induction false} ObservedIsSeen(h: seq<AdmittedEntry>, o: DeviceAdmission)
    ensures o in Observations(h) <==> exists x :: x in h && Seen(x) == o
  {
    if h != [] {
      var g, e := h[..|h| - 1], h[|h| - 1];
      ObservedIsSeen(g, o);
      assert forall x :: x in h <==> x in g || x == e;
      assert o in Observations(h) <==> o in Observations(g) || o == Seen(e);
    }
  }

  lemma {:induction false} FoldHeads(h: seq<AdmittedEntry>)
    requires h != []
    ensures Fold(h).heads == ObserveAll(EMPTY_HEADS, Observations(h))
  {
    var g, e := h[..|h| - 1], h[|h| - 1];
    ObserveAllAppend(Observations(g), Seen(e));
    if g == [] {
      assert Observations(g) == [];
    } else {
      FoldHeads(g);
    }
  }

  /** The kept entry is the newest, and the kept version the greatest. */
  lemma {:induction false} FoldEntry(h: seq<AdmittedEntry>, x: AdmittedEntry)
    requires x in h
    ensures Fold(h).entry in h && !Fold(h).entry.order.Less(x.order)
    ensures x.Ver() <= Fold(h).maxVer && exists y :: y in h && y.Ver() == Fold(h).maxVer
  {
    var g, e := h[..|h| - 1], h[|h| - 1];
    assert forall y :: y in h <==> y in g || y == e;
    if g != [] {
      FoldEntry(g, if x in g then x else g[0]);
      FoldEntry(g, Fold(g).entry);
      var y :| y in g && y.Ver() == Fold(g).maxVer;
      assert y in h && e in h;
    } else {
      assert e in h;
    }
  }

  /** A nonzero head is something that was observed, and so is the first head as soon as anything was. */
  lemma {:induction false} HeadsComeFromHistory(obs: seq<DeviceAdmission>)
    ensures var h := ObserveAll(EMPTY_HEADS, obs);
      && (if obs == [] then h.first == NOBODY else h.first in obs)
      && (h.second in obs || h.second == NOBODY)
  {
    if obs != [] {
      var front, last := obs[..|obs| - 1], obs[|obs| - 1];
      HeadsComeFromHistory(front);
      assert forall o :: o in front ==> o in obs;
      assert last in obs;
      var h := ObserveAll(EMPTY_HEADS, front);
      assert h.first.device == last.device ==>
          DeviceAdmission(last.device, Max(h.first.at, last.at)) == (if h.first.at >= last.at then h.first else last);
      assert h.second.device == last.device ==>
          DeviceAdmission(last.device, Max(h.second.at, last.at)) ==
          (if h.second.at >= last.at then h.second else last);
    }
  }

  lemma {:induction false} ScanBounds(obs: seq<DeviceAdmission>, o: DeviceAdmission)
    requires o in obs
    ensures o.at <= Scan(obs, None)
  {
    if o != obs[|obs| - 1] {
      ScanBounds(obs[..|obs| - 1], o);
    }
  }

  /** With one device per admission number, the first head is the newest event, whatever the order of observation. */
  lemma {:induction false} FoldIsCoherent(h: seq<AdmittedEntry>)
    requires h != [] && OneDevicePerSeq(h)
    ensures Coherent(Fold(h)) && Fold(h).heads.first == Seen(Fold(h).entry)
  {
    var rec, obs := Fold(h), Observations(h);
    FoldHeads(h);
    FoldEntry(h, h[0]);
    FoldEntry(h, rec.entry);
    HeadsComeFromHistory(obs);
    HeadsAnswerLikeScan(obs, None);
    ObservedIsSeen(h, Seen(rec.entry));
    ScanBounds(obs, Seen(rec.entry));
    ObservedIsSeen(h, rec.heads.first);
    var x :| x in h && Seen(x) == rec.heads.first;
    FoldEntry(h, x);
  }

  ghost predicate EntriesFit(h: seq<AdmittedEntry>) { forall x :: x in h ==> ValidAdmitted(x) }

  ghost predicate AllDelete(h: seq<AdmittedEntry>, r: Range) { forall x :: x in h ==> x.Mutation() == DeleteRange(r) }

  lemma {:induction false} FoldFits(h: seq<AdmittedEntry>, r: Range)
    requires h != [] && AllDelete(h, r) && EntriesFit(h)
    ensures Fits(Fold(h), r)
  {
    var rec, obs := Fold(h), Observations(h);
    FoldHeads(h);
    FoldEntry(h, h[0]);
    HeadsComeFromHistory(obs);
    HeadsAnswerLikeScan(obs, None);
    forall o | o in obs ensures HeadFits(o) {
      ObservedIsSeen(h, o);
    }
  }

  /** Every fold of one range's deletes survives storage, as long as no admission number has two devices. */
  lemma {:induction false} FoldSurvives(h: seq<AdmittedEntry>, r: Range)
    requires h != [] && AllDelete(h, r) && EntriesFit(h) && OneDevicePerSeq(h)
    ensures DecodeTomb(r, EncodeTomb(Fold(h))) == Some(Fold(h))
  {
    FoldFits(h, r);
    FoldIsCoherent(h);
    SurvivesIffCoherent(Fold(h), r);
  }

  // ----- exactly which folds survive -----------------------------------------------------------

  /** The devices observed at one admission number, each once, in order of first arrival. */
  function Arrivals(obs: seq<DeviceAdmission>, at: nat): seq<DeviceId> {
    if obs == [] then []
    else
      var before, last := Arrivals(obs[..|obs| - 1], at), obs[|obs| - 1];
      before + if last.at == at && last.device !in before then [last.device] else []
  }

  function FirstTwo(devices: seq<DeviceId>): seq<DeviceId> { devices[..Min(2, |devices|)] }

  /** The device has a head at this number. */
  predicate Holds(h: Heads, d: DeviceId, at: nat) {
    h.first == DeviceAdmission(d, at) || h.second == DeviceAdmission(d, at)
  }

  /** How many of the two heads stand at this number. */
  function Standing(h: Heads, at: nat): nat {
    (if h.first.at == at then 1 else 0) + (if h.second.at == at then 1 else 0)
  }

  lemma {:induction false} HoldsStep(h: Heads, seen: DeviceAdmission, at: nat)
    requires h.Valid() && at > 0 && h.first.at <= at && seen.at <= at
    ensures Observe(h, seen).first.at <= at
    ensures seen.at < at || Standing(h, at) == 2 || Holds(h, seen.device, at) ==>
              Standing(Observe(h, seen), at) == Standing(h, at) && forall d :: Holds(Observe(h, seen), d, at) <==>
                Holds(h, d, at)
    ensures seen.at == at && Standing(h, at) < 2 && !Holds(h, seen.device, at) ==>
              && Standing(Observe(h, seen), at) == Standing(h, at) + 1
              && forall d :: Holds(Observe(h, seen), d, at) <==> Holds(h, d, at) || d == seen.device
  {}

  /** At the greatest number the heads keep the first two devices to arrive, and no later one. */
  lemma {:induction false} HeadsKeepFirstTwo(obs: seq<DeviceAdmission>, at: nat)
    requires at > 0 && forall o :: o in obs ==> o.at <= at
    ensures ObserveAll(EMPTY_HEADS, obs).Valid() && ObserveAll(EMPTY_HEADS, obs).first.at <= at
    ensures Standing(ObserveAll(EMPTY_HEADS, obs), at) == |FirstTwo(Arrivals(obs, at))|
    ensures forall d :: Holds(ObserveAll(EMPTY_HEADS, obs), d, at) <==> d in FirstTwo(Arrivals(obs, at))
  {
    if obs != [] {
      var front, last := obs[..|obs| - 1], obs[|obs| - 1];
      HeadsKeepFirstTwo(front, at);
      HoldsStep(ObserveAll(EMPTY_HEADS, front), last, at);
      var before := Arrivals(front, at);
      if last.at == at && last.device !in before {
        var now := before + [last.device];
        assert |before| < 2 ==> FirstTwo(before) == before && FirstTwo(now) == now;
        assert |before| >= 2 ==> FirstTwo(now) == FirstTwo(before);
      } else {
        assert before + [] == before;
      }
    }
  }

  /**
   Without that: a fold survives exactly when its newest event's device was one of
   the first two to arrive at the newest event's number.
   */
  lemma {:induction false} FoldSurvivesIff(h: seq<AdmittedEntry>, r: Range)
    requires h != [] && AllDelete(h, r) && EntriesFit(h) && Fold(h).entry.order.admissionSeq > 0
    ensures var newest := Fold(h).entry;
      DecodeTomb(r, EncodeTomb(Fold(h))) ==
      if newest.Device() in FirstTwo(Arrivals(Observations(h), newest.order.admissionSeq)) then Some(Fold(h)) else None
  {
    var rec, obs := Fold(h), Observations(h);
    FoldFits(h, r);
    SurvivesIffCoherent(rec, r);
    FoldHeads(h);
    FoldEntry(h, h[0]);
    FoldEntry(h, rec.entry);
    forall o | o in obs ensures o.at <= rec.entry.order.admissionSeq {
      ObservedIsSeen(h, o);
      var x :| x in h && Seen(x) == o;
      FoldEntry(h, x);
    }
    HeadsKeepFirstTwo(obs, rec.entry.order.admissionSeq);
  }

  function DeletesAt(h: seq<AdmittedEntry>, r: Range): seq<AdmittedEntry> {
    if h == [] then []
    else
      var last := h[|h| - 1];
      DeletesAt(h[..|h| - 1], r) + if DeletesExactly(r, last.Mutation()) then [last] else []
  }

  lemma {:induction false} DeletesAtMembers(h: seq<AdmittedEntry>, r: Range)
    ensures forall x :: x in DeletesAt(h, r) <==> x in h && x.Mutation() == DeleteRange(r)
  {
    if h != [] {
      var g, e := h[..|h| - 1], h[|h| - 1];
      DeletesAtMembers(g, r);
      assert forall x :: x in h <==> x in g || x == e;
    }
  }

  /** A materialized tombstone is the fold of exactly the deletes at its range. */
  lemma {:induction false} TombIsFold(h: seq<AdmittedEntry>, r: Range)
    ensures r in Materialize(h).tombs <==> DeletesAt(h, r) != []
    ensures r in Materialize(h).tombs ==> Materialize(h).tombs[r] == Fold(DeletesAt(h, r))
  {
    if h != [] {
      var g, e := h[..|h| - 1], h[|h| - 1];
      TombIsFold(g, r);
      var before := DeletesAt(g, r);
      if DeletesExactly(r, e.Mutation()) {
        assert (before + [e])[..|before|] == before;
      } else {
        assert before + [] == before;
      }
    }
  }

  /** Hence every materialized tombstone survives, over every history that gives an admission number one device. */
  lemma {:induction false} TombsSurvive(h: seq<AdmittedEntry>, r: Range)
    requires EntriesFit(h) && OneDevicePerSeq(h) && r in Materialize(h).tombs
    ensures var rec := Materialize(h).tombs[r]; DecodeTomb(r, EncodeTomb(rec)) == Some(rec)
  {
    TombIsFold(h, r);
    DeletesAtMembers(h, r);
    FoldSurvives(DeletesAt(h, r), r);
  }

  // ----- the server's own tombstones ----------------------------------------------------------

  lemma {:induction false} EntrySource(log: seq<Wire.LogBatch>, x: AdmittedEntry)
    requires SpaceServer.LogValid(log) && x in SpaceServer.Entries(log)
    ensures 1 <= x.order.admissionSeq <= |log| && x.Device() == log[x.order.admissionSeq - 1].device
  {
    var last := log[|log| - 1];
    if x in last.entries {
      assert SpaceServer.Link(log[..|log| - 1], last);
    } else {
      EntrySource(log[..|log| - 1], x);
    }
  }

  lemma {:induction false} LogHasOneDevicePerSeq(log: seq<Wire.LogBatch>)
    requires SpaceServer.LogValid(log)
    ensures OneDevicePerSeq(SpaceServer.Entries(log))
  {
    var h := SpaceServer.Entries(log);
    forall x, y | x in h && y in h && x.order.admissionSeq == y.order.admissionSeq ensures x.Device() == y.Device() {
      EntrySource(log, x);
      EntrySource(log, y);
    }
  }

  /** Every tombstone a server holds survives storage. */
  lemma {:induction false} StoredTombsSurvive(log: seq<Wire.LogBatch>, r: Range)
    requires SpaceServer.LogValid(log) && EntriesFit(SpaceServer.Entries(log))
    requires r in Materialize(SpaceServer.Entries(log)).tombs
    ensures var rec := Materialize(SpaceServer.Entries(log)).tombs[r]; DecodeTomb(r, EncodeTomb(rec)) == Some(rec)
  {
    LogHasOneDevicePerSeq(log);
    TombsSurvive(SpaceServer.Entries(log), r);
  }

  /** Three devices sharing one admission number would break the round trip. */
  lemma {:induction false} ThreeDevicesBreakRoundTrip(a: AdmittedEntry, b: AdmittedEntry, c: AdmittedEntry)
    requires a.Mutation() == b.Mutation() == c.Mutation() == DeleteRange(Full)
    requires ValidAdmitted(a) && ValidAdmitted(b) && ValidAdmitted(c)
    requires a.Device() != b.Device() && b.Device() != c.Device() && a.Device() != c.Device()
    requires a.order == AdmissionOrder(5, 0) && b.order == AdmissionOrder(5, 1) && c.order == AdmissionOrder(5, 2)
    ensures var rec := ObserveRecord(ObserveRecord(NewRecord(a), b), c);
      Fits(rec, Full) && DecodeTomb(Full, EncodeTomb(rec)) == None
  {
    SurvivesIffCoherent(ObserveRecord(ObserveRecord(NewRecord(a), b), c), Full);
  }
}
