/**
 The admission log as stored rows (server/src/schema.rs, server/src/space/data.rs).

 A batch is one header row and one row per operation, under keys that spell the
 admission number, the operation index and the target. An operation row does not
 repeat its target: the reader takes it from the key. One prefix scan returns the
 operations of a batch in order, and a reader that checks what it finds returns
 exactly what was stored, or nothing.
 */
module AdmissionRows {
  import opened Types
  import opened Wire
  import opened Codec
  import opened Keys
  import opened Storage

  const ADMISSION_LOG: Byte := 7
  const HEADER: Byte := 0
  const OPERATION: Byte := 1

  type U32 = x: nat | x <= MAX_U32

  /** Stored values. A point row without a value is a delete. */
  datatype Row =
    | HeaderRow(device: DeviceId, deviceSeq: nat, checksum: Checksum, count: U32)
    | PointRow(tag: DeviceTag, order: AdmissionOrder, seal: Seal, value: Option<Bytes>)
    | RangeRow(tag: DeviceTag, order: AdmissionOrder, seal: Seal)

  datatype Target = PointTarget(key: Key) | RangeTarget(range: Range)

  // ----- keys -------------------------------------------------------------------------------

  function LogTuple(space: Bytes): Tuple { [space, [ADMISSION_LOG]] }

  function HeaderTuple(space: Bytes, n: nat): Tuple { [space, [ADMISSION_LOG], Be(8, n), [HEADER]] }

  function ScanTuple(space: Bytes, n: nat): Tuple { [space, [ADMISSION_LOG], Be(8, n), [OPERATION]] }

  function OpHead(space: Bytes, n: nat, i: nat): Tuple { [space, [ADMISSION_LOG], Be(8, n), [OPERATION], Be(4, i)] }

  function TargetTuple(t: Target): Tuple {
    match t
    case PointTarget(k) => [[0]] + k
    case RangeTarget(Full) => [[1]]
    case RangeTarget(Prefix(p)) => [[2]] + p
  }

  function OpTuple(space: Bytes, n: nat, i: nat, t: Target): Tuple { OpHead(space, n, i) + TargetTuple(t) }

  function LogScan(space: Bytes): Bytes { Enc(LogTuple(space)) }

  function HeaderKey(space: Bytes, n: nat): Bytes { Enc(HeaderTuple(space, n)) }

  function OpScan(space: Bytes, n: nat): Bytes { Enc(ScanTuple(space, n)) }

  function OpKey(space: Bytes, n: nat, i: nat, t: Target): Bytes { Enc(OpTuple(space, n, i, t)) }

  predicate ValidTarget(t: Target) {
    match t
    case PointTarget(k) => ValidKey(k)
    case RangeTarget(Full) => true
    case RangeTarget(Prefix(p)) => ValidKey(p)
  }

  /** The target spelled by the components after the operation index. */
  function ParseTarget(cs: Tuple): Option<Target> {
    if cs == [] || |cs[0]| != 1 then None
    else if cs[0][0] == 0 && ValidKey(cs[1..]) then Some(PointTarget(cs[1..]))
    else if cs[0][0] == 1 && cs[1..] == [] then Some(RangeTarget(Full))
    else if cs[0][0] == 2 && ValidKey(cs[1..]) then Some(RangeTarget(Prefix(cs[1..])))
    else None
  }

  datatype Parts = Parts(n: nat, i: nat, target: Target)

  function TupleParts(cs: Tuple): Option<Parts> {
    if |cs| < 6 || cs[3] != [OPERATION] || |cs[2]| != 8 || |cs[4]| != 4 then None
    else
      match ParseTarget(cs[5..])
      case None => None
      case Some(t) => Some(Parts(FromBe(cs[2]), FromBe(cs[4]), t))
  }

  /** What an operation key says about its row. */
  function OpParts(key: Bytes): Option<Parts> {
    match Parse(key, [], 0)
    case Err(_) => None
    case Ok(cs) => TupleParts(cs)
  }

  lemma {:induction false} TargetInverse(t: Target)
    requires ValidTarget(t)
    ensures ParseTarget(TargetTuple(t)) == Some(t) && ValidTuple(TargetTuple(t))
  {
    var cs := TargetTuple(t);
    match t
    case PointTarget(k) => assert cs[1..] == k;
    case RangeTarget(Full) => assert cs[1..] == [];
    case RangeTarget(Prefix(p)) => assert cs[1..] == p;
  }

  lemma {:induction false} TargetCanonical(cs: Tuple)
    requires ParseTarget(cs).Some?
    ensures ValidTarget(ParseTarget(cs).value) && TargetTuple(ParseTarget(cs).value) == cs
  {
    assert cs == [cs[0]] + cs[1..] && cs[0] == [cs[0][0]];
  }

  predicate ValidSpace(space: Bytes) { ValidComponent(space) }

  lemma {:induction false} OpTupleIsValid(space: Bytes, n: nat, i: nat, t: Target)
    requires ValidSpace(space) && ValidTarget(t)
    ensures ValidTuple(OpTuple(space, n, i, t))
  {
    TargetInverse(t);
  }

  /** An operation key says exactly what it was built from. */
  lemma {:induction false} PartsInverse(space: Bytes, n: nat, i: nat, t: Target)
    requires ValidSpace(space) && ValidTarget(t) && n < U64_LIMIT && i < U32_LIMIT
    ensures OpParts(OpKey(space, n, i, t)) == Some(Parts(n, i, t))
  {
    var cs := OpTuple(space, n, i, t);
    OpTupleIsValid(space, n, i, t);
    DecodeIsExact(OpKey(space, n, i, t), cs);
    TargetInverse(t);
    assert cs[5..] == TargetTuple(t);
    Limits();
    BeInverse(8, n);
    BeInverse(4, i);
  }

  lemma {:induction false} PrefixTuple(p: Tuple, cs: Tuple)
    ensures Enc(p) <= Enc(cs) <==> p <= cs
  {
    PrefixIsBytePrefix(p, cs);
  }

  /** A key below a batch's scan that says anything is the operation key of that batch. */
  lemma {:induction false} PartsCanonical(space: Bytes, n: nat, key: Bytes)
    requires OpScan(space, n) <= key && OpParts(key).Some? && n < U64_LIMIT
    ensures var parts := OpParts(key).value;
      parts.n == n && parts.i < U32_LIMIT && ValidTarget(parts.target) && key == OpKey(space, n, parts.i, parts.target)
  {
    var cs := Parse(key, [], 0).value;
    var parts := OpParts(key).value;
    DecodeIsExact(key, cs);
    PrefixTuple(ScanTuple(space, n), cs);
    assert cs[0] == ScanTuple(space, n)[0] && cs[1] == ScanTuple(space, n)[1] && cs[2] == ScanTuple(space, n)[2];
    Limits();
    BeInverse(8, n);
    BeCanonical(cs[4]);
    TargetCanonical(cs[5..]);
    assert cs == OpHead(space, n, parts.i) + cs[5..];
  }

  lemma {:induction false} HeaderIsNoOperation(space: Bytes, n: nat)
    requires ValidSpace(space)
    ensures OpParts(HeaderKey(space, n)).None?
  {
    DecodeIsExact(HeaderKey(space, n), HeaderTuple(space, n));
  }

  lemma {:induction false} HeadersDiffer(space: Bytes, n: nat, m: nat)
    requires n < U64_LIMIT && m < U64_LIMIT && HeaderKey(space, n) == HeaderKey(space, m)
    ensures n == m
  {
    EncodingIsInjective(HeaderTuple(space, n), HeaderTuple(space, m));
    assert HeaderTuple(space, n)[2] == HeaderTuple(space, m)[2];
    Limits();
    BeInverse(8, n);
    BeInverse(8, m);
  }

  /** Where the keys of a batch lie. */
  lemma {:induction false} KeysAreScanned(space: Bytes, n: nat, i: nat, t: Target)
    ensures OpScan(space, n) <= OpKey(space, n, i, t)
    ensures LogScan(space) <= HeaderKey(space, n) && LogScan(space) <= OpScan(space, n)
            && LogScan(space) <= OpKey(space, n, i, t)
  {
    PrefixTuple(ScanTuple(space, n), OpTuple(space, n, i, t));
    PrefixTuple(LogTuple(space), HeaderTuple(space, n));
    PrefixTuple(LogTuple(space), ScanTuple(space, n));
    PrefixTuple(LogTuple(space), OpTuple(space, n, i, t));
  }

  lemma {:induction false} ScansAreApart(space: Bytes, n: nat, m: nat, i: nat, t: Target)
    requires n < U64_LIMIT && m < U64_LIMIT
    ensures !(OpScan(space, n) <= HeaderKey(space, m))
    ensures OpScan(space, n) <= OpKey(space, m, i, t) ==> n == m
  {
    PrefixTuple(ScanTuple(space, n), HeaderTuple(space, m));
    assert ScanTuple(space, n)[3] != HeaderTuple(space, m)[3];
    var cs := OpTuple(space, m, i, t);
    PrefixTuple(ScanTuple(space, n), cs);
    Limits();
    BeInverse(8, n);
    BeInverse(8, m);
    assert cs[2] == Be(8, m);
    if ScanTuple(space, n) <= cs {
      assert ScanTuple(space, n)[2] == cs[2];
    }
  }

  // ----- key order is operation order ----------------------------------------------------------

  lemma {:induction false} LessExtends(x: Bytes, y: Bytes, s: Bytes, t: Bytes)
    requires |x| == |y| && BytesLess(x, y)
    ensures BytesLess(x + s, y + t)
  {
    if x[0] == y[0] {
      LessExtends(x[1..], y[1..], s, t);
    }
    assert (x + s)[1..] == x[1..] + s && (y + t)[1..] == y[1..] + t;
  }

  /** Fixed-width big-endian bytes compare as numbers. */
  lemma {:induction false} BeOrder(n: nat, a: nat, b: nat)
    requires a < b < Pow256(n)
    ensures BytesLess(Be(n, a), Be(n, b))
  {
    if a / 256 < b / 256 {
      BeOrder(n - 1, a / 256, b / 256);
      LessExtends(Be(n - 1, a / 256), Be(n - 1, b / 256), [a % 256], [b % 256]);
    } else {
      LessAfterCommon(Be(n - 1, a / 256), [a % 256], [b % 256]);
    }
  }

  lemma {:induction false} OperationOrder(space: Bytes, n: nat, i: nat, t: Target, j: nat, u: Target)
    requires i < j < U32_LIMIT
    ensures BytesLess(OpKey(space, n, i, t), OpKey(space, n, j, u))
  {
    Limits();
    BeOrder(4, i, j);
    var x, a, b := ScanTuple(space, n), OpTuple(space, n, i, t), OpTuple(space, n, j, u);
    assert a[..4] == x && b[..4] == x && a[4] == Be(4, i) && b[4] == Be(4, j);
    TuplesPart(x, a, b);
    EncodingPreservesOrder(a, b);
  }

  // ----- one operation row -----------------------------------------------------------------------

  function TargetOf(m: Mutation): Target {
    match m
    case DeleteRange(r) => RangeTarget(r)
    case _ => PointTarget(m.key)
  }

  function RowOf(e: AdmittedEntry): Row {
    var tag, seal := e.deviceEntry.tag, e.deviceEntry.seal;
    match e.Mutation()
    case Set(_, v) => PointRow(tag, e.order, seal, Some(v))
    case Delete(_) => PointRow(tag, e.order, seal, None)
    case DeleteRange(_) => RangeRow(tag, e.order, seal)
  }

  /** The operation a row holds, with the target its key spells. */
  function EntryFrom(t: Target, row: Row): Option<AdmittedEntry> {
    match (t, row)
    case (PointTarget(k), PointRow(tag, order, seal, value)) =>
      Some(AdmittedEntry(DeviceEntry(if value.Some? then Set(k, value.value) else Delete(k), tag, seal), order))
    case (RangeTarget(r), RangeRow(tag, order, seal)) =>
      Some(AdmittedEntry(DeviceEntry(DeleteRange(r), tag, seal), order))
    case _ => None
  }

  /** The `i`-th row found below a batch's scan, if it is what the header and its place demand. */
  function ReadRow(header: Row, n: nat, i: nat, key: Bytes, row: Row): Option<AdmittedEntry>
    requires header.HeaderRow?
  {
    var parts := OpParts(key);
    if parts.None? || parts.value.n != n || parts.value.i != i then None
    else
      var e := EntryFrom(parts.value.target, row);
      if e.Some? && e.value.Device() == header.device && e.value.deviceEntry.tag.deviceSeq == header.deviceSeq
         && e.value.order == AdmissionOrder(n, i)
      then e else None
  }

  /** An operation in its place: order and device agree with the header. */
  predicate Agrees(header: Row, n: nat, i: nat, e: AdmittedEntry)
    requires header.HeaderRow?
  {
    && e.Device() == header.device && e.deviceEntry.tag.deviceSeq == header.deviceSeq
    && e.order == AdmissionOrder(n, i) && ValidTarget(TargetOf(e.Mutation()))
  }

  lemma {:induction false} RowInverse(header: Row, space: Bytes, n: nat, i: nat, e: AdmittedEntry)
    requires header.HeaderRow? && Agrees(header, n, i, e) && ValidSpace(space) && n < U64_LIMIT && i < U32_LIMIT
    ensures ReadRow(header, n, i, OpKey(space, n, i, TargetOf(e.Mutation())), RowOf(e)) == Some(e)
  {
    PartsInverse(space, n, i, TargetOf(e.Mutation()));
  }

  lemma {:induction false} RowCanonical(header: Row, space: Bytes, n: nat, i: nat, key: Bytes, row: Row)
    requires header.HeaderRow? && OpScan(space, n) <= key && n < U64_LIMIT && ReadRow(header, n, i, key, row).Some?
    ensures var e := ReadRow(header, n, i, key, row).value;
      Agrees(header, n, i, e) && i < U32_LIMIT && key == OpKey(space, n, i, TargetOf(e.Mutation())) && row == RowOf(e)
  {
    PartsCanonical(space, n, key);
  }

  // ----- one batch -----------------------------------------------------------------------------------

  function HeaderOf(b: LogBatch): Row
    requires |b.entries| <= MAX_U32
  {
    HeaderRow(b.device, b.deviceSeq, b.checksum, |b.entries|)
  }

  function KeyAt(space: Bytes, b: LogBatch, i: nat): Bytes
    requires i < |b.entries|
  {
    OpKey(space, b.admissionSeq, i, TargetOf(b.entries[i].Mutation()))
  }

  /** A batch the log can hold: well formed, with valid keys. */
  ghost predicate Storable(b: LogBatch) {
    && 1 <= b.admissionSeq < U64_LIMIT && WellFormed(b)
    && forall i :: 0 <= i < |b.entries| ==> ValidTarget(TargetOf(b.entries[i].Mutation()))
  }

  ghost predicate RowAt(data: map<Bytes, Row>, space: Bytes, b: LogBatch, i: nat)
    requires i < |b.entries|
  {
    KeyAt(space, b, i) in data && data[KeyAt(space, b, i)] == RowOf(b.entries[i])
  }

  /** The rows of one batch, and no others below its scan. */
  ghost predicate StoresBatch(data: map<Bytes, Row>, space: Bytes, b: LogBatch) {
    && Storable(b)
    && HeaderKey(space, b.admissionSeq) in data && data[HeaderKey(space, b.admissionSeq)] == HeaderOf(b)
    && (forall i :: 0 <= i < |b.entries| ==> RowAt(data, space, b, i))
    && forall k :: k in data && OpScan(space, b.admissionSeq) <= k ==>
      exists i :: 0 <= i < |b.entries| && k == KeyAt(space, b, i)
  }

  lemma {:induction false} EmptyTogether(a: seq<Bytes>, b: seq<Bytes>)
    requires forall k :: k in a <==> k in b
    ensures a == [] <==> b == []
  {
    if a != [] {
      assert a[0] in b;
    }
    if b != [] {
      assert b[0] in a;
    }
  }

  /** Two ascending lists with the same keys are the same list. */
  lemma {:induction false} AscendingIsUnique(a: seq<Bytes>, b: seq<Bytes>)
    requires forall i, j :: 0 <= i < j < |a| ==> BytesLess(a[i], a[j])
    requires forall i, j :: 0 <= i < j < |b| ==> BytesLess(b[i], b[j])
    requires forall k :: k in a <==> k in b
    ensures a == b
  {
    EmptyTogether(a, b);
    if a != [] {
      assert a[0] in b;
      assert b[0] in a;
      var i :| 0 <= i < |b| && b[i] == a[0];
      var j :| 0 <= j < |a| && a[j] == b[0];
      if a[0] != b[0] {
        LessTransitive(a[0], a[j], b[i]);
        LessIrreflexive(a[0]);
      }
      TailKeys(a);
      TailKeys(b);
      AscendingIsUnique(a[1..], b[1..]);
      assert a == [a[0]] + a[1..] && b == [b[0]] + b[1..];
    }
  }

  lemma {:induction false} TailKeys(a: seq<Bytes>)
    requires a != [] && forall i, j :: 0 <= i < j < |a| ==> BytesLess(a[i], a[j])
    ensures forall k :: k in a[1..] <==> k in a && k != a[0]
  {
    LessIrreflexive(a[0]);
    forall k ensures k in a[1..] <==> k in a && k != a[0] {
      if k in a && k != a[0] {
        var i :| 0 <= i < |a| && a[i] == k;
        assert a[1..][i - 1] == k;
      }
      if k in a[1..] {
        var i :| 0 <= i < |a[1..]| && a[1..][i] == k;
        assert a[i + 1] == k && BytesLess(a[0], a[i + 1]);
      }
    }
  }

  function KeyList(rows: seq<(Bytes, Row)>): seq<Bytes> { seq(|rows|, i requires 0 <= i < |rows| => rows[i].0) }

  function BatchKeys(space: Bytes, b: LogBatch): seq<Bytes> {
    seq(|b.entries|, i requires 0 <= i < |b.entries| => KeyAt(space, b, i))
  }

  lemma {:induction false} BatchKeysAscend(space: Bytes, b: LogBatch)
    requires |b.entries| <= MAX_U32
    ensures var keys := BatchKeys(space, b); forall i, j :: 0 <= i < j < |keys| ==> BytesLess(keys[i], keys[j])
  {
    var keys := BatchKeys(space, b);
    forall i, j | 0 <= i < j < |keys| ensures BytesLess(keys[i], keys[j]) {
      OperationOrder(space, b.admissionSeq, i, TargetOf(b.entries[i].Mutation()), j, TargetOf(b.entries[j].Mutation()));
    }
  }

  lemma {:induction false} FoundIsOfBatch(data: map<Bytes, Row>, space: Bytes, b: LogBatch, rows: seq<(Bytes, Row)>,
                                          k: Bytes)
    requires StoresBatch(data, space, b) && Lists(data, KeysUnder(data, OpScan(space, b.admissionSeq)), rows)
             && k in KeyList(rows)
    ensures k in BatchKeys(space, b)
  {
    var i :| 0 <= i < |rows| && KeyList(rows)[i] == k;
    assert rows[i].0 in KeysUnder(data, OpScan(space, b.admissionSeq));
    var j :| 0 <= j < |b.entries| && k == KeyAt(space, b, j);
    assert BatchKeys(space, b)[j] == k;
  }

  lemma {:induction false} BatchIsFound(data: map<Bytes, Row>, space: Bytes, b: LogBatch, rows: seq<(Bytes, Row)>,
                                        k: Bytes)
    requires StoresBatch(data, space, b) && Lists(data, KeysUnder(data, OpScan(space, b.admissionSeq)), rows)
    requires k in BatchKeys(space, b)
    ensures k in KeyList(rows)
  {
    var j :| 0 <= j < |b.entries| && BatchKeys(space, b)[j] == k;
    assert RowAt(data, space, b, j);
    KeysAreScanned(space, b.admissionSeq, j, TargetOf(b.entries[j].Mutation()));
    assert k in KeysUnder(data, OpScan(space, b.admissionSeq));
    var i :| 0 <= i < |rows| && rows[i].0 == k;
    assert KeyList(rows)[i] == k;
  }

  lemma {:induction false} KeyListAscends(data: map<Bytes, Row>, keys: set<Bytes>, rows: seq<(Bytes, Row)>)
    requires Lists(data, keys, rows)
    ensures var list := KeyList(rows); forall i, j :: 0 <= i < j < |list| ==> BytesLess(list[i], list[j])
  {}

  lemma {:induction false} ScannedKeys(data: map<Bytes, Row>, space: Bytes, b: LogBatch, rows: seq<(Bytes, Row)>)
    requires StoresBatch(data, space, b) && Lists(data, KeysUnder(data, OpScan(space, b.admissionSeq)), rows)
    ensures KeyList(rows) == BatchKeys(space, b)
  {
    BatchKeysAscend(space, b);
    KeyListAscends(data, KeysUnder(data, OpScan(space, b.admissionSeq)), rows);
    forall k ensures k in KeyList(rows) <==> k in BatchKeys(space, b) {
      if k in KeyList(rows) {
        FoundIsOfBatch(data, space, b, rows, k);
      }
      if k in BatchKeys(space, b) {
        BatchIsFound(data, space, b, rows, k);
      }
    }
    AscendingIsUnique(KeyList(rows), BatchKeys(space, b));
  }

  /** The scan of a stored batch lists its operations, in order. */
  lemma {:induction false} ScanListsBatch(data: map<Bytes, Row>, space: Bytes, b: LogBatch, rows: seq<(Bytes, Row)>)
    requires StoresBatch(data, space, b) && Lists(data, KeysUnder(data, OpScan(space, b.admissionSeq)), rows)
    ensures |rows| == |b.entries|
    ensures forall i :: 0 <= i < |rows| ==> rows[i] == (KeyAt(space, b, i), RowOf(b.entries[i]))
  {
    ScannedKeys(data, space, b, rows);
    assert |KeyList(rows)| == |BatchKeys(space, b)|;
    forall i | 0 <= i < |rows| ensures rows[i] == (KeyAt(space, b, i), RowOf(b.entries[i])) {
      assert KeyList(rows)[i] == BatchKeys(space, b)[i];
      assert RowAt(data, space, b, i);
    }
  }

  lemma {:induction false} NextRow(data: map<Bytes, Row>, space: Bytes, b: LogBatch, rows: seq<(Bytes, Row)>, i: nat,
                                   header: Row)
    requires StoresBatch(data, space, b) && Lists(data, KeysUnder(data, OpScan(space, b.admissionSeq)), rows)
    requires i < |rows| && header == HeaderOf(b) && ValidSpace(space)
    ensures |rows| == |b.entries| && ReadRow(header, b.admissionSeq, i, rows[i].0, rows[i].1) == Some(b.entries[i])
  {
    ScanListsBatch(data, space, b, rows);
    assert EntryAgrees(b, i);
    RowInverse(header, space, b.admissionSeq, i, b.entries[i]);
  }

  /** The rows read so far are exactly those of the operations collected. */
  ghost predicate Collected(space: Bytes, n: nat, header: Row, rows: seq<(Bytes, Row)>, i: nat,
                            entries: seq<AdmittedEntry>) {
    && header.HeaderRow? && |entries| == i <= |rows| && i <= U32_LIMIT
    && forall j :: 0 <= j < i ==>
         && Agrees(header, n, j, entries[j])
         && rows[j] == (OpKey(space, n, j, TargetOf(entries[j].Mutation())), RowOf(entries[j]))
  }

  lemma {:induction false} CollectedIsStored(data: map<Bytes, Row>, space: Bytes, n: nat, header: Row,
                                             rows: seq<(Bytes, Row)>, entries: seq<AdmittedEntry>)
    requires 1 <= n < U64_LIMIT && HeaderKey(space, n) in data && data[HeaderKey(space, n)] == header
    requires Lists(data, KeysUnder(data, OpScan(space, n)), rows)
    requires Collected(space, n, header, rows, |rows|, entries) && |entries| == header.count
    ensures StoresBatch(data, space, AdmittedBatch(n, header.device, header.deviceSeq, header.checksum, entries))
  {
    var b := AdmittedBatch(n, header.device, header.deviceSeq, header.checksum, entries);
    forall i | 0 <= i < |entries|
      ensures EntryAgrees(b, i) && ValidTarget(TargetOf(entries[i].Mutation())) && RowAt(data, space, b, i)
    {
      assert Agrees(header, n, i, entries[i]);
    }
    forall k | k in data && OpScan(space, n) <= k ensures exists i :: 0 <= i < |b.entries| && k == KeyAt(space, b, i) {
      assert k in KeysUnder(data, OpScan(space, n));
      var i :| 0 <= i < |rows| && rows[i].0 == k;
      assert k == KeyAt(space, b, i);
    }
  }

  /** The batch stored under `n`. */
  ghost predicate StoredAs(data: map<Bytes, Row>, space: Bytes, n: nat, b: LogBatch) {
    StoresBatch(data, space, b) && b.admissionSeq == n
  }

  /** A reader that has read `i` rows is on the track of every batch the rows could belong to. */
  ghost predicate Reading(data: map<Bytes, Row>, space: Bytes, n: nat, header: Row, rows: seq<(Bytes, Row)>, i: nat,
                          entries: seq<AdmittedEntry>)
  {
    && Collected(space, n, header, rows, i, entries)
    && forall c :: StoredAs(data, space, n, c) ==> i <= |c.entries| && entries == c.entries[..i]
  }

  lemma {:induction false} ReadingStep(data: map<Bytes, Row>, space: Bytes, n: nat, header: Row,
                                       rows: seq<(Bytes, Row)>, i: nat, entries: seq<AdmittedEntry>,
                                       e: Option<AdmittedEntry>)
    requires ValidSpace(space) && n < U64_LIMIT && HeaderKey(space, n) in data && data[HeaderKey(space, n)] == header
    requires Lists(data, KeysUnder(data, OpScan(space, n)), rows) && i < |rows|
    requires Reading(data, space, n, header, rows, i, entries) && e == ReadRow(header, n, i, rows[i].0, rows[i].1)
    ensures e.Some? ==> Reading(data, space, n, header, rows, i + 1, entries + [e.value])
    ensures e.None? ==> forall c :: !StoredAs(data, space, n, c)
  {
    forall c | StoredAs(data, space, n, c)
      ensures i < |c.entries| && e == Some(c.entries[i]) && entries + [e.value] == c.entries[..i + 1]
    {
      NextRow(data, space, c, rows, i, header);
      PrefixGrows(c.entries, i);
    }
    if e.Some? {
      assert rows[i].0 in KeysUnder(data, OpScan(space, n));
      RowCanonical(header, space, n, i, rows[i].0, rows[i].1);
    }
  }

  lemma {:induction false} ReadingEnds(data: map<Bytes, Row>, space: Bytes, n: nat, header: Row,
                                       rows: seq<(Bytes, Row)>, entries: seq<AdmittedEntry>, c: LogBatch)
    requires Lists(data, KeysUnder(data, OpScan(space, n)), rows)
    requires Reading(data, space, n, header, rows, |rows|, entries) && StoredAs(data, space, n, c)
    ensures entries == c.entries
  {
    ScanListsBatch(data, space, c, rows);
    assert c.entries[..|c.entries|] == c.entries;
  }

  /**
   Read batch `n`: whatever the store holds, the result is the one batch stored under `n`, or nothing
   if there is none.
   */
  method ReadBatch(store: MemoryStore<Row>, space: Bytes, n: nat) returns (b: Option<LogBatch>)
    requires ValidSpace(space) && 1 <= n < U64_LIMIT
    ensures b.Some? ==> StoredAs(store.data, space, n, b.value)
    ensures forall c :: StoredAs(store.data, space, n, c) ==> b == Some(c)
  {
    var found := store.Get(HeaderKey(space, n));
    if found.None? || !found.value.HeaderRow? {
      return None;
    }
    var header := found.value;
    var rows := store.ScanPrefix(OpScan(space, n));
    var entries := [];
    for i := 0 to |rows|
      invariant Reading(store.data, space, n, header, rows, i, entries)
    {
      var e := ReadRow(header, n, i, rows[i].0, rows[i].1);
      ReadingStep(store.data, space, n, header, rows, i, entries, e);
      if e.None? {
        return None;
      }
      entries := entries + [e.value];
    }
    forall c | StoredAs(store.data, space, n, c) ensures entries == c.entries {
      ReadingEnds(store.data, space, n, header, rows, entries, c);
    }
    if |entries| != header.count {
      return None;
    }
    CollectedIsStored(store.data, space, n, header, rows, entries);
    return Some(AdmittedBatch(n, header.device, header.deviceSeq, header.checksum, entries));
  }

  // ----- the whole log -----------------------------------------------------------------------------

  ghost predicate IsHeader(space: Bytes, log: seq<LogBatch>, k: Bytes) {
    exists n :: 1 <= n <= |log| && k == HeaderKey(space, n)
  }

  ghost predicate IsOperation(space: Bytes, log: seq<LogBatch>, k: Bytes) {
    exists m, i :: 0 <= m < |log| && 0 <= i < |log[m].entries| && k == KeyAt(space, log[m], i)
  }

  /** The batches of a log, numbered from one, and no other row in its key range. */
  ghost predicate Stores(data: map<Bytes, Row>, space: Bytes, log: seq<LogBatch>) {
    && (forall m :: 0 <= m < |log| ==> log[m].admissionSeq == m + 1 && StoresBatch(data, space, log[m]))
    && forall k :: k in data && LogScan(space) <= k ==> IsHeader(space, log, k) || IsOperation(space, log, k)
  }

  lemma {:induction false} StoredOnce(data: map<Bytes, Row>, space: Bytes, n: nat, b: Option<LogBatch>, c: LogBatch)
    requires (forall d :: StoredAs(data, space, n, d) ==> b == Some(d)) && StoredAs(data, space, n, c)
    ensures b == Some(c)
  {}

  /** Reading one more batch of a stored log gives the log's own. */
  lemma {:induction false} NextIsRead(data: map<Bytes, Row>, space: Bytes, log: seq<LogBatch>, n: nat,
                                      b: Option<LogBatch>)
    requires Stores(data, space, log) && n < |log| && forall c :: StoredAs(data, space, n + 1, c) ==> b == Some(c)
    ensures b == Some(log[n])
  {
    assert StoredAs(data, space, n + 1, log[n]);
    StoredOnce(data, space, n + 1, b, log[n]);
  }

  lemma {:induction false} DenseGrows(after: nat, n: nat, batches: seq<LogBatch>, b: LogBatch)
    requires Dense(PullResponse(after, n, batches)) && b.admissionSeq == n + 1 && WellFormed(b)
    ensures Dense(PullResponse(after, n + 1, batches + [b]))
  {}

  /**
   Read the batches after one cursor through another. A result is always a dense page;
   over a stored log it is that slice of the log.
   */
  method ReadInterval(store: MemoryStore<Row>, space: Bytes, after: nat, through: nat, ghost log: seq<LogBatch>)
    returns (batches: Option<seq<LogBatch>>)
    requires ValidSpace(space) && after <= through < U64_LIMIT
    ensures batches.Some? ==> Dense(PullResponse(after, through, batches.value))
    ensures Stores(store.data, space, log) && through <= |log| ==> batches == Some(log[after..through])
  {
    var out: seq<LogBatch> := [];
    ghost var stored := Stores(store.data, space, log) && through <= |log|;
    for n := after to through
      invariant Dense(PullResponse(after, n, out))
      invariant stored ==> out == log[after..n]
    {
      var b := ReadBatch(store, space, n + 1);
      if stored {
        NextIsRead(store.data, space, log, n, b);
        SliceGrows(log, after, n);
      }
      if b.None? {
        return None;
      }
      DenseGrows(after, n, out, b.value);
      out := out + [b.value];
    }
    return Some(out);
  }

  // ----- writing a batch ------------------------------------------------------------------------------

  /** The writes that add one batch: its operations, then its header. */
  function BatchOps(space: Bytes, b: LogBatch): seq<Op<Row>>
    requires |b.entries| <= MAX_U32
  {
    seq(|b.entries|, i requires 0 <= i < |b.entries| => Put(KeyAt(space, b, i), RowOf(b.entries[i])))
    + [Put(HeaderKey(space, b.admissionSeq), HeaderOf(b))]
  }

  /** A row of this batch. */
  ghost predicate Belongs(space: Bytes, b: LogBatch, k: Bytes) {
    k == HeaderKey(space, b.admissionSeq) || exists i :: 0 <= i < |b.entries| && k == KeyAt(space, b, i)
  }

  lemma {:induction false} BatchKeysDiffer(space: Bytes, b: LogBatch, c: LogBatch, k: Bytes)
    requires ValidSpace(space) && Storable(b) && Storable(c) && Belongs(space, b, k) && Belongs(space, c, k)
    ensures b.admissionSeq == c.admissionSeq
  {
    var n, m := b.admissionSeq, c.admissionSeq;
    HeaderIsNoOperation(space, n);
    HeaderIsNoOperation(space, m);
    if k == HeaderKey(space, n) && k == HeaderKey(space, m) {
      HeadersDiffer(space, n, m);
    }
    if i :| 0 <= i < |b.entries| && k == KeyAt(space, b, i) {
      PartsInverse(space, n, i, TargetOf(b.entries[i].Mutation()));
    }
    if j :| 0 <= j < |c.entries| && k == KeyAt(space, c, j) {
      PartsInverse(space, m, j, TargetOf(c.entries[j].Mutation()));
    }
  }

  lemma {:induction false} BatchOpsAreDistinct(space: Bytes, b: LogBatch)
    requires ValidSpace(space) && Storable(b)
    ensures DistinctPuts(BatchOps(space, b))
  {
    var ops, n := BatchOps(space, b), b.admissionSeq;
    HeaderIsNoOperation(space, n);
    forall i | 0 <= i < |b.entries|
      ensures OpParts(KeyAt(space, b, i)) == Some(Parts(n, i, TargetOf(b.entries[i].Mutation())))
    {
      PartsInverse(space, n, i, TargetOf(b.entries[i].Mutation()));
    }
    forall i, j | 0 <= i < j < |ops| ensures ops[i].key != ops[j].key {
      assert OpParts(ops[i].key).Some? && OpParts(ops[i].key).value.i == i;
    }
  }

  /** Writing a batch writes its rows and nothing else. */
  lemma {:induction false} BatchLands(data: map<Bytes, Row>, space: Bytes, b: LogBatch)
    requires ValidSpace(space) && Storable(b)
    ensures var data' := ApplyOps(data, BatchOps(space, b));
      && HeaderKey(space, b.admissionSeq) in data' && data'[HeaderKey(space, b.admissionSeq)] == HeaderOf(b)
      && (forall i :: 0 <= i < |b.entries| ==> RowAt(data', space, b, i))
      && forall k :: !Belongs(space, b, k) ==> (k in data' <==> k in data) && (k in data ==> data'[k] == data[k])
  {
    var ops := BatchOps(space, b);
    var data' := ApplyOps(data, ops);
    BatchOpsAreDistinct(space, b);
    PutsLand(data, ops);
    assert ops[|b.entries|] == Put(HeaderKey(space, b.admissionSeq), HeaderOf(b));
    forall i | 0 <= i < |b.entries| ensures RowAt(data', space, b, i) {
      assert ops[i] == Put(KeyAt(space, b, i), RowOf(b.entries[i]));
    }
    forall k | !Belongs(space, b, k) ensures (k in data' <==> k in data) && (k in data ==> data'[k] == data[k]) {
      forall i | 0 <= i < |ops| ensures ops[i].key != k {
        assert i < |b.entries| ==> ops[i].key == KeyAt(space, b, i);
      }
    }
  }

  lemma {:induction false} RowsBelong(space: Bytes, b: LogBatch)
    ensures Belongs(space, b, HeaderKey(space, b.admissionSeq))
    ensures forall i :: 0 <= i < |b.entries| ==> Belongs(space, b, KeyAt(space, b, i))
  {}

  /** A stored batch stays stored when another is written. */
  lemma {:induction false} OtherBatchStays(data: map<Bytes, Row>, space: Bytes, b: LogBatch, c: LogBatch)
    requires ValidSpace(space) && Storable(b) && StoresBatch(data, space, c) && b.admissionSeq != c.admissionSeq
    ensures StoresBatch(ApplyOps(data, BatchOps(space, b)), space, c)
  {
    var data', n := ApplyOps(data, BatchOps(space, b)), c.admissionSeq;
    BatchLands(data, space, b);
    RowsBelong(space, c);
    forall k | Belongs(space, c, k) ensures !Belongs(space, b, k) {
      if Belongs(space, b, k) {
        BatchKeysDiffer(space, b, c, k);
      }
    }
    forall i | 0 <= i < |c.entries| ensures RowAt(data', space, c, i) {
      assert RowAt(data, space, c, i);
    }
    forall k | k in data' && OpScan(space, n) <= k ensures exists i :: 0 <= i < |c.entries| && k == KeyAt(space, c, i) {
      NotBelow(space, b, n, k);
      assert k in data;
    }
  }

  lemma {:induction false} NotBelow(space: Bytes, b: LogBatch, n: nat, k: Bytes)
    requires Storable(b) && b.admissionSeq != n < U64_LIMIT && OpScan(space, n) <= k
    ensures !Belongs(space, b, k)
  {
    ScansAreApart(space, n, b.admissionSeq, 0, RangeTarget(Full));
    if i :| 0 <= i < |b.entries| && k == KeyAt(space, b, i) {
      ScansAreApart(space, n, b.admissionSeq, i, TargetOf(b.entries[i].Mutation()));
    }
  }

  lemma {:induction false} NewBatchIsStored(data: map<Bytes, Row>, space: Bytes, log: seq<LogBatch>, b: LogBatch)
    requires ValidSpace(space) && Stores(data, space, log) && Storable(b) && b.admissionSeq == |log| + 1
    ensures StoresBatch(ApplyOps(data, BatchOps(space, b)), space, b)
  {
    var data', n := ApplyOps(data, BatchOps(space, b)), b.admissionSeq;
    BatchLands(data, space, b);
    forall k | k in data' && OpScan(space, n) <= k ensures exists i :: 0 <= i < |b.entries| && k == KeyAt(space, b, i) {
      ScansAreApart(space, n, n, 0, RangeTarget(Full));
      if !Belongs(space, b, k) {
        KeysAreScanned(space, n, 0, RangeTarget(Full));
        assert k in data && LogScan(space) <= k;
        OldRowBelongs(data, space, log, k);
        var m :| 0 <= m < |log| && Belongs(space, log[m], k);
        NotBelow(space, log[m], n, k);
      }
    }
  }

  lemma {:induction false} OldRowBelongs(data: map<Bytes, Row>, space: Bytes, log: seq<LogBatch>, k: Bytes)
    requires Stores(data, space, log) && k in data && LogScan(space) <= k
    ensures exists m :: 0 <= m < |log| && Belongs(space, log[m], k)
  {
    assert IsHeader(space, log, k) || IsOperation(space, log, k);
    if IsHeader(space, log, k) {
      var n :| 1 <= n <= |log| && k == HeaderKey(space, n);
      assert log[n - 1].admissionSeq == n && Belongs(space, log[n - 1], k);
    } else {
      var m, i :| 0 <= m < |log| && 0 <= i < |log[m].entries| && k == KeyAt(space, log[m], i);
      assert Belongs(space, log[m], k);
    }
  }

  lemma {:induction false} RowIsOfLog(space: Bytes, log: seq<LogBatch>, m: nat, k: Bytes)
    requires m < |log| && log[m].admissionSeq == m + 1 && Belongs(space, log[m], k)
    ensures IsHeader(space, log, k) || IsOperation(space, log, k)
  {
    if k == HeaderKey(space, m + 1) {
      assert IsHeader(space, log, k);
    } else {
      var i :| 0 <= i < |log[m].entries| && k == KeyAt(space, log[m], i);
    }
  }

  /** Writing the rows of the next batch stores the log extended by it. */
  lemma {:induction false} StoresAppend(data: map<Bytes, Row>, space: Bytes, log: seq<LogBatch>, b: LogBatch)
    requires ValidSpace(space) && Stores(data, space, log) && Storable(b) && b.admissionSeq == |log| + 1
    ensures Stores(ApplyOps(data, BatchOps(space, b)), space, log + [b])
  {
    var data', now := ApplyOps(data, BatchOps(space, b)), log + [b];
    forall m | 0 <= m < |now| ensures now[m].admissionSeq == m + 1 && StoresBatch(data', space, now[m]) {
      if m < |log| {
        OtherBatchStays(data, space, b, log[m]);
      } else {
        NewBatchIsStored(data, space, log, b);
      }
    }
    BatchLands(data, space, b);
    forall k | k in data' && LogScan(space) <= k ensures IsHeader(space, now, k) || IsOperation(space, now, k) {
      if Belongs(space, b, k) {
        RowIsOfLog(space, now, |log|, k);
      } else {
        OldRowBelongs(data, space, log, k);
        var m :| 0 <= m < |log| && Belongs(space, log[m], k);
        RowIsOfLog(space, now, m, k);
      }
    }
  }

  ghost predicate NewAt(log: seq<LogBatch>, m: nat) { m < |log| && Storable(log[m]) && log[m].admissionSeq == m + 1 }

  /** The writes of the batches in `[known, m)`, in order. */
  function LogOps(space: Bytes, log: seq<LogBatch>, known: nat, m: nat): seq<Op<Row>>
    requires m <= |log| && forall i :: known <= i < m ==> NewAt(log, i)
  {
    if m <= known then []
    else
      assert NewAt(log, m - 1);
      LogOps(space, log, known, m - 1) + BatchOps(space, log[m - 1])
  }

  lemma {:induction false} LogOpsStep(space: Bytes, log: seq<LogBatch>, known: nat, m: nat)
    requires known < m <= |log| && forall i :: known <= i < m ==> NewAt(log, i)
    ensures NewAt(log, m - 1)
    ensures LogOps(space, log, known, m) == LogOps(space, log, known, m - 1) + BatchOps(space, log[m - 1])
  {
    assert NewAt(log, m - 1);
  }

  /** The writes of one more batch, applied after those before it. */
  lemma {:induction false} NewestOps(data: map<Bytes, Row>, space: Bytes, log: seq<LogBatch>, known: nat, m: nat)
    requires known < m <= |log| && forall i :: known <= i < m ==> NewAt(log, i)
    ensures NewAt(log, m - 1)
    ensures ApplyOps(data, LogOps(space, log, known, m)) ==
            ApplyOps(ApplyOps(data, LogOps(space, log, known, m - 1)), BatchOps(space, log[m - 1]))
  {
    LogOpsStep(space, log, known, m);
    ApplyConcat(data, LogOps(space, log, known, m - 1), BatchOps(space, log[m - 1]));
  }

  lemma {:induction false} StoresSame(data: map<Bytes, Row>, space: Bytes, log: seq<LogBatch>,
                                      data': map<Bytes, Row>, log': seq<LogBatch>)
    requires Stores(data, space, log) && data == data' && log == log'
    ensures Stores(data', space, log')
  {}

  lemma {:induction false} OpsStep(data: map<Bytes, Row>, space: Bytes, log: seq<LogBatch>, known: nat, m: nat)
    requires ValidSpace(space) && known < m <= |log| && forall i :: known <= i < m ==> NewAt(log, i)
    requires Stores(ApplyOps(data, LogOps(space, log, known, m - 1)), space, log[..m - 1])
    ensures Stores(ApplyOps(data, LogOps(space, log, known, m)), space, log[..m])
  {
    var data1, b := ApplyOps(data, LogOps(space, log, known, m - 1)), log[m - 1];
    NewestOps(data, space, log, known, m);
    PrefixGrows(log, m - 1);
    StoresAppend(data1, space, log[..m - 1], b);
    StoresSame(ApplyOps(data1, BatchOps(space, b)), space, log[..m - 1] + [b],
               ApplyOps(data, LogOps(space, log, known, m)), log[..m]);
  }

  /** Those writes bring the rows from the first `known` batches to the first `m`. */
  lemma {:induction false} OpsStore(data: map<Bytes, Row>, space: Bytes, log: seq<LogBatch>, known: nat, m: nat)
    requires ValidSpace(space) && known <= m <= |log| && Stores(data, space, log[..known])
    requires forall i :: known <= i < m ==> NewAt(log, i)
    ensures Stores(ApplyOps(data, LogOps(space, log, known, m)), space, log[..m])
    decreases m
  {
    if m > known {
      OpsStore(data, space, log, known, m - 1);
      OpsStep(data, space, log, known, m);
    } else {
      StoresSame(data, space, log[..known], ApplyOps(data, LogOps(space, log, known, m)), log[..m]);
    }
  }

  method CollectOps(space: Bytes, log: seq<LogBatch>, known: nat) returns (ops: seq<Op<Row>>)
    requires known <= |log| && forall m :: known <= m < |log| ==> NewAt(log, m)
    ensures ops == LogOps(space, log, known, |log|)
  {
    ops := [];
    for m := known to |log|
      invariant ops == LogOps(space, log, known, m)
    {
      assert NewAt(log, m);
      ops := ops + BatchOps(space, log[m]);
    }
  }

  /** The writes that bring the rows from the first `known` batches to the whole log. */
  method NewRows(space: Bytes, log: seq<LogBatch>, known: nat, ghost data: map<Bytes, Row>) returns (ops: seq<Op<Row>>)
    requires ValidSpace(space) && known <= |log| && Stores(data, space, log[..known])
    requires forall m :: known <= m < |log| ==> NewAt(log, m)
    ensures Stores(ApplyOps(data, ops), space, log)
  {
    ops := CollectOps(space, log, known);
    OpsStore(data, space, log, known, |log|);
    assert log[..|log|] == log;
  }
}
