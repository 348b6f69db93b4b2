/**
 How the auditor reads the admission log (sim/src/check.rs): header by header up to the
 high water, then a count of all rows, so that a store with a gap, a stray row or a
 device sequence that runs backwards is turned down.
 */
module AuditLog {
  import opened Types
  import opened Codec
  import opened Wire
  import opened Keys
  import opened Storage
  import opened AdmissionRows
  import S = SpaceServer

  /** The newest header of every device. */
  function LastHeads(log: seq<LogBatch>): map<DeviceId, S.DeviceRecord> {
    if log == [] then map[]
    else
      var b := log[|log| - 1];
      LastHeads(log[..|log| - 1])[b.device := S.DeviceRecord(b.deviceSeq, b.checksum)]
  }

  /** Every batch continues its device's sequence. */
  predicate SeqsAscend(log: seq<LogBatch>) {
    log == [] ||
    var front, b := log[..|log| - 1], log[|log| - 1];
    SeqsAscend(front) && (b.device in LastHeads(front) ==> LastHeads(front)[b.device].lastSeq < b.deviceSeq)
  }

  ghost predicate Numbered(data: map<Bytes, Row>, space: Bytes, log: seq<LogBatch>) {
    forall m :: 0 <= m < |log| ==> log[m].admissionSeq == m + 1 && StoresBatch(data, space, log[m])
  }

  /** The keys of one batch's rows. */
  function BatchRows(space: Bytes, b: LogBatch): set<Bytes> {
    {HeaderKey(space, b.admissionSeq)} + set k | k in BatchKeys(space, b)
  }

  function RowKeys(space: Bytes, log: seq<LogBatch>): set<Bytes> {
    if log == [] then {} else RowKeys(space, log[..|log| - 1]) + BatchRows(space, log[|log| - 1])
  }

  lemma {:induction false} BatchRowsBelong(space: Bytes, b: LogBatch, k: Bytes)
    ensures k in BatchRows(space, b) <==> Belongs(space, b, k)
  {
    var keys := BatchKeys(space, b);
    if k in keys {
      var i :| 0 <= i < |keys| && keys[i] == k;
      assert k == KeyAt(space, b, i);
    }
    if i :| 0 <= i < |b.entries| && k == KeyAt(space, b, i) {
      assert keys[i] == k;
    }
  }

  lemma {:induction false} RowKeysBelong(space: Bytes, log: seq<LogBatch>, k: Bytes)
    ensures k in RowKeys(space, log) <==> exists m :: 0 <= m < |log| && Belongs(space, log[m], k)
  {
    if log != [] {
      var front := log[..|log| - 1];
      RowKeysBelong(space, front, k);
      BatchRowsBelong(space, log[|log| - 1], k);
      if m :| 0 <= m < |front| && Belongs(space, front[m], k) {
        assert Belongs(space, log[m], k);
      }
      if m :| 0 <= m < |log| && Belongs(space, log[m], k) {
        assert m < |front| ==> Belongs(space, front[m], k);
      }
    }
  }

  lemma {:induction false} AscendingCount(keys: seq<Bytes>)
    requires forall i, j :: 0 <= i < j < |keys| ==> BytesLess(keys[i], keys[j])
    ensures |set k | k in keys| == |keys|
  {
    if keys != [] {
      var front, last := keys[..|keys| - 1], keys[|keys| - 1];
      AscendingCount(front);
      LessIrreflexive(last);
      forall i | 0 <= i < |front| ensures front[i] != last {
        assert BytesLess(keys[i], keys[|keys| - 1]);
      }
      assert (set k | k in keys) == (set k | k in front) + {last};
    }
  }

  lemma {:induction false} BatchRowCount(space: Bytes, b: LogBatch)
    requires ValidSpace(space) && Storable(b)
    ensures |BatchRows(space, b)| == 1 + |b.entries|
  {
    var keys := BatchKeys(space, b);
    BatchKeysAscend(space, b);
    AscendingCount(keys);
    HeaderIsNoOperation(space, b.admissionSeq);
    forall i | 0 <= i < |keys| ensures keys[i] != HeaderKey(space, b.admissionSeq) {
      PartsInverse(space, b.admissionSeq, i, TargetOf(b.entries[i].Mutation()));
    }
    assert {HeaderKey(space, b.admissionSeq)} !! set k | k in keys;
  }

  /** Each batch adds its own rows to the count. */
  lemma {:induction false} RowCountStep(data: map<Bytes, Row>, space: Bytes, log: seq<LogBatch>, b: LogBatch)
    requires ValidSpace(space) && Numbered(data, space, log) && Storable(b) && b.admissionSeq == |log| + 1
    ensures |RowKeys(space, log + [b])| == |RowKeys(space, log)| + 1 + |b.entries|
  {
    assert (log + [b])[..|log|] == log;
    BatchRowCount(space, b);
    forall k | k in BatchRows(space, b) ensures k !in RowKeys(space, log) {
      BatchRowsBelong(space, b, k);
      RowKeysBelong(space, log, k);
      if m :| 0 <= m < |log| && Belongs(space, log[m], k) {
        BatchKeysDiffer(space, b, log[m], k);
      }
    }
    assert RowKeys(space, log) !! BatchRows(space, b);
  }

  lemma {:induction false} BatchIsUnderLog(data: map<Bytes, Row>, space: Bytes, b: LogBatch, k: Bytes)
    requires StoresBatch(data, space, b) && Belongs(space, b, k)
    ensures k in KeysUnder(data, LogScan(space))
  {
    KeysAreScanned(space, b.admissionSeq, 0, RangeTarget(Full));
    if k != HeaderKey(space, b.admissionSeq) {
      var i :| 0 <= i < |b.entries| && k == KeyAt(space, b, i);
      assert RowAt(data, space, b, i);
      KeysAreScanned(space, b.admissionSeq, i, TargetOf(b.entries[i].Mutation()));
    }
  }

  lemma {:induction false} RowsAreUnderLog(data: map<Bytes, Row>, space: Bytes, log: seq<LogBatch>)
    requires Numbered(data, space, log)
    ensures RowKeys(space, log) <= KeysUnder(data, LogScan(space))
  {
    forall k | k in RowKeys(space, log) ensures k in KeysUnder(data, LogScan(space)) {
      RowKeysBelong(space, log, k);
      var m :| 0 <= m < |log| && Belongs(space, log[m], k);
      BatchIsUnderLog(data, space, log[m], k);
    }
  }

  /** Dense batches are the whole log exactly when their rows are all the rows. */
  lemma {:induction false} StoresIffNoMore(data: map<Bytes, Row>, space: Bytes, log: seq<LogBatch>)
    requires Numbered(data, space, log)
    ensures Stores(data, space, log) <==> |KeysUnder(data, LogScan(space))| == |RowKeys(space, log)|
  {
    var rows, all := RowKeys(space, log), KeysUnder(data, LogScan(space));
    RowsAreUnderLog(data, space, log);
    assert all == rows + (all - rows);
    if Stores(data, space, log) {
      forall k | k in all ensures k in rows {
        OldRowBelongs(data, space, log, k);
        RowKeysBelong(space, log, k);
      }
      assert all == rows;
    }
    if |all| == |rows| {
      assert all - rows == {};
      forall k | k in data && LogScan(space) <= k ensures IsHeader(space, log, k) || IsOperation(space, log, k) {
        assert k in rows;
        RowKeysBelong(space, log, k);
        var m :| 0 <= m < |log| && Belongs(space, log[m], k);
        RowIsOfLog(space, log, m, k);
      }
    }
  }

  lemma {:induction false} ListedCount(data: map<Bytes, Row>, keys: set<Bytes>, rows: seq<(Bytes, Row)>)
    requires Lists(data, keys, rows)
    ensures |rows| == |keys|
  {
    var list := KeyList(rows);
    AscendingCount(list);
    forall k ensures k in list <==> k in keys {
      if k in list {
        var i :| 0 <= i < |list| && list[i] == k;
        assert rows[i].0 == k;
      }
      if k in keys {
        var i :| 0 <= i < |rows| && rows[i].0 == k;
        assert list[i] == k;
      }
    }
    assert (set k | k in list) == keys;
  }

  /** A log whose rows the store holds, with ascending device sequences. */
  ghost predicate Passes(data: map<Bytes, Row>, space: Bytes, high: nat, log: seq<LogBatch>) {
    |log| == high && Stores(data, space, log) && SeqsAscend(log)
  }

  /** Every log that passes starts with what was read. */
  ghost predicate OnTrack(data: map<Bytes, Row>, space: Bytes, high: nat, log: seq<LogBatch>) {
    forall l :: Passes(data, space, high, l) ==> |log| <= |l| && log == l[..|log|]
  }

  /** What the auditor has established after some batches. */
  ghost predicate Auditing(data: map<Bytes, Row>, space: Bytes, high: nat, log: seq<LogBatch>,
                           heads: map<DeviceId, S.DeviceRecord>, count: nat)
  {
    && |log| <= high && Numbered(data, space, log) && SeqsAscend(log)
    && heads == LastHeads(log) && count == |RowKeys(space, log)|
    && OnTrack(data, space, high, log)
  }

  lemma {:induction false} AscendsAt(log: seq<LogBatch>, n: nat)
    requires SeqsAscend(log) && n < |log|
    ensures var front, b := log[..n], log[n]; b.device in LastHeads(front) ==>
            LastHeads(front)[b.device].lastSeq < b.deviceSeq
  {
    if n < |log| - 1 {
      AscendsAt(log[..|log| - 1], n);
      assert log[..|log| - 1][..n] == log[..n];
    }
  }

  /** The batch follows what was read. */
  ghost predicate Continues(log: seq<LogBatch>, b: Option<LogBatch>) {
    b.Some? && (b.value.device in LastHeads(log) ==> LastHeads(log)[b.value.device].lastSeq < b.value.deviceSeq)
  }

  lemma {:induction false} NextContinues(l: seq<LogBatch>, n: nat)
    requires SeqsAscend(l) && n < |l|
    ensures Continues(l[..n], Some(l[n])) && l[..n] + [l[n]] == l[..n + 1]
  {
    AscendsAt(l, n);
  }

  /** If some log passes, the batch read next is that log's next, and follows. */
  lemma {:induction false} NextOnTrack(data: map<Bytes, Row>, space: Bytes, high: nat, n: nat, b: Option<LogBatch>,
                                       l: seq<LogBatch>)
    requires n < high && Passes(data, space, high, l)
    requires forall c :: StoredAs(data, space, n + 1, c) ==> b == Some(c)
    ensures |l| == high && Continues(l[..n], b) && l[..n] + [b.value] == l[..n + 1]
  {
    NextIsRead(data, space, l, n, b);
    NextContinues(l, n);
  }

  /** A batch that does not follow means that no log passes. */
  lemma {:induction false} TrackOrNone(data: map<Bytes, Row>, space: Bytes, high: nat, log: seq<LogBatch>,
                                       b: Option<LogBatch>)
    requires |log| < high && OnTrack(data, space, high, log)
    requires forall c :: StoredAs(data, space, |log| + 1, c) ==> b == Some(c)
    ensures Continues(log, b) ==> OnTrack(data, space, high, log + [b.value])
    ensures !Continues(log, b) ==> forall l :: !Passes(data, space, high, l)
  {
    forall l | Passes(data, space, high, l)
      ensures |l| == high && Continues(log, b) && log + [b.value] == l[..|log| + 1]
    {
      NextOnTrack(data, space, high, |log|, b, l);
    }
  }

  lemma {:induction false} NumberedStep(data: map<Bytes, Row>, space: Bytes, log: seq<LogBatch>, b: LogBatch)
    requires Numbered(data, space, log) && StoredAs(data, space, |log| + 1, b)
    ensures Numbered(data, space, log + [b])
  {}

  lemma {:induction false} AuditingStep(data: map<Bytes, Row>, space: Bytes, high: nat, log: seq<LogBatch>,
                                        heads: map<DeviceId, S.DeviceRecord>, count: nat, b: LogBatch)
    requires ValidSpace(space) && |log| < high && Auditing(data, space, high, log, heads, count)
    requires StoredAs(data, space, |log| + 1, b) && Continues(log, Some(b)) && OnTrack(data, space, high, log + [b])
    ensures Auditing(data, space, high, log + [b], heads[b.device := S.DeviceRecord(b.deviceSeq, b.checksum)],
            count + 1 + |b.entries|)
  {
    assert (log + [b])[..|log|] == log;
    NumberedStep(data, space, log, b);
    RowCountStep(data, space, log, b);
  }

  /** Read the whole log from its rows: it is found exactly when the store holds one, and nothing besides. */
  method ReadLog(store: MemoryStore<Row>, space: Bytes, high: nat)
    returns (log: Option<seq<LogBatch>>, heads: map<DeviceId, S.DeviceRecord>)
    requires ValidSpace(space) && high < U64_LIMIT
    ensures log.Some? ==> Passes(store.data, space, high, log.value) && heads == LastHeads(log.value)
    ensures forall l :: Passes(store.data, space, high, l) ==> log == Some(l)
  {
    var out: seq<LogBatch> := [];
    var count: nat := 0;
    heads := map[];
    for n := 0 to high
      invariant |out| == n && Auditing(store.data, space, high, out, heads, count)
    {
      var b := ReadBatch(store, space, n + 1);
      TrackOrNone(store.data, space, high, out, b);
      if b.None? {
        return None, heads;
      }
      var batch := b.value;
      if batch.device in heads && heads[batch.device].lastSeq >= batch.deviceSeq {
        return None, heads;
      }
      AuditingStep(store.data, space, high, out, heads, count, batch);
      out, count := out + [batch], count + 1 + |batch.entries|;
      heads := heads[batch.device := S.DeviceRecord(batch.deviceSeq, batch.checksum)];
    }
    var rows := store.ScanPrefix(LogScan(space));
    ListedCount(store.data, KeysUnder(store.data, LogScan(space)), rows);
    StoresIffNoMore(store.data, space, out);
    forall l: seq<LogBatch> | Passes(store.data, space, high, l) ensures out == l {
      assert l[..high] == l;
    }
    if |rows| != count {
      return None, heads;
    }
    return Some(out), heads;
  }
}
