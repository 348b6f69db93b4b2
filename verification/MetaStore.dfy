/**
 The durable store itself, updated in place (client/src/meta.rs), the integrity
 oracle as the loop that runs at open, and the stamping of one submission
 (client/src/space.rs).
 */
module MetaStore {
  import opened Types
  import opened Wire
  import opened MetaLog

  predicate Sorted(keys: seq<nat>) { forall i, j :: 0 <= i < j < |keys| ==> keys[i] < keys[j] }

  lemma {:induction false} HasLeast(keys: set<nat>)
    requires keys != {}
    ensures exists k :: k in keys && forall j :: j in keys ==> k <= j
  {
    var x :| x in keys;
    if keys != {x} {
      HasLeast(keys - {x});
      var k :| k in keys - {x} && forall j :: j in keys - {x} ==> k <= j;
      var least := Min(k, x);
      assert forall j :: j in keys ==> j == x || j in keys - {x};
      assert least in keys && forall j :: j in keys ==> least <= j;
    }
  }

  lemma {:induction false} SortedAppend(ks: seq<nat>, k: nat)
    requires Sorted(ks) && forall j :: j in ks ==> j < k
    ensures Sorted(ks + [k])
  {
    forall i | 0 <= i < |ks| ensures ks[i] < k {
      assert ks[i] in ks;
    }
  }

  /** The scan so far: the least keys, in order. */
  ghost predicate Scanned(keys: set<nat>, rest: set<nat>, ks: seq<nat>) {
    && rest <= keys && Sorted(ks)
    && (forall k :: k in ks <==> k in keys && k !in rest)
    && forall k, r :: k in ks && r in rest ==> k < r
  }

  lemma {:induction false} ScanStep(keys: set<nat>, rest: set<nat>, ks: seq<nat>, least: nat)
    requires Scanned(keys, rest, ks) && least in rest && forall j :: j in rest ==> least <= j
    ensures Scanned(keys, rest - {least}, ks + [least])
  {
    SortedAppend(ks, least);
    assert forall k :: k in ks + [least] <==> k in ks || k == least;
  }

  method Least(keys: set<nat>) returns (least: nat)
    requires keys != {}
    ensures least in keys && forall j :: j in keys ==> least <= j
  {
    HasLeast(keys);
    least :| least in keys && forall j :: j in keys ==> least <= j;
  }

  /** The keys of an ordered scan. */
  method ScanKeys(keys: set<nat>) returns (ks: seq<nat>)
    ensures Sorted(ks) && forall k :: k in ks <==> k in keys
  {
    ks := [];
    var rest := keys;
    while rest != {}
      invariant Scanned(keys, rest, ks)
      decreases |rest|
    {
      var least := Least(rest);
      ScanStep(keys, rest, ks, least);
      ks := ks + [least];
      rest := rest - {least};
    }
  }

  lemma {:induction false} SortedSuffix(keys: seq<nat>, i: nat, q: nat)
    requires Sorted(keys) && i < |keys| && q in keys[i..]
    ensures keys[i] <= q
  {
    var j :| 0 <= j < |keys[i..]| && keys[i..][j] == q;
    assert keys[i + j] == q;
  }

  /** Where a scan from `from` stands after `i` keys. */
  function Reached(keys: seq<nat>, from: nat, i: nat): nat
    requires i <= |keys|
  {
    if i == 0 then from else keys[i - 1] + 1
  }

  /** No row lies between where a scan stands and its next key. */
  lemma {:induction false} KeyGap<V>(log: map<nat, V>, keys: seq<nat>, from: nat, i: nat)
    requires i <= |keys| && Sorted(keys) && forall k :: k in keys <==> k in log && k >= from
    ensures Reached(keys, from, i) >= from
    ensures forall q :: q in log && q >= Reached(keys, from, i) ==> i < |keys| && keys[i] <= q
  {
    assert i > 0 ==> keys[i - 1] in keys;
    forall q | q in log && q >= Reached(keys, from, i) ensures i < |keys| && keys[i] <= q {
      assert q in keys;
      var j :| 0 <= j < |keys| && keys[j] == q;
    }
  }

  class MetaStore {
    var cursors: Cursors
    var admitCursors: Cursors
    var checksum: Checksum
    var verHigh: Option<nat>
    var oplog: map<nat, DeviceOp>
    var admits: map<nat, LogBatch>

    function State(): SpaceState
      reads this
    {
      SpaceState(cursors, admitCursors, checksum, verHigh, oplog, admits)
    }

    constructor ()
      ensures State() == FRESH
    {
      cursors, admitCursors := Cursors(1, 1, 1), Cursors(1, 1, 1);
      checksum, verHigh, oplog, admits := EMPTY_CHECKSUM, None, map[], map[];
    }

    method ReserveCommit(count: nat, asserts: seq<RangeAssert>, mode: SubmitMode) returns (r: Reservation)
      ensures r == Reserve(State(), count, asserts, mode)
    {
      var high := if verHigh.Some? then verHigh.value else 0;
      var versions := [];
      for i := 0 to count
        invariant |versions| == i && forall j :: 0 <= j < i ==> versions[j] == high + 1 + j
      {
        versions := versions + [high + 1 + i];
      }
      assert versions == VersionsAfter(high, count);
      r := Reservation(cursors.tail, if versions == [] then high else versions[|versions| - 1], versions, asserts,
        mode);
    }

    method CommitReserved(r: Reservation, entries: seq<DeviceEntry>) returns (error: Option<StoreError>)
      modifies this
      ensures State() == Stored(old(State()), CommitEntries(old(State()), r, entries))
      ensures error.None? <==> CommitEntries(old(State()), r, entries).Ok?
    {
      if |entries| != |r.versions| {
        return Some(CountMismatch);
      }
      if r.verHigh < |entries| {
        return Some(MalformedReservation);
      }
      var expectedHigh := r.verHigh - |entries|;
      var currentHigh := if verHigh.Some? then verHigh.value else 0;
      if cursors.tail != r.at || currentHigh != expectedHigh {
        return Some(StaleReservation);
      }
      oplog := oplog[r.at := Commit(entries, r.rangeAsserts, [], r.submitMode)];
      cursors := cursors.(tail := r.at + 1);
      verHigh := Some(r.verHigh);
      return None;
    }

    /** The numbers of the ordered scan up to `through`, stopping at the first newer one. */
    method QueuedThrough(through: nat) returns (deletes: set<nat>)
      ensures forall q :: q in deletes <==> q in oplog && q <= through
    {
      deletes := {};
      var queued := ScanKeys(oplog.Keys);
      var i := 0;
      while i < |queued|
        invariant 0 <= i <= |queued|
        invariant forall q :: q in deletes ==> q in oplog && q <= through
        invariant forall q :: q in oplog && q !in deletes ==> q in queued[i..]
      {
        if queued[i] > through {
          break;
        }
        deletes := deletes + {queued[i]};
        i := i + 1;
      }
      if i < |queued| {
        forall q | q in oplog && q !in deletes ensures q > through {
          SortedSuffix(queued, i, q);
        }
      }
    }

    method Trim(through: nat, confirmed: Checksum) returns (error: Option<StoreError>)
      modifies this
      ensures State() == Stored(old(State()), TrimOplog(old(State()), through, confirmed))
      ensures error.None? <==> TrimOplog(old(State()), through, confirmed).Ok?
    {
      if through < cursors.neck && confirmed != checksum {
        return Some(ChecksumChanged);
      }
      var deletes := QueuedThrough(through);
      checksum := confirmed;
      oplog := oplog - deletes;
      var advanced := Min(through + 1, cursors.tail);
      cursors := Cursors(Max(cursors.head, advanced), Max(cursors.neck, advanced), cursors.tail);
      return None;
    }

    method RollBackTo(to: nat) returns (error: Option<StoreError>)
      modifies this
      ensures State() == Stored(old(State()), RollBack(old(State()), to))
      ensures error.None? <==> RollBack(old(State()), to).Ok?
    {
      if to < cursors.neck {
        var exactPostState := cursors.neck + 1 == cursors.tail && cursors.neck in oplog
            && oplog[cursors.neck] == Rollback(to);
        if exactPostState {
          return None;
        }
      }
      if to < cursors.neck || to >= cursors.tail {
        return Some(OutsideWindow);
      }
      if cursors.tail + 1 > MAX_U64 {
        return Some(TailOverflow);
      }
      oplog := oplog[cursors.tail := Rollback(to)];
      cursors := Cursors(cursors.head, cursors.tail, cursors.tail + 1);
      return None;
    }

    method RollBackToIfUnchanged(to: nat, expected: Cursors) returns (error: Option<StoreError>)
      modifies this
      ensures State() == Stored(old(State()), RollBackIfUnchanged(old(State()), to, expected))
      ensures error.None? <==> RollBackIfUnchanged(old(State()), to, expected).Ok?
    {
      if expected.tail + 1 > MAX_U64 {
        return Some(TailOverflow);
      }
      if cursors != expected && cursors != Cursors(expected.head, expected.tail, expected.tail + 1) {
        return Some(WindowChanged);
      }
      error := RollBackTo(to);
    }

    method Append(page: PullResponse) returns (error: Option<StoreError>)
      modifies this
      ensures error.None? <==> Dense(page) && AppendFault(old(State()), page).None?
      ensures State() == if error.None? then AppendAdmits(old(State()), page) else old(State())
    {
      var malformed := ValidateDense(page);
      if malformed.Some? {
        return Some(Malformed(malformed.value));
      }
      if admitCursors.tail == 0 {
        return Some(ZeroTail);
      }
      if page.after != admitCursors.tail - 1 {
        return Some(NotAtTail);
      }
      if page.batches == [] {
        return None;
      }
      if page.through + 1 > MAX_U64 {
        return Some(TailOverflow);
      }
      var seen := 0;
      for i := 0 to |page.batches|
        invariant State() == old(State()).(admits := WithBatches(old(admits), page.batches[..i]))
        invariant seen == MaxVer(page.batches[..i])
      {
        assert page.batches[..i + 1][..i] == page.batches[..i];
        var high := GreatestVer(page.batches[i].entries);
        seen := Max(seen, high);
        admits := admits[page.batches[i].admissionSeq := page.batches[i]];
      }
      assert page.batches[..|page.batches|] == page.batches;
      admitCursors := admitCursors.(tail := page.through + 1);
      if verHigh.Some? || seen > 0 {
        verHigh := Some(Max(if verHigh.Some? then verHigh.value else 0, seen));
      }
      return None;
    }

    method Mark(to: nat) returns (error: Option<StoreError>)
      modifies this
      ensures State() == Stored(old(State()), MarkApplied(old(State()), to))
      ensures error.None? <==> MarkApplied(old(State()), to).Ok?
    {
      if to < admitCursors.neck || to > admitCursors.tail {
        return Some(OutsideWindow);
      }
      if to != admitCursors.neck {
        admitCursors := admitCursors.(neck := to);
      }
      return None;
    }

    method TrimCaptured(to: nat) returns (error: Option<StoreError>)
      modifies this
      ensures State() == Stored(old(State()), TrimAdmits(old(State()), to))
      ensures error.None? <==> TrimAdmits(old(State()), to).Ok?
    {
      if to < admitCursors.head || to > admitCursors.neck {
        return Some(OutsideWindow);
      }
      for q := admitCursors.head to to
        invariant State() == old(State()).(admits := admits)
        invariant admits == map p | p in old(admits) && !(old(admitCursors).head <= p < q) :: old(admits)[p]
      {
        admits := admits - {q};
      }
      admitCursors := admitCursors.(head := to);
      return None;
    }

    /** The records with numbers in `[from, through]`, by an ordered scan. */
    method Oplog(from: nat, through: nat) returns (rows: seq<(nat, DeviceOp)>)
      ensures rows == RowsIn(oplog, from, through + 1)
    {
      rows := [];
      if from > through {
        return;
      }
      var keys: seq<nat> := ScanKeys(set q: nat | q in oplog && q >= from);
      var i := 0;
      while i < |keys|
        invariant 0 <= i <= |keys| && Reached(keys, from, i) <= through + 1
        invariant rows == RowsIn(oplog, from, Reached(keys, from, i))
      {
        KeyGap(oplog, keys, from, i);
        if keys[i] > through {
          break;
        }
        assert keys[i] in keys;
        RowsGap(oplog, from, Reached(keys, from, i), keys[i]);
        rows := rows + [(keys[i], oplog[keys[i]])];
        i := i + 1;
      }
      KeyGap(oplog, keys, from, i);
      RowsGap(oplog, from, Reached(keys, from, i), through + 1);
    }
  }

  method GreatestVer(entries: seq<AdmittedEntry>) returns (high: nat)
    ensures high == MaxEntryVer(entries)
  {
    high := 0;
    for i := 0 to |entries|
      invariant high == MaxEntryVer(entries[..i])
    {
      assert entries[..i + 1][..i] == entries[..i];
      high := Max(high, entries[i].Ver());
    }
    assert entries[..|entries|] == entries;
  }

  // ----- the oracle run at open ----------------------------------------------------

  ghost function Window(head: nat, tail: nat): (w: set<nat>)
    requires head <= tail
    ensures |w| == tail - head && forall q :: q in w <==> head <= q < tail
    decreases tail
  {
    if head < tail then Window(head, tail - 1) + {tail - 1} else {}
  }

  lemma {:induction false} DenseByCount(head: nat, tail: nat, keys: set<nat>)
    requires head <= tail
    ensures (forall q :: q in keys <==> head <= q < tail) <==>
            |keys| == tail - head && forall q :: head <= q < tail ==> q in keys
  {
    if forall q :: q in keys <==> head <= q < tail {
      assert keys == Window(head, tail);
    }
    if |keys| == tail - head && forall q :: head <= q < tail ==> q in keys {
      SubsetOfSameSize(Window(head, tail), keys);
    }
  }

  lemma {:induction false} SubsetOfSameSize(a: set<nat>, b: set<nat>)
    requires a <= b && |a| == |b|
    ensures a == b
  {
    assert |b - a| == |b| - |a|;
  }

  method CertifyAdmits(c: Cursors, admits: map<nat, LogBatch>) returns (ok: bool)
    requires c.Ordered()
    ensures ok <==> AdmitsDense(c, admits)
  {
    DenseByCount(c.head, c.tail, admits.Keys);
    if |admits| != c.tail - c.head {
      return false;
    }
    for q := c.head to c.tail
      invariant forall p :: c.head <= p < q ==> p in admits && admits[p].admissionSeq == p && WellFormed(admits[p])
    {
      if q !in admits || admits[q].admissionSeq != q {
        return false;
      }
      var error := ValidateBatch(admits[q]);
      if error.Some? {
        return false;
      }
    }
    return true;
  }

  method CertifyRows(c: Cursors, oplog: map<nat, DeviceOp>) returns (ok: bool)
    ensures ok <==> RowsSound(c, oplog)
  {
    var rest := oplog.Keys;
    while rest != {}
      invariant rest <= oplog.Keys
      invariant forall q :: q in oplog && q !in rest ==>
                c.head <= q < c.tail && (oplog[q].Rollback? ==> oplog[q].marker < q)
      decreases |rest|
    {
      var q :| q in rest;
      if !(c.head <= q < c.tail) {
        return false;
      }
      if oplog[q].Rollback? && oplog[q].marker >= q {
        return false;
      }
      rest := rest - {q};
    }
    return true;
  }

  /** `last` holds, for each key of `es`, the version of its last operation. */
  ghost predicate LastVers(es: seq<DeviceEntry>, last: map<Key, nat>) {
    && (forall i :: 0 <= i < |es| && PointKey(es[i].mutation).Some? ==>
                      es[i].mutation.key in last && es[i].tag.ver <= last[es[i].mutation.key])
    && (forall k :: k in last ==>
      exists i :: 0 <= i < |es| && PointKey(es[i].mutation) == Some(k) && es[i].tag.ver == last[k])
  }

  lemma {:induction false} StillIncreases(es: seq<DeviceEntry>, last: map<Key, nat>, e: DeviceEntry)
    requires LastVers(es, last) && VersIncrease(es)
    requires PointKey(e.mutation).Some? && e.mutation.key in last ==> last[e.mutation.key] < e.tag.ver
    ensures VersIncrease(es + [e])
  {
    forall i | 0 <= i < |es| && SameKey(es[i], e) ensures es[i].tag.ver < e.tag.ver {
      assert PointKey(es[i].mutation).Some?;
    }
  }

  lemma {:induction false} NoLongerIncreases(es: seq<DeviceEntry>, e: DeviceEntry, i: nat)
    requires i < |es| && SameKey(es[i], e) && es[i].tag.ver >= e.tag.ver
    ensures !VersIncrease(es + [e])
  {
    var all := es + [e];
    assert all[i] == es[i] && all[|es|] == e;
  }

  lemma {:induction false} IncreaseStep(es: seq<DeviceEntry>, last: map<Key, nat>, e: DeviceEntry)
    requires LastVers(es, last) && VersIncrease(es)
    ensures VersIncrease(es + [e]) <==>
            (PointKey(e.mutation).Some? && e.mutation.key in last ==> last[e.mutation.key] < e.tag.ver)
  {
    if PointKey(e.mutation).Some? && e.mutation.key in last && last[e.mutation.key] >= e.tag.ver {
      var i :| 0 <= i < |es| && PointKey(es[i].mutation) == Some(e.mutation.key)
          && es[i].tag.ver == last[e.mutation.key];
      NoLongerIncreases(es, e, i);
    } else {
      StillIncreases(es, last, e);
    }
  }

  lemma {:induction false} LastStep(es: seq<DeviceEntry>, last: map<Key, nat>, e: DeviceEntry)
    requires LastVers(es, last)
    requires PointKey(e.mutation).Some? && e.mutation.key in last ==> last[e.mutation.key] < e.tag.ver
    ensures LastVers(es + [e], if PointKey(e.mutation).Some? then last[e.mutation.key := e.tag.ver] else last)
  {
    var all, k := es + [e], PointKey(e.mutation);
    assert forall i :: 0 <= i < |es| ==> all[i] == es[i];
    var last' := if k.Some? then last[k.value := e.tag.ver] else last;
    forall x | x in last'
      ensures exists i :: 0 <= i < |all| && PointKey(all[i].mutation) == Some(x) && all[i].tag.ver == last'[x]
    {
      if k == Some(x) {
        assert PointKey(all[|es|].mutation) == Some(x);
      } else {
        var i :| 0 <= i < |es| && PointKey(es[i].mutation) == Some(x) && es[i].tag.ver == last[x];
        assert PointKey(all[i].mutation) == Some(x);
      }
    }
  }

  lemma {:induction false} PrefixIncreases(a: seq<DeviceEntry>, b: seq<DeviceEntry>)
    requires a <= b
    ensures VersIncrease(b) ==> VersIncrease(a)
  {
    assert forall i :: 0 <= i < |a| ==> a[i] == b[i];
  }

  /** A regression in a prefix of the window is a regression of the window. */
  lemma {:induction false} PrefixOfWindow(oplog: map<nat, DeviceOp>, neck: nat, q: nat, tail: nat, n: nat)
    requires neck <= q < tail && n <= |RowEntries(oplog, q)|
    ensures VersIncrease(EntriesIn(oplog, neck, tail)) ==>
            VersIncrease(EntriesIn(oplog, neck, q) + RowEntries(oplog, q)[..n])
  {
    EntriesSplit(oplog, neck, q + 1, tail);
    PrefixIncreases(EntriesIn(oplog, neck, q) + RowEntries(oplog, q)[..n], EntriesIn(oplog, neck, tail));
  }

  /** Fold one record into the per-key versions; fails at the first regression. */
  method CertifyRow(ghost es: seq<DeviceEntry>, row: seq<DeviceEntry>, before: map<Key, nat>)
    returns (ok: bool, last: map<Key, nat>)
    requires VersIncrease(es) && LastVers(es, before)
    ensures ok ==> VersIncrease(es + row) && LastVers(es + row, last)
    ensures !ok ==> exists n :: 0 <= n <= |row| && !VersIncrease(es + row[..n])
  {
    last := before;
    assert es + row[..0] == es;
    for i := 0 to |row|
      invariant VersIncrease(es + row[..i]) && LastVers(es + row[..i], last)
    {
      var e := row[i];
      assert es + row[..i + 1] == (es + row[..i]) + [e];
      IncreaseStep(es + row[..i], last, e);
      if !e.mutation.DeleteRange? {
        if e.mutation.key in last && e.tag.ver <= last[e.mutation.key] {
          return false, last;
        }
      }
      LastStep(es + row[..i], last, e);
      if !e.mutation.DeleteRange? {
        last := last[e.mutation.key := e.tag.ver];
      }
    }
    assert row[..|row|] == row;
    return true, last;
  }

  lemma {:induction false} WindowGrows(oplog: map<nat, DeviceOp>, neck: nat, q: nat)
    requires neck <= q
    ensures EntriesIn(oplog, neck, q + 1) == EntriesIn(oplog, neck, q) + RowEntries(oplog, q)
  {}

  method CertifyVersions(neck: nat, tail: nat, oplog: map<nat, DeviceOp>) returns (ok: bool)
    requires neck <= tail
    ensures ok <==> VersIncrease(EntriesIn(oplog, neck, tail))
  {
    var last := map[];
    ghost var es: seq<DeviceEntry> := [];
    for q := neck to tail
      invariant es == EntriesIn(oplog, neck, q)
      invariant VersIncrease(es) && LastVers(es, last)
    {
      var row := RowEntries(oplog, q);
      ok, last := CertifyRow(es, row, last);
      if !ok {
        ghost var n: nat :| n <= |row| && !VersIncrease(es + row[..n]);
        PrefixOfWindow(oplog, neck, q, tail, n);
        return;
      }
      WindowGrows(oplog, neck, q);
      es := es + row;
    }
    return true;
  }

  method CertifyHigh(es: seq<DeviceEntry>, verHigh: Option<nat>) returns (ok: bool)
    ensures ok <==> VersBounded(es, verHigh)
  {
    for i := 0 to |es|
      invariant forall j :: 0 <= j < i ==> verHigh.Some? && es[j].tag.ver <= verHigh.value
    {
      if verHigh.None? || es[i].tag.ver > verHigh.value {
        assert es[i] in es;
        return false;
      }
    }
    return true;
  }

  /** The oracle accepts exactly the certified states. */
  method Certify(s: SpaceState) returns (ok: bool)
    ensures ok <==> Certified(s)
  {
    if !(s.cursors.head <= s.cursors.neck && s.cursors.neck <= s.cursors.tail) {
      return false;
    }
    if !(s.admitCursors.head <= s.admitCursors.neck && s.admitCursors.neck <= s.admitCursors.tail) {
      return false;
    }
    ok := CertifyAdmits(s.admitCursors, s.admits);
    if !ok {
      return;
    }
    ok := CertifyRows(s.cursors, s.oplog);
    if !ok {
      return;
    }
    ok := CertifyVersions(s.cursors.neck, s.cursors.tail, s.oplog);
    if !ok {
      return;
    }
    ok := CertifyHigh(EntriesIn(s.oplog, s.cursors.neck, s.cursors.tail), s.verHigh);
  }

  // ----- one submission ---------------------------------------------------------------

  /** Sealing binds the tag it was given. */
  ghost predicate BindsTag(cipher: (Mutation, DeviceTag) -> Option<DeviceEntry>) {
    forall m, t :: cipher(m, t).Some? ==> cipher(m, t).value.tag == t
  }

  /** Every mutation seals under its number and version. */
  predicate Seals(cipher: (Mutation, DeviceTag) -> Option<DeviceEntry>, device: DeviceId, at: nat, versions: seq<nat>,
                  mutations: seq<Mutation>)
    requires |versions| == |mutations|
  {
    forall i :: 0 <= i < |mutations| ==> cipher(mutations[i], DeviceTag(device, at, versions[i], 0)).Some?
  }

  /** Stamp each mutation with its reserved version and seal it. */
  method StampEntries(r: Reservation, device: DeviceId, mutations: seq<Mutation>,
                      cipher: (Mutation, DeviceTag) -> Option<DeviceEntry>)
    returns (entries: Option<seq<DeviceEntry>>)
    requires BindsTag(cipher) && |r.versions| == |mutations|
    ensures entries.Some? <==> Seals(cipher, device, r.at, r.versions, mutations)
    ensures entries.Some? ==> Stamped(r, entries.value)
    ensures entries.Some? ==> forall i :: 0 <= i < |mutations| ==>
              cipher(mutations[i], DeviceTag(device, r.at, r.versions[i], 0)) == Some(entries.value[i])
  {
    var out: seq<DeviceEntry> := [];
    for i := 0 to |mutations|
      invariant |out| == i
      invariant forall j :: 0 <= j < i ==> out[j].tag == DeviceTag(device, r.at, r.versions[j], 0)
      invariant forall j :: 0 <= j < i ==>
                cipher(mutations[j], DeviceTag(device, r.at, r.versions[j], 0)) == Some(out[j])
    {
      var entry := cipher(mutations[i], DeviceTag(device, r.at, r.versions[i], 0));
      if entry.None? {
        return None;
      }
      out := out + [entry.value];
    }
    return Some(out);
  }

  /**
   Reserve, stamp and commit one submission. If every mutation seals, the record takes the tail and the
   next versions; otherwise nothing changes.
   */
  method PersistSubmission(store: MetaStore, device: DeviceId, mutations: seq<Mutation>, asserts: seq<RangeAssert>,
                           mode: SubmitMode, cipher: (Mutation, DeviceTag) -> Option<DeviceEntry>)
    returns (committed: bool)
    requires BindsTag(cipher) && Certified(store.State())
    modifies store
    ensures Certified(store.State())
    ensures committed <==>
            Seals(cipher, device, old(store.cursors.tail), VersionsAfter(old(store.State().High()), |mutations|),
                  mutations)
    ensures !committed ==> store.State() == old(store.State())
    ensures committed ==>
              && store.cursors == old(store.cursors).(tail := old(store.cursors.tail) + 1)
              && store.verHigh == Some(old(store.State().High()) + |mutations|)
              && store.oplog.Keys == old(store.oplog.Keys) + {old(store.cursors.tail)}
              && (forall q :: q in old(store.oplog) && q != old(store.cursors.tail) ==>
                store.oplog[q] == old(store.oplog[q]))
              && var op := store.oplog[old(store.cursors.tail)];
              op.Commit? && op.rangeAsserts == asserts && op.submitMode == mode && |op.entries| == |mutations|
              && forall i :: 0 <= i < |mutations| ==>
                               cipher(mutations[i], DeviceTag(device, old(store.cursors.tail),
                                 old(store.State().High()) + 1 + i, 0)) == Some(op.entries[i])
  {
    var r := store.ReserveCommit(|mutations|, asserts, mode);
    assert Issued(r);
    var entries := StampEntries(r, device, mutations, cipher);
    if entries.None? {
      return false;
    }
    CommitKeeps(store.State(), r, entries.value);
    var error := store.CommitReserved(r, entries.value);
    return error.None?;
  }
}
