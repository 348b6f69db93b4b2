/**
 The lease index and the reservation check built on it (server/src/schema.rs,
 server/src/space/lease.rs).

 A lease at prefix P is filed under its depth and its components. One scan per
 depth finds the leases at the ancestors of a prefix, at the prefix, and below
 it, and nothing else.
 */
module LeaseIndex {
  import opened Types
  import opened Codec
  import opened Keys
  import opened Storage
  import opened Wire

  const LEASE_BY_PREFIX: Byte := 2
  const LEASE_BY_ID: Byte := 3

  /** Read leases share; everything else excludes. */
  datatype LeaseMode = Read | Write
  {
    predicate CompatibleWith(other: LeaseMode) { Read? && other.Read? }
  }

  /** `barrier` is the number of batches admitted when the lease was granted. */
  datatype LeaseRecord = LeaseRecord(id: nat, prefix: Key, mode: LeaseMode, device: DeviceId, barrier: nat,
    deadline: nat, ttl: nat)
  {
    predicate Live(now: nat) { now < deadline }
  }

  // ----- keys ------------------------------------------------------------------------------

  function DepthComponent(depth: nat): Bytes { Be(2, depth) }

  function IndexHead(space: Bytes, depth: nat): Tuple { [space, [LEASE_BY_PREFIX], DepthComponent(depth)] }

  function LeaseKey(space: Bytes, prefix: Key, id: nat): Bytes {
    Enc(IndexHead(space, |prefix|) + prefix + [Be(8, id)])
  }

  function ScanKey(space: Bytes, depth: nat, head: Tuple): Bytes { Enc(IndexHead(space, depth) + head) }

  function IdKey(space: Bytes, id: nat): Bytes { Enc([space, [LEASE_BY_ID], Be(8, id)]) }

  function IdScan(space: Bytes): Bytes { Enc([space, [LEASE_BY_ID]]) }

  lemma {:induction false} DepthIsInjective(a: nat, b: nat)
    requires a <= MAX_COMPONENTS && b <= MAX_COMPONENTS && DepthComponent(a) == DepthComponent(b)
    ensures a == b
  {
    Limits();
    BeInverse(2, a);
    BeInverse(2, b);
  }

  lemma {:induction false} HeadsAlign(a: Tuple, x: Tuple, b: Tuple, y: Tuple)
    requires |a| == |b|
    ensures a + x <= b + y <==> a == b && x <= y
  {
    if a + x <= b + y {
      assert a == (a + x)[..|a|] && b == (b + y)[..|b|];
      forall i | 0 <= i < |x| ensures i < |y| && x[i] == y[i] {
        assert (a + x)[|a| + i] == x[i] && (b + y)[|b| + i] == y[i];
      }
    }
  }

  /** A scan at one depth selects exactly the leases of that depth whose prefix extends the head. */
  lemma {:induction false} ScanSelects(space: Bytes, depth: nat, head: Tuple, prefix: Key, id: nat)
    requires |head| <= depth <= MAX_COMPONENTS && |prefix| <= MAX_COMPONENTS
    ensures ScanKey(space, depth, head) <= LeaseKey(space, prefix, id) <==> |prefix| == depth && head <= prefix
  {
    var tail := prefix + [Be(8, id)];
    PrefixIsBytePrefix(IndexHead(space, depth) + head, IndexHead(space, |prefix|) + prefix + [Be(8, id)]);
    assert IndexHead(space, |prefix|) + prefix + [Be(8, id)] == IndexHead(space, |prefix|) + tail;
    HeadsAlign(IndexHead(space, depth), head, IndexHead(space, |prefix|), tail);
    if IndexHead(space, depth) == IndexHead(space, |prefix|) {
      assert IndexHead(space, depth)[2] == DepthComponent(depth)
          && IndexHead(space, |prefix|)[2] == DepthComponent(|prefix|);
      DepthIsInjective(depth, |prefix|);
      assert head <= tail <==> head <= prefix;
    }
  }

  /** Every scan of the index stays inside it. */
  lemma {:induction false} ScanIsIndexed(space: Bytes, depth: nat, head: Tuple, k: Bytes)
    requires ScanKey(space, depth, head) <= k
    ensures Enc([space, [LEASE_BY_PREFIX]]) <= k
  {
    PrefixIsBytePrefix([space, [LEASE_BY_PREFIX]], IndexHead(space, depth) + head);
  }

  // ----- what the store holds ---------------------------------------------------------------

  /** The store's lease keys are exactly those of `leases`, under both indexes. */
  ghost predicate Indexed(data: map<Bytes, LeaseRecord>, space: Bytes, leases: set<LeaseRecord>) {
    && (forall r :: r in leases ==>
          && |r.prefix| <= MAX_COMPONENTS
          && LeaseKey(space, r.prefix, r.id) in data && data[LeaseKey(space, r.prefix, r.id)] == r
          && IdKey(space, r.id) in data && data[IdKey(space, r.id)] == r)
    && (forall k :: k in data && Enc([space, [LEASE_BY_PREFIX]]) <= k ==>
      data[k] in leases && k == LeaseKey(space, data[k].prefix, data[k].id))
    && (forall k :: k in data && IdScan(space) <= k ==> data[k] in leases && k == IdKey(space, data[k].id))
  }

  /** Every lease has its own identity. */
  ghost predicate OwnIdentities(leases: set<LeaseRecord>) {
    forall a, b :: a in leases && b in leases && a.id == b.id ==> a == b
  }

  ghost predicate Overlaps(prefix: Key, r: LeaseRecord) { Prefix(prefix).Overlaps(Prefix(r.prefix)) }

  /** The head a scan uses at one depth: shortened for ancestors, whole from the prefix down. */
  function HeadAt(prefix: Key, depth: nat): Tuple { prefix[..Min(depth, |prefix|)] }

  lemma {:induction false} OverlapByDepth(prefix: Key, other: Key)
    ensures Prefix(prefix).Overlaps(Prefix(other)) <==> HeadAt(prefix, |other|) <= other
  {
    if |other| <= |prefix| && other <= prefix {
      assert HeadAt(prefix, |other|) == other;
    }
  }

  /** The leases one scan finds. */
  ghost predicate AtDepth(prefix: Key, depth: nat, r: LeaseRecord) { |r.prefix| == depth && Overlaps(prefix, r) }

  lemma {:induction false} ScanFindsDepth(data: map<Bytes, LeaseRecord>, space: Bytes, leases: set<LeaseRecord>,
                                          prefix: Key, depth: nat, rows: seq<(Bytes, LeaseRecord)>, r: LeaseRecord)
    requires Indexed(data, space, leases) && depth <= MAX_COMPONENTS
    requires Lists(data, KeysUnder(data, ScanKey(space, depth, HeadAt(prefix, depth))), rows)
    ensures (exists i :: 0 <= i < |rows| && rows[i].1 == r) <==> r in leases && AtDepth(prefix, depth, r)
  {
    var scan := ScanKey(space, depth, HeadAt(prefix, depth));
    if i :| 0 <= i < |rows| && rows[i].1 == r {
      var k := rows[i].0;
      ScanIsIndexed(space, depth, HeadAt(prefix, depth), k);
      ScanSelects(space, depth, HeadAt(prefix, depth), r.prefix, r.id);
      OverlapByDepth(prefix, r.prefix);
    }
    if r in leases && AtDepth(prefix, depth, r) {
      OverlapByDepth(prefix, r.prefix);
      ScanSelects(space, depth, HeadAt(prefix, depth), r.prefix, r.id);
      var k := LeaseKey(space, r.prefix, r.id);
      assert k in KeysUnder(data, scan);
      var i :| 0 <= i < |rows| && rows[i].0 == k;
      assert rows[i].1 == r;
    }
  }

  // ----- the scans as loops ---------------------------------------------------------------

  predicate NoRepeats(xs: seq<LeaseRecord>) { forall i, j :: 0 <= i < j < |xs| ==> xs[i] != xs[j] }

  ghost predicate Found(rows: seq<(Bytes, LeaseRecord)>, r: LeaseRecord) {
    exists i :: 0 <= i < |rows| && rows[i].1 == r
  }

  predicate DistinctRows(rows: seq<(Bytes, LeaseRecord)>) {
    forall i, j :: 0 <= i < j < |rows| ==> rows[i].1 != rows[j].1
  }

  lemma {:induction false} RowsAreDistinct(data: map<Bytes, LeaseRecord>, space: Bytes, leases: set<LeaseRecord>,
                                           depth: nat, head: Tuple, rows: seq<(Bytes, LeaseRecord)>)
    requires Indexed(data, space, leases) && Lists(data, KeysUnder(data, ScanKey(space, depth, head)), rows)
    ensures DistinctRows(rows)
  {
    forall i, j | 0 <= i < j < |rows| ensures rows[i].1 != rows[j].1 {
      ScanIsIndexed(space, depth, head, rows[i].0);
      ScanIsIndexed(space, depth, head, rows[j].0);
      LessIrreflexive(rows[i].0);
    }
  }

  /** Split the records of a scan into live and dead. */
  method SplitRows(rows: seq<(Bytes, LeaseRecord)>, now: nat) returns (live: seq<LeaseRecord>, dead: seq<LeaseRecord>)
    requires DistinctRows(rows)
    ensures forall r :: r in live <==> Found(rows, r) && r.Live(now)
    ensures forall r :: r in dead <==> Found(rows, r) && !r.Live(now)
    ensures NoRepeats(live) && NoRepeats(dead)
  {
    live, dead := [], [];
    for i := 0 to |rows|
      invariant forall r :: r in live <==> Found(rows[..i], r) && r.Live(now)
      invariant forall r :: r in dead <==> Found(rows[..i], r) && !r.Live(now)
      invariant NoRepeats(live) && NoRepeats(dead)
    {
      var rec := rows[i].1;
      FoundNext(rows, i);
      NotFoundBefore(rows, i);
      if rec.Live(now) {
        live := live + [rec];
      } else {
        dead := dead + [rec];
      }
    }
    assert rows[..|rows|] == rows;
  }

  lemma {:induction false} NotFoundBefore(rows: seq<(Bytes, LeaseRecord)>, i: nat)
    requires i < |rows| && DistinctRows(rows)
    ensures !Found(rows[..i], rows[i].1)
  {}

  /** What the scans through `depth` have found. */
  ghost predicate Through(leases: set<LeaseRecord>, prefix: Key, depth: nat, now: nat, live: seq<LeaseRecord>,
                          dead: seq<LeaseRecord>) {
    && (forall r :: r in live <==> r in leases && Overlaps(prefix, r) && |r.prefix| <= depth && r.Live(now))
    && (forall r :: r in dead <==> r in leases && Overlaps(prefix, r) && |r.prefix| <= depth && !r.Live(now))
    && NoRepeats(live) && NoRepeats(dead)
  }

  lemma {:induction false} NoRepeatsConcat(a: seq<LeaseRecord>, b: seq<LeaseRecord>)
    requires NoRepeats(a) && NoRepeats(b) && forall x :: x in a ==> x !in b
    ensures NoRepeats(a + b)
  {
    forall i, j | 0 <= i < j < |a + b| ensures (a + b)[i] != (a + b)[j] {
      if i < |a| <= j {
        assert a[i] in a && b[j - |a|] in b;
      }
    }
  }

  /** One more depth. */
  method ScanDepth(store: MemoryStore<LeaseRecord>, space: Bytes, prefix: Key, depth: nat, now: nat,
                   ghost leases: set<LeaseRecord>)
    returns (live: seq<LeaseRecord>, dead: seq<LeaseRecord>)
    requires Indexed(store.data, space, leases) && depth <= MAX_COMPONENTS
    ensures forall r :: r in live <==> r in leases && AtDepth(prefix, depth, r) && r.Live(now)
    ensures forall r :: r in dead <==> r in leases && AtDepth(prefix, depth, r) && !r.Live(now)
    ensures NoRepeats(live) && NoRepeats(dead)
  {
    var head := HeadAt(prefix, depth);
    var rows := store.ScanPrefix(ScanKey(space, depth, head));
    RowsAreDistinct(store.data, space, leases, depth, head, rows);
    live, dead := SplitRows(rows, now);
    forall r ensures Found(rows, r) <==> r in leases && AtDepth(prefix, depth, r) {
      ScanFindsDepth(store.data, space, leases, prefix, depth, rows, r);
    }
  }

  lemma {:induction false} ThroughStep(leases: set<LeaseRecord>, prefix: Key, depth: nat, now: nat,
                                       live: seq<LeaseRecord>, dead: seq<LeaseRecord>, l: seq<LeaseRecord>,
                                       d: seq<LeaseRecord>)
    requires Through(leases, prefix, depth, now, live, dead)
    requires forall r :: r in l <==> r in leases && AtDepth(prefix, depth + 1, r) && r.Live(now)
    requires forall r :: r in d <==> r in leases && AtDepth(prefix, depth + 1, r) && !r.Live(now)
    requires NoRepeats(l) && NoRepeats(d)
    ensures Through(leases, prefix, depth + 1, now, live + l, dead + d)
  {
    NoRepeatsConcat(live, l);
    NoRepeatsConcat(dead, d);
  }

  /** Every lease overlapping `prefix`, once each, split into live and dead. */
  method Overlapping(store: MemoryStore<LeaseRecord>, space: Bytes, prefix: Key, now: nat,
                     ghost leases: set<LeaseRecord>)
    returns (live: seq<LeaseRecord>, dead: seq<LeaseRecord>)
    requires Indexed(store.data, space, leases)
    ensures forall r :: r in live <==> r in leases && Overlaps(prefix, r) && r.Live(now)
    ensures forall r :: r in dead <==> r in leases && Overlaps(prefix, r) && !r.Live(now)
    ensures NoRepeats(live) && NoRepeats(dead)
  {
    live, dead := [], [];
    for depth := 0 to MAX_COMPONENTS
      invariant Through(leases, prefix, depth, now, live, dead)
    {
      var l, d := ScanDepth(store, space, prefix, depth + 1, now, leases);
      ThroughStep(leases, prefix, depth, now, live, dead, l, d);
      live, dead := live + l, dead + d;
    }
  }

  /** The live leases at the ancestors of `key` and at `key` itself. */
  method Covering(store: MemoryStore<LeaseRecord>, space: Bytes, key: Key, now: nat, ghost leases: set<LeaseRecord>)
    returns (live: seq<LeaseRecord>)
    requires Indexed(store.data, space, leases) && |key| <= MAX_COMPONENTS
    ensures forall r :: r in live <==> r in leases && Prefix(r.prefix).CoversKey(key) && r.Live(now)
  {
    live := [];
    for depth := 0 to |key|
      invariant forall r :: r in live <==> r in leases && Overlaps(key, r) && |r.prefix| <= depth && r.Live(now)
    {
      var l, _ := ScanDepth(store, space, key, depth + 1, now, leases);
      live := live + l;
    }
  }

  method AllLive(store: MemoryStore<LeaseRecord>, space: Bytes, now: nat, ghost leases: set<LeaseRecord>)
    returns (live: seq<LeaseRecord>)
    requires Indexed(store.data, space, leases)
    ensures forall r :: r in live <==> r in leases && r.Live(now)
  {
    var rows := store.ScanPrefix(IdScan(space));
    forall r ensures Found(rows, r) <==> r in leases {
      IdScanFinds(store.data, space, leases, rows, r);
    }
    live := [];
    for i := 0 to |rows|
      invariant forall r :: r in live <==> Found(rows[..i], r) && r.Live(now)
    {
      FoundNext(rows, i);
      if rows[i].1.Live(now) {
        live := live + [rows[i].1];
      }
    }
    assert rows[..|rows|] == rows;
  }

  lemma {:induction false} FoundNext(rows: seq<(Bytes, LeaseRecord)>, i: nat)
    requires i < |rows|
    ensures forall r :: Found(rows[..i + 1], r) <==> Found(rows[..i], r) || r == rows[i].1
  {
    var front, next := rows[..i], rows[..i + 1];
    forall r ensures Found(next, r) <==> Found(front, r) || r == rows[i].1 {
      if j :| 0 <= j < |front| && front[j].1 == r {
        assert next[j].1 == r;
      }
      if j :| 0 <= j < |next| && next[j].1 == r {
        assert j < i ==> front[j].1 == r;
      }
      assert next[i].1 == rows[i].1;
    }
  }

  lemma {:induction false} IdScanFinds(data: map<Bytes, LeaseRecord>, space: Bytes, leases: set<LeaseRecord>,
                                       rows: seq<(Bytes, LeaseRecord)>, r: LeaseRecord)
    requires Indexed(data, space, leases) && Lists(data, KeysUnder(data, IdScan(space)), rows)
    ensures Found(rows, r) <==> r in leases
  {
    if r in leases {
      var k := IdKey(space, r.id);
      PrefixIsBytePrefix([space, [LEASE_BY_ID]], [space, [LEASE_BY_ID], Be(8, r.id)]);
      assert k in KeysUnder(data, IdScan(space));
      var i :| 0 <= i < |rows| && rows[i].0 == k;
      assert rows[i].1 == r;
    }
  }

  // ----- reservations ------------------------------------------------------------------------

  /** A live lease held by somebody else. */
  ghost predicate Foreign(leases: set<LeaseRecord>, device: DeviceId, now: nat, r: LeaseRecord) {
    r in leases && r.Live(now) && r.device != device
  }

  ghost predicate KeyFree(leases: set<LeaseRecord>, device: DeviceId, now: nat, k: Key) {
    forall r :: Foreign(leases, device, now, r) ==> !Prefix(r.prefix).CoversKey(k)
  }

  ghost predicate RangeFree(leases: set<LeaseRecord>, device: DeviceId, now: nat, g: Range) {
    forall r :: Foreign(leases, device, now, r) ==> !g.Overlaps(Prefix(r.prefix))
  }

  method AnyForeign(live: seq<LeaseRecord>, device: DeviceId) returns (found: bool)
    ensures found <==> exists r :: r in live && r.device != device
  {
    for i := 0 to |live|
      invariant forall j :: 0 <= j < i ==> live[j].device == device
    {
      if live[i].device != device {
        assert live[i] in live;
        return true;
      }
    }
    return false;
  }

  method RangeContended(store: MemoryStore<LeaseRecord>, space: Bytes, device: DeviceId, now: nat, g: Range,
                        ghost leases: set<LeaseRecord>)
    returns (bad: bool)
    requires Indexed(store.data, space, leases)
    ensures bad <==> !RangeFree(leases, device, now, g)
  {
    var live;
    if g.Full? {
      live := AllLive(store, space, now, leases);
    } else {
      var dead;
      live, dead := Overlapping(store, space, g.prefix, now, leases);
    }
    bad := AnyForeign(live, device);
  }

  /** The first key under a foreign lease. */
  ghost function KeyVerdict(leases: set<LeaseRecord>, device: DeviceId, now: nat, keys: seq<Key>): Option<Rejection> {
    if keys == [] then None
    else
      var earlier, k := KeyVerdict(leases, device, now, keys[..|keys| - 1]), keys[|keys| - 1];
      if earlier.Some? || KeyFree(leases, device, now, k) then earlier else Some(Contended(k))
  }

  /** The first range that overlaps a foreign lease. */
  ghost function RangeVerdict(leases: set<LeaseRecord>, device: DeviceId, now: nat,
                              ranges: seq<Range>): Option<Rejection> {
    if ranges == [] then None
    else
      var earlier, g := RangeVerdict(leases, device, now, ranges[..|ranges| - 1]), ranges[|ranges| - 1];
      if earlier.Some? || RangeFree(leases, device, now, g) then earlier else Some(Rejection.RangeContended(g))
  }

  /** Keys are judged before ranges. */
  ghost function Verdict(leases: set<LeaseRecord>, device: DeviceId, now: nat, keys: seq<Key>,
                         ranges: seq<Range>): Option<Rejection> {
    var byKey := KeyVerdict(leases, device, now, keys);
    if byKey.Some? then byKey else RangeVerdict(leases, device, now, ranges)
  }

  /** Key `i` is the first one a live foreign lease covers. */
  ghost predicate FirstKey(leases: set<LeaseRecord>, device: DeviceId, now: nat, keys: seq<Key>, i: nat) {
    && i < |keys| && !KeyFree(leases, device, now, keys[i])
    && forall j :: 0 <= j < i ==> KeyFree(leases, device, now, keys[j])
  }

  /** Range `i` is the first one a live foreign lease overlaps. */
  ghost predicate FirstRange(leases: set<LeaseRecord>, device: DeviceId, now: nat, ranges: seq<Range>, i: nat) {
    && i < |ranges| && !RangeFree(leases, device, now, ranges[i])
    && forall j :: 0 <= j < i ==> RangeFree(leases, device, now, ranges[j])
  }

  lemma {:induction false} KeyVerdictIsExact(leases: set<LeaseRecord>, device: DeviceId, now: nat, keys: seq<Key>)
    ensures var v := KeyVerdict(leases, device, now, keys);
      if v.None? then forall i :: 0 <= i < |keys| ==> KeyFree(leases, device, now, keys[i])
      else exists i: nat :: FirstKey(leases, device, now, keys, i) && v.value == Contended(keys[i])
  {
    if keys != [] {
      var n := |keys| - 1;
      KeyVerdictIsExact(leases, device, now, keys[..n]);
      if KeyVerdict(leases, device, now, keys[..n]).Some? {
        var i: nat :| FirstKey(leases, device, now, keys[..n], i)
                      && KeyVerdict(leases, device, now, keys[..n]).value == Contended(keys[..n][i]);
        assert FirstKey(leases, device, now, keys, i);
      } else if !KeyFree(leases, device, now, keys[n]) {
        forall j | 0 <= j < n ensures KeyFree(leases, device, now, keys[j]) {
          assert keys[..n][j] == keys[j];
        }
        assert FirstKey(leases, device, now, keys, n);
      }
    }
  }

  lemma {:induction false} RangeVerdictIsExact(leases: set<LeaseRecord>, device: DeviceId, now: nat, ranges: seq<Range>)
    ensures var v := RangeVerdict(leases, device, now, ranges);
      if v.None? then forall i :: 0 <= i < |ranges| ==> RangeFree(leases, device, now, ranges[i])
      else exists i: nat ::
        FirstRange(leases, device, now, ranges, i) && v.value == Rejection.RangeContended(ranges[i])
  {
    if ranges != [] {
      var n := |ranges| - 1;
      RangeVerdictIsExact(leases, device, now, ranges[..n]);
      if RangeVerdict(leases, device, now, ranges[..n]).Some? {
        var i: nat :| FirstRange(leases, device, now, ranges[..n], i)
                      && RangeVerdict(leases, device, now, ranges[..n]).value ==
                         Rejection.RangeContended(ranges[..n][i]);
        assert FirstRange(leases, device, now, ranges, i);
      } else if !RangeFree(leases, device, now, ranges[n]) {
        forall j | 0 <= j < n ensures RangeFree(leases, device, now, ranges[j]) {
          assert ranges[..n][j] == ranges[j];
        }
        assert FirstRange(leases, device, now, ranges, n);
      }
    }
  }

  /**
   The verdict passes exactly the writes no live foreign lease stands in the way of, and else names the first
   key that is not free or, if all keys are, the first such range.
   */
  lemma {:induction false} VerdictIsExact(leases: set<LeaseRecord>, device: DeviceId, now: nat, keys: seq<Key>,
                                          ranges: seq<Range>)
    ensures Verdict(leases, device, now, keys, ranges).None? <==>
            (forall k :: k in keys ==> KeyFree(leases, device, now, k))
              && (forall g :: g in ranges ==> RangeFree(leases, device, now, g))
    ensures var v := Verdict(leases, device, now, keys, ranges);
      v.Some? ==>
        if exists k :: k in keys && !KeyFree(leases, device, now, k)
        then exists i: nat :: FirstKey(leases, device, now, keys, i) && v.value == Contended(keys[i])
        else exists i: nat ::
          FirstRange(leases, device, now, ranges, i) && v.value == Rejection.RangeContended(ranges[i])
  {
    KeyVerdictIsExact(leases, device, now, keys);
    RangeVerdictIsExact(leases, device, now, ranges);
  }

  method ValidateKeys(store: MemoryStore<LeaseRecord>, space: Bytes, device: DeviceId, now: nat, keys: seq<Key>,
                      ghost leases: set<LeaseRecord>) returns (contended: Option<Rejection>)
    requires Indexed(store.data, space, leases) && forall k :: k in keys ==> |k| <= MAX_COMPONENTS
    ensures contended == KeyVerdict(leases, device, now, keys)
  {
    for i := 0 to |keys|
      invariant KeyVerdict(leases, device, now, keys[..i]).None?
    {
      var live := Covering(store, space, keys[i], now, leases);
      var bad := AnyForeign(live, device);
      assert bad <==> !KeyFree(leases, device, now, keys[i]);
      assert keys[..i + 1][..i] == keys[..i];
      if bad {
        KeyVerdictStands(leases, device, now, keys, i + 1, |keys|);
        assert keys[..|keys|] == keys;
        return Some(Contended(keys[i]));
      }
    }
    assert keys[..|keys|] == keys;
    return None;
  }

  method ValidateRanges(store: MemoryStore<LeaseRecord>, space: Bytes, device: DeviceId, now: nat, ranges: seq<Range>,
                        ghost leases: set<LeaseRecord>) returns (contended: Option<Rejection>)
    requires Indexed(store.data, space, leases)
    ensures contended == RangeVerdict(leases, device, now, ranges)
  {
    for i := 0 to |ranges|
      invariant RangeVerdict(leases, device, now, ranges[..i]).None?
    {
      var bad := RangeContended(store, space, device, now, ranges[i], leases);
      assert ranges[..i + 1][..i] == ranges[..i];
      if bad {
        RangeVerdictStands(leases, device, now, ranges, i + 1, |ranges|);
        assert ranges[..|ranges|] == ranges;
        return Some(Rejection.RangeContended(ranges[i]));
      }
    }
    assert ranges[..|ranges|] == ranges;
    return None;
  }

  /** Point writes yield to leases over their key, range writes to leases in either direction. */
  method ValidateWrites(store: MemoryStore<LeaseRecord>, space: Bytes, device: DeviceId, now: nat, keys: seq<Key>,
                        ranges: seq<Range>, ghost leases: set<LeaseRecord>)
    returns (contended: Option<Rejection>)
    requires Indexed(store.data, space, leases) && forall k :: k in keys ==> |k| <= MAX_COMPONENTS
    ensures contended == Verdict(leases, device, now, keys, ranges)
    ensures contended.None? <==>
            (forall k :: k in keys ==> KeyFree(leases, device, now, k))
              && (forall g :: g in ranges ==> RangeFree(leases, device, now, g))
  {
    VerdictIsExact(leases, device, now, keys, ranges);
    contended := ValidateKeys(store, space, device, now, keys, leases);
    if contended.None? {
      contended := ValidateRanges(store, space, device, now, ranges, leases);
    }
  }

  /** Later writes do not change a verdict once there is one. */
  lemma {:induction false} KeyVerdictStands(leases: set<LeaseRecord>, device: DeviceId, now: nat, keys: seq<Key>,
                                            i: nat, n: nat)
    requires i <= n <= |keys| && KeyVerdict(leases, device, now, keys[..i]).Some?
    ensures KeyVerdict(leases, device, now, keys[..n]) == KeyVerdict(leases, device, now, keys[..i])
  {
    if i < n {
      KeyVerdictStands(leases, device, now, keys, i, n - 1);
      assert keys[..n][..n - 1] == keys[..n - 1];
    }
  }

  lemma {:induction false} RangeVerdictStands(leases: set<LeaseRecord>, device: DeviceId, now: nat, ranges: seq<Range>,
                                              i: nat, n: nat)
    requires i <= n <= |ranges| && RangeVerdict(leases, device, now, ranges[..i]).Some?
    ensures RangeVerdict(leases, device, now, ranges[..n]) == RangeVerdict(leases, device, now, ranges[..i])
  {
    if i < n {
      RangeVerdictStands(leases, device, now, ranges, i, n - 1);
      assert ranges[..n][..n - 1] == ranges[..n - 1];
    }
  }
}
