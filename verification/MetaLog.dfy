/**
 One space of a device's durable metadata (client/src/meta.rs).

 The submit log holds what this device wrote: `[head, neck)` is retired,
 `[neck, tail)` is active. The admit log holds what the server ordered. Each
 transition below is one atomic write of the store. `Certified` is the store's
 own integrity oracle; the theorems are about every run of transitions.
 */
module MetaLog {
  import opened Types
  import opened Wire

  const MAX_U64: nat := 0xFFFF_FFFF_FFFF_FFFF

  datatype SubmitMode = Checked | Unchecked

  /** One record of the submit log. */
  datatype DeviceOp =
    | Commit(entries: seq<DeviceEntry>, rangeAsserts: seq<RangeAssert>, evidence: seq<nat>, submitMode: SubmitMode)
    | Rollback(marker: nat)
  {
    function Entries(): seq<DeviceEntry> { if Commit? then entries else [] }
    function RangeAsserts(): seq<RangeAssert> { if Commit? then rangeAsserts else [] }
  }

  datatype Cursors = Cursors(head: nat, neck: nat, tail: nat)
  {
    predicate Ordered() { head <= neck <= tail }
  }

  datatype SpaceState = SpaceState(
    cursors: Cursors, admitCursors: Cursors, checksum: Checksum, verHigh: Option<nat>,
    oplog: map<nat, DeviceOp>, admits: map<nat, LogBatch>)
  {
    function High(): nat { if verHigh.Some? then verHigh.value else 0 }
  }

  const FRESH := SpaceState(Cursors(1, 1, 1), Cursors(1, 1, 1), EMPTY_CHECKSUM, None, map[], map[])

  datatype StoreError =
    | CountMismatch | MalformedReservation | StaleReservation
    | ChecksumChanged | OutsideWindow | TailOverflow | WindowChanged
    | Malformed(error: DensityError) | ZeroTail | NotAtTail

  /** A refused transition leaves the store as it was. */
  function Stored(s: SpaceState, r: Result<SpaceState, StoreError>): SpaceState { if r.Ok? then r.value else s }

  // ----- transitions ----------------------------------------------------------------

  datatype Reservation = Reservation(at: nat, verHigh: nat, versions: seq<nat>, rangeAsserts: seq<RangeAssert>,
    submitMode: SubmitMode)

  function VersionsAfter(high: nat, n: nat): (vs: seq<nat>)
    ensures |vs| == n && forall i :: 0 <= i < n ==> vs[i] == high + 1 + i
  {
    seq(n, i requires 0 <= i < n => high + 1 + i)
  }

  function Reserve(s: SpaceState, n: nat, asserts: seq<RangeAssert>, mode: SubmitMode): Reservation {
    Reservation(s.cursors.tail, s.High() + n, VersionsAfter(s.High(), n), asserts, mode)
  }

  function CommitEntries(s: SpaceState, r: Reservation, entries: seq<DeviceEntry>): Result<SpaceState, StoreError> {
    if |entries| != |r.versions| then Err(CountMismatch)
    else if r.verHigh < |entries| then Err(MalformedReservation)
    else if s.cursors.tail != r.at || s.High() != r.verHigh - |entries| then Err(StaleReservation)
    else Ok(s.(oplog := s.oplog[r.at := Commit(entries, r.rangeAsserts, [], r.submitMode)],
               cursors := s.cursors.(tail := r.at + 1),
               verHigh := Some(r.verHigh)))
  }

  function After(log: map<nat, DeviceOp>, through: nat): map<nat, DeviceOp> {
    map q | q in log && q > through :: log[q]
  }

  function TrimOplog(s: SpaceState, through: nat, checksum: Checksum): Result<SpaceState, StoreError> {
    if through < s.cursors.neck && checksum != s.checksum then Err(ChecksumChanged)
    else
      var advanced := Min(through + 1, s.cursors.tail);
      Ok(s.(checksum := checksum, oplog := After(s.oplog, through),
            cursors := Cursors(Max(s.cursors.head, advanced), Max(s.cursors.neck, advanced), s.cursors.tail)))
  }

  /** The one state a rollback to `to` leaves. */
  function RolledBack(s: SpaceState, to: nat): SpaceState {
    s.(oplog := s.oplog[s.cursors.tail := Rollback(to)],
       cursors := Cursors(s.cursors.head, s.cursors.tail, s.cursors.tail + 1))
  }

  function RollBack(s: SpaceState, to: nat): Result<SpaceState, StoreError> {
    var c := s.cursors;
    if to < c.neck && c.neck + 1 == c.tail && c.neck in s.oplog && s.oplog[c.neck] == Rollback(to) then Ok(s)
    else if to < c.neck || to >= c.tail then Err(OutsideWindow)
    else if c.tail + 1 > MAX_U64 then Err(TailOverflow)
    else Ok(RolledBack(s, to))
  }

  function RollBackIfUnchanged(s: SpaceState, to: nat, expected: Cursors): Result<SpaceState, StoreError> {
    if expected.tail + 1 > MAX_U64 then Err(TailOverflow)
    else if s.cursors != expected && s.cursors != Cursors(expected.head, expected.tail, expected.tail + 1)
      then Err(WindowChanged)
    else RollBack(s, to)
  }

  /** The greatest version in a page. */
  function MaxVer(batches: seq<LogBatch>): nat {
    if batches == [] then 0
    else Max(MaxVer(batches[..|batches| - 1]), MaxEntryVer(batches[|batches| - 1].entries))
  }

  function MaxEntryVer(entries: seq<AdmittedEntry>): nat {
    if entries == [] then 0 else Max(MaxEntryVer(entries[..|entries| - 1]), entries[|entries| - 1].Ver())
  }

  function WithBatches(admits: map<nat, LogBatch>, batches: seq<LogBatch>): map<nat, LogBatch> {
    if batches == [] then admits
    else WithBatches(admits, batches[..|batches| - 1])[batches[|batches| - 1].admissionSeq := batches[|batches| - 1]]
  }

  /** Why a dense page cannot be appended, if it cannot. */
  function AppendFault(s: SpaceState, page: PullResponse): Option<StoreError> {
    if s.admitCursors.tail == 0 then Some(ZeroTail)
    else if page.after != s.admitCursors.tail - 1 then Some(NotAtTail)
    else if page.batches != [] && page.through + 1 > MAX_U64 then Some(TailOverflow)
    else None
  }

  function AppendAdmits(s: SpaceState, page: PullResponse): SpaceState {
    if page.batches == [] then s
    else
      var seen := MaxVer(page.batches);
      s.(admits := WithBatches(s.admits, page.batches),
         admitCursors := s.admitCursors.(tail := page.through + 1),
         verHigh := if s.verHigh.Some? || seen > 0 then Some(Max(s.High(), seen)) else None)
  }

  function MarkApplied(s: SpaceState, to: nat): Result<SpaceState, StoreError> {
    if to < s.admitCursors.neck || to > s.admitCursors.tail then Err(OutsideWindow)
    else Ok(s.(admitCursors := s.admitCursors.(neck := to)))
  }

  function TrimAdmits(s: SpaceState, to: nat): Result<SpaceState, StoreError> {
    if to < s.admitCursors.head || to > s.admitCursors.neck then Err(OutsideWindow)
    else Ok(s.(admits := map q | q in s.admits && !(s.admitCursors.head <= q < to) :: s.admits[q],
               admitCursors := s.admitCursors.(head := to)))
  }

  // ----- when a transition is taken, and what it leaves ------------------------------

  /** Only the named parts of a state changed. */
  predicate SubmitSideOnly(s: SpaceState, s': SpaceState) { s'.admitCursors == s.admitCursors && s'.admits == s.admits }

  predicate AdmitSideOnly(s: SpaceState, s': SpaceState) {
    s'.cursors == s.cursors && s'.oplog == s.oplog && s'.checksum == s.checksum
  }

  /** A commit is taken exactly when nothing has moved since its reservation, and adds one record at the tail. */
  lemma {:induction false} CommitIsExact(s: SpaceState, r: Reservation, entries: seq<DeviceEntry>)
    ensures CommitEntries(s, r, entries).Ok? <==>
            |entries| == |r.versions| && r.at == s.cursors.tail && r.verHigh == s.High() + |entries|
    ensures var c := CommitEntries(s, r, entries);
      c.Ok? ==>
        && SubmitSideOnly(s, c.value) && c.value.checksum == s.checksum && c.value.verHigh == Some(r.verHigh)
        && c.value.cursors == Cursors(s.cursors.head, s.cursors.neck, s.cursors.tail + 1)
        && (forall q :: q in c.value.oplog <==> q in s.oplog || q == s.cursors.tail)
        && (forall q :: q in s.oplog && q != s.cursors.tail ==> c.value.oplog[q] == s.oplog[q])
        && c.value.oplog[s.cursors.tail] == Commit(entries, r.rangeAsserts, [], r.submitMode)
  {}

  /** A trim is refused only when it would change a checksum already confirmed; it removes just what it confirms. */
  lemma {:induction false} TrimIsExact(s: SpaceState, through: nat, checksum: Checksum)
    ensures TrimOplog(s, through, checksum).Ok? <==> s.cursors.neck <= through || checksum == s.checksum
    ensures var c := TrimOplog(s, through, checksum);
      c.Ok? ==>
        && SubmitSideOnly(s, c.value) && c.value.checksum == checksum && c.value.verHigh == s.verHigh
        && c.value.cursors.tail == s.cursors.tail
        && (forall q :: q in c.value.oplog <==> q in s.oplog && q > through)
        && (forall q :: q in c.value.oplog ==> c.value.oplog[q] == s.oplog[q])
        && (s.cursors.Ordered() && through < s.cursors.tail ==>
          && c.value.cursors.head == (if through < s.cursors.head then s.cursors.head else through + 1)
          && c.value.cursors.neck == (if through < s.cursors.neck then s.cursors.neck else through + 1))
        && (s.cursors.Ordered() && through >= s.cursors.tail ==>
          c.value.cursors == Cursors(s.cursors.tail, s.cursors.tail, s.cursors.tail))
  {}

  /** The last thing done was a rollback to `to`. */
  predicate JustRolledBack(s: SpaceState, to: nat) {
    && to < s.cursors.neck && s.cursors.tail == s.cursors.neck + 1
    && s.cursors.neck in s.oplog && s.oplog[s.cursors.neck] == Rollback(to)
  }

  /**
   A rollback is taken for a record of the active window, retires all of it and adds one marker; done again, it
   does nothing.
   */
  lemma {:induction false} RollBackIsExact(s: SpaceState, to: nat)
    ensures RollBack(s, to).Ok? <==>
            JustRolledBack(s, to) || (s.cursors.neck <= to < s.cursors.tail && s.cursors.tail < MAX_U64)
    ensures var c := RollBack(s, to);
      c.Ok? ==>
        if JustRolledBack(s, to) then c.value == s
        else
          && SubmitSideOnly(s, c.value) && c.value.checksum == s.checksum && c.value.verHigh == s.verHigh
          && c.value.cursors == Cursors(s.cursors.head, s.cursors.tail, s.cursors.tail + 1)
          && (forall q :: q in c.value.oplog <==> q in s.oplog || q == s.cursors.tail)
          && (forall q :: q in s.oplog && q != s.cursors.tail ==> c.value.oplog[q] == s.oplog[q])
          && c.value.oplog[s.cursors.tail] == Rollback(to)
  {}

  /** The admit neck may move to anything captured and not yet applied. */
  lemma {:induction false} MarkIsExact(s: SpaceState, to: nat)
    ensures MarkApplied(s, to).Ok? <==> s.admitCursors.neck <= to <= s.admitCursors.tail
    ensures var c := MarkApplied(s, to);
      c.Ok? ==>
        && AdmitSideOnly(s, c.value) && c.value.admits == s.admits && c.value.verHigh == s.verHigh
        && c.value.admitCursors == Cursors(s.admitCursors.head, to, s.admitCursors.tail)
  {}

  /** What has been applied may be discarded, and nothing else is. */
  lemma {:induction false} DiscardIsExact(s: SpaceState, to: nat)
    ensures TrimAdmits(s, to).Ok? <==> s.admitCursors.head <= to <= s.admitCursors.neck
    ensures var c := TrimAdmits(s, to);
      c.Ok? ==>
        && AdmitSideOnly(s, c.value) && c.value.verHigh == s.verHigh
        && c.value.admitCursors == Cursors(to, s.admitCursors.neck, s.admitCursors.tail)
        && (forall q :: q in c.value.admits <==> q in s.admits && (q < s.admitCursors.head || to <= q))
        && (forall q :: q in c.value.admits ==> c.value.admits[q] == s.admits[q])
  {}

  lemma {:induction false} MaxEntryVerIsMax(entries: seq<AdmittedEntry>)
    ensures forall e :: e in entries ==> e.Ver() <= MaxEntryVer(entries)
    ensures MaxEntryVer(entries) == 0 || exists e :: e in entries && e.Ver() == MaxEntryVer(entries)
  {
    if entries != [] {
      var front, last := entries[..|entries| - 1], entries[|entries| - 1];
      MaxEntryVerIsMax(front);
      assert forall e :: e in entries <==> e in front || e == last;
    }
  }

  /** Some operation of the page has this version. */
  ghost predicate Occurs(batches: seq<LogBatch>, ver: nat) {
    exists b, e :: b in batches && e in b.entries && e.Ver() == ver
  }

  lemma {:induction false} MaxVerIsMax(batches: seq<LogBatch>)
    ensures forall b, e :: b in batches && e in b.entries ==> e.Ver() <= MaxVer(batches)
    ensures MaxVer(batches) == 0 || Occurs(batches, MaxVer(batches))
  {
    if batches != [] {
      var front, last := batches[..|batches| - 1], batches[|batches| - 1];
      MaxVerIsMax(front);
      MaxEntryVerIsMax(last.entries);
      assert forall b :: b in batches <==> b in front || b == last;
      if MaxVer(batches) == MaxVer(front) && MaxVer(front) > 0 {
        var b, e :| b in front && e in b.entries && e.Ver() == MaxVer(front);
        assert b in batches;
      } else if MaxVer(batches) > 0 {
        var e :| e in last.entries && e.Ver() == MaxEntryVer(last.entries);
        assert last in batches;
      }
    }
  }

  /**
   A dense page is captured exactly when it starts at the tail and its end fits; its batches are filed under
   their numbers, and the version high water rises to the greatest version seen.
   */
  lemma {:induction false} AppendIsExact(s: SpaceState, page: PullResponse)
    requires Dense(page)
    ensures AppendFault(s, page).None? <==>
            page.after + 1 == s.admitCursors.tail && (page.batches == [] || page.through < MAX_U64)
    ensures var s' := AppendAdmits(s, page);
      && AdmitSideOnly(s, s') && s.High() <= s'.High() && (page.batches == [] ==> s' == s)
      && (page.batches != [] ==>
        s'.admitCursors == Cursors(s.admitCursors.head, s.admitCursors.neck, page.through + 1))
      && (forall q :: q in s'.admits <==> q in s.admits || page.after < q <= page.through)
      && (forall q :: q in s'.admits ==>
        s'.admits[q] == if page.after < q <= page.through then page.batches[q - page.after - 1] else s.admits[q])
      && (forall b, e :: b in page.batches && e in b.entries ==> e.Ver() <= s'.High())
      && (s'.High() == s.High() || Occurs(page.batches, s'.High()))
  {
    MaxVerIsMax(page.batches);
    forall q: nat
      ensures q in AppendAdmits(s, page).admits <==> q in s.admits || page.after < q <= page.through
      ensures q in AppendAdmits(s, page).admits ==>
                AppendAdmits(s, page).admits[q] ==
                if page.after < q <= page.through then page.batches[q - page.after - 1] else s.admits[q]
    {
      WithBatchesAt(s.admits, page.after, page.batches, q);
    }
  }

  // ----- the integrity oracle ---------------------------------------------------

  function PointKey(m: Mutation): Option<Key> { if m.DeleteRange? then None else Some(m.key) }

  function RowEntries(log: map<nat, DeviceOp>, q: nat): seq<DeviceEntry> { if q in log then log[q].Entries() else [] }

  /** The operations of the records in `[from, to)`, in order. */
  function EntriesIn(log: map<nat, DeviceOp>, from: nat, to: nat): seq<DeviceEntry> {
    if to <= from then [] else EntriesIn(log, from, to - 1) + RowEntries(log, to - 1)
  }

  predicate SameKey(a: DeviceEntry, b: DeviceEntry) {
    PointKey(a.mutation).Some? && PointKey(a.mutation) == PointKey(b.mutation)
  }

  /** Versions strictly increase along each key. */
  predicate VersIncrease(es: seq<DeviceEntry>) {
    forall i, j :: 0 <= i < j < |es| && SameKey(es[i], es[j]) ==> es[i].tag.ver < es[j].tag.ver
  }

  predicate VersBounded(es: seq<DeviceEntry>, high: Option<nat>) {
    forall e :: e in es ==> high.Some? && e.tag.ver <= high.value
  }

  ghost predicate AdmitsDense(c: Cursors, admits: map<nat, LogBatch>) {
    && (forall q :: q in admits <==> c.head <= q < c.tail)
    && (forall q :: q in admits ==> admits[q].admissionSeq == q && WellFormed(admits[q]))
  }

  predicate RowsSound(c: Cursors, log: map<nat, DeviceOp>) {
    forall q :: q in log ==> c.head <= q < c.tail && (log[q].Rollback? ==> log[q].marker < q)
  }

  /** The clauses about cursors, markers and captured rows. */
  ghost predicate Shaped(s: SpaceState) {
    && s.cursors.Ordered() && s.admitCursors.Ordered()
    && AdmitsDense(s.admitCursors, s.admits)
    && RowsSound(s.cursors, s.oplog)
  }

  /** The clauses about versions in the open window. */
  ghost predicate VersionsSound(s: SpaceState) {
    && VersIncrease(EntriesIn(s.oplog, s.cursors.neck, s.cursors.tail))
    && VersBounded(EntriesIn(s.oplog, s.cursors.neck, s.cursors.tail), s.verHigh)
  }

  ghost predicate Certified(s: SpaceState) { Shaped(s) && VersionsSound(s) }

  /** Operation `i` of record `q` is one of the active window. */
  predicate ActiveAt(s: SpaceState, q: nat, i: nat) {
    s.cursors.neck <= q < s.cursors.tail && q in s.oplog && i < |s.oplog[q].Entries()|
  }

  /** One operation of the window comes before another: in an earlier record, or earlier in the same one. */
  predicate Earlier(q: nat, i: nat, r: nat, j: nat) { q < r || (q == r && i < j) }

  /** Versions rise along every key of the active window, by record and place in it. */
  ghost predicate RisesByPlace(s: SpaceState) {
    forall q: nat, i: nat, r: nat, j: nat ::
      ActiveAt(s, q, i) && ActiveAt(s, r, j) && Earlier(q, i, r, j) ==>
        var a, b := s.oplog[q].Entries()[i], s.oplog[r].Entries()[j];
        SameKey(a, b) ==> a.tag.ver < b.tag.ver
  }

  ghost predicate BoundedByPlace(s: SpaceState) {
    forall q: nat, i: nat :: ActiveAt(s, q, i) ==> s.verHigh.Some? && s.oplog[q].Entries()[i].tag.ver <= s.verHigh.value
  }

  /** The operations of the window are those of its records, each at its place. */
  lemma {:induction false} PlacedInWindow(log: map<nat, DeviceOp>, from: nat, to: nat, q: nat, i: nat) returns (k: nat)
    requires from <= q < to && q in log && i < |log[q].Entries()|
    ensures k == |EntriesIn(log, from, q)| + i < |EntriesIn(log, from, to)|
    ensures EntriesIn(log, from, to)[k] == log[q].Entries()[i]
  {
    k := |EntriesIn(log, from, q)| + i;
    if q < to - 1 {
      var m := PlacedInWindow(log, from, to - 1, q, i);
    }
  }

  lemma {:induction false} WindowPlace(log: map<nat, DeviceOp>, from: nat, to: nat, k: nat) returns (q: nat, i: nat)
    requires k < |EntriesIn(log, from, to)|
    ensures from <= q < to && q in log && i < |log[q].Entries()|
    ensures k == |EntriesIn(log, from, q)| + i && EntriesIn(log, from, to)[k] == log[q].Entries()[i]
  {
    var n := |EntriesIn(log, from, to - 1)|;
    if k < n {
      q, i := WindowPlace(log, from, to - 1, k);
    } else {
      q, i := to - 1, k - n;
    }
  }

  lemma {:induction false} WindowGrows(log: map<nat, DeviceOp>, from: nat, q: nat, r: nat)
    requires q <= r
    ensures |EntriesIn(log, from, q)| <= |EntriesIn(log, from, r)|
    ensures from <= q < r && q in log ==>
              |EntriesIn(log, from, q)| + |log[q].Entries()| <= |EntriesIn(log, from, r)|
  {
    if q < r {
      WindowGrows(log, from, q, r - 1);
    }
  }

  lemma {:induction false} RisesIffByPlace(s: SpaceState)
    ensures VersIncrease(EntriesIn(s.oplog, s.cursors.neck, s.cursors.tail)) <==> RisesByPlace(s)
  {
    var from, to := s.cursors.neck, s.cursors.tail;
    var es := EntriesIn(s.oplog, from, to);
    if VersIncrease(es) {
      forall q: nat, i: nat, r: nat, j: nat | ActiveAt(s, q, i) && ActiveAt(s, r, j) && Earlier(q, i, r, j)
        ensures var a, b := s.oplog[q].Entries()[i], s.oplog[r].Entries()[j]; SameKey(a, b) ==> a.tag.ver < b.tag.ver
      {
        var k := PlacedInWindow(s.oplog, from, to, q, i);
        var l := PlacedInWindow(s.oplog, from, to, r, j);
        WindowGrows(s.oplog, from, q, r);
        assert k < l;
      }
    }
    if RisesByPlace(s) {
      forall k, l | 0 <= k < l < |es| && SameKey(es[k], es[l]) ensures es[k].tag.ver < es[l].tag.ver {
        var q, i := WindowPlace(s.oplog, from, to, k);
        var r, j := WindowPlace(s.oplog, from, to, l);
        if r < q {
          WindowGrows(s.oplog, from, r, q);
        }
        assert ActiveAt(s, q, i) && ActiveAt(s, r, j) && Earlier(q, i, r, j);
      }
    }
  }

  lemma {:induction false} BoundedIffByPlace(s: SpaceState)
    ensures VersBounded(EntriesIn(s.oplog, s.cursors.neck, s.cursors.tail), s.verHigh) <==> BoundedByPlace(s)
  {
    var from, to := s.cursors.neck, s.cursors.tail;
    var es := EntriesIn(s.oplog, from, to);
    if VersBounded(es, s.verHigh) {
      forall q: nat, i: nat | ActiveAt(s, q, i)
        ensures s.verHigh.Some? && s.oplog[q].Entries()[i].tag.ver <= s.verHigh.value
      {
        var k := PlacedInWindow(s.oplog, from, to, q, i);
        assert es[k] in es;
      }
    }
    if BoundedByPlace(s) {
      forall e | e in es ensures s.verHigh.Some? && e.tag.ver <= s.verHigh.value {
        var k :| 0 <= k < |es| && es[k] == e;
        var q, i := WindowPlace(s.oplog, from, to, k);
        assert ActiveAt(s, q, i);
      }
    }
  }

  /**
   What certification means: ordered cursors, captured batches exactly between theirs and under their own numbers,
   records between theirs, markers that point back, and in the active window versions that rise along every key
   and stay below the high water.
   */
  lemma {:induction false} CertifiedMeans(s: SpaceState)
    ensures Certified(s) <==>
            && s.cursors.head <= s.cursors.neck <= s.cursors.tail
            && s.admitCursors.head <= s.admitCursors.neck <= s.admitCursors.tail
            && (forall q :: q in s.admits <==> s.admitCursors.head <= q < s.admitCursors.tail)
            && (forall q :: q in s.admits ==> s.admits[q].admissionSeq == q && WellFormed(s.admits[q]))
            && (forall q :: q in s.oplog ==> s.cursors.head <= q < s.cursors.tail)
            && (forall q :: q in s.oplog && s.oplog[q].Rollback? ==> s.oplog[q].marker < q)
            && RisesByPlace(s) && BoundedByPlace(s)
  {
    RisesIffByPlace(s);
    BoundedIffByPlace(s);
  }

  /** The submit log has a row at every retained number. */
  ghost predicate OplogDense(s: SpaceState) {
    forall q :: q in s.oplog <==> s.cursors.head <= q < s.cursors.tail
  }

  // ----- windows --------------------------------------------------------------------

  lemma {:induction false} EntriesAgree(a: map<nat, DeviceOp>, b: map<nat, DeviceOp>, from: nat, to: nat)
    requires forall q :: from <= q < to ==> (q in a <==> q in b) && (q in a ==> a[q] == b[q])
    ensures EntriesIn(a, from, to) == EntriesIn(b, from, to)
  {
    if from < to {
      EntriesAgree(a, b, from, to - 1);
    }
  }

  lemma {:induction false} EntriesSplit(log: map<nat, DeviceOp>, from: nat, mid: nat, to: nat)
    requires from <= mid <= to
    ensures EntriesIn(log, from, to) == EntriesIn(log, from, mid) + EntriesIn(log, mid, to)
  {
    if mid < to {
      EntriesSplit(log, from, mid, to - 1);
    } else {
      assert EntriesIn(log, mid, to) == [];
    }
  }

  lemma {:induction false} SuffixSound(a: seq<DeviceEntry>, b: seq<DeviceEntry>, high: Option<nat>)
    requires VersIncrease(a + b) && VersBounded(a + b, high)
    ensures VersIncrease(b) && VersBounded(b, high)
  {
    forall i, j | 0 <= i < j < |b| && SameKey(b[i], b[j]) ensures b[i].tag.ver < b[j].tag.ver {
      assert (a + b)[|a| + i] == b[i] && (a + b)[|a| + j] == b[j];
    }
    forall e | e in b ensures high.Some? && e.tag.ver <= high.value {
      assert e in a + b;
    }
  }

  /** The records in `[from, to)`, in order. */
  function RowsIn(log: map<nat, DeviceOp>, from: nat, to: nat): seq<(nat, DeviceOp)> {
    if to <= from then [] else RowsIn(log, from, to - 1) + if to - 1 in log then [(to - 1, log[to - 1])] else []
  }

  lemma {:induction false} RowsGap(log: map<nat, DeviceOp>, from: nat, mid: nat, to: nat)
    requires mid <= to && forall q :: mid <= q < to && from <= q ==> q !in log
    ensures RowsIn(log, from, to) == RowsIn(log, from, mid)
  {
    if mid < to {
      RowsGap(log, from, mid, to - 1);
    }
  }

  /** Entries carry the reserved versions, in order. */
  predicate Stamped(r: Reservation, entries: seq<DeviceEntry>) {
    && |entries| == |r.versions|
    && forall i :: 0 <= i < |entries| ==> entries[i].tag.ver == r.versions[i] && entries[i].tag.deviceSeq == r.at
  }

  /** A reservation hands out the numbers after some high-water mark. */
  ghost predicate Issued(r: Reservation) {
    r.verHigh >= |r.versions| && r.versions == VersionsAfter(r.verHigh - |r.versions|, |r.versions|)
  }

  lemma {:induction false} AppendSound(es: seq<DeviceEntry>, entries: seq<DeviceEntry>, r: Reservation,
                                       high: Option<nat>)
    requires VersIncrease(es) && VersBounded(es, high)
    requires Issued(r) && Stamped(r, entries)
    requires high.Some? ==> high.value == r.verHigh - |entries|
    ensures VersIncrease(es + entries) && VersBounded(es + entries, Some(r.verHigh))
  {
    var all := es + entries;
    forall i, j | 0 <= i < j < |all| && SameKey(all[i], all[j]) ensures all[i].tag.ver < all[j].tag.ver {
      if i < |es| <= j {
        assert all[i] in es;
      }
    }
    forall e | e in all ensures e.tag.ver <= r.verHigh {
      var i :| 0 <= i < |all| && all[i] == e;
      if i < |es| {
        assert e in es;
      }
    }
  }

  // ----- every transition keeps the oracle satisfied ----------------------------

  lemma {:induction false} EntriesGrow(log: map<nat, DeviceOp>, from: nat, to: nat, op: DeviceOp)
    requires from <= to
    ensures EntriesIn(log[to := op], from, to + 1) == EntriesIn(log, from, to) + op.Entries()
  {
    EntriesAgree(log, log[to := op], from, to);
  }

  /** The store takes any entries of the right number, and the shape survives all of them. */
  lemma {:induction false} CommitKeepsShape(s: SpaceState, r: Reservation, entries: seq<DeviceEntry>)
    requires Shaped(s) && CommitEntries(s, r, entries).Ok?
    ensures Shaped(CommitEntries(s, r, entries).value)
    ensures OplogDense(s) ==> OplogDense(CommitEntries(s, r, entries).value)
  {}

  lemma {:induction false} CommitKeeps(s: SpaceState, r: Reservation, entries: seq<DeviceEntry>)
    requires Certified(s) && Issued(r) && Stamped(r, entries) && CommitEntries(s, r, entries).Ok?
    ensures Certified(CommitEntries(s, r, entries).value)
    ensures OplogDense(s) ==> OplogDense(CommitEntries(s, r, entries).value)
  {
    CommitKeepsShape(s, r, entries);
    EntriesGrow(s.oplog, s.cursors.neck, s.cursors.tail, Commit(entries, r.rangeAsserts, [], r.submitMode));
    AppendSound(EntriesIn(s.oplog, s.cursors.neck, s.cursors.tail), entries, r, s.verHigh);
  }

  lemma {:induction false} TrimKeepsVersions(s: SpaceState, through: nat, checksum: Checksum)
    requires s.cursors.Ordered() && VersionsSound(s) && TrimOplog(s, through, checksum).Ok?
    ensures VersionsSound(TrimOplog(s, through, checksum).value)
  {
    var s' := TrimOplog(s, through, checksum).value;
    var neck, neck', tail := s.cursors.neck, s'.cursors.neck, s.cursors.tail;
    EntriesSplit(s.oplog, neck, neck', tail);
    SuffixSound(EntriesIn(s.oplog, neck, neck'), EntriesIn(s.oplog, neck', tail), s.verHigh);
    EntriesAgree(s.oplog, s'.oplog, neck', tail);
  }

  lemma {:induction false} TrimKeeps(s: SpaceState, through: nat, checksum: Checksum)
    requires Shaped(s) && TrimOplog(s, through, checksum).Ok?
    ensures Shaped(TrimOplog(s, through, checksum).value)
    ensures OplogDense(s) ==> OplogDense(TrimOplog(s, through, checksum).value)
    ensures Certified(s) ==> Certified(TrimOplog(s, through, checksum).value)
  {
    if Certified(s) {
      TrimKeepsVersions(s, through, checksum);
    }
  }

  lemma {:induction false} MarkerHasNoEntries(log: map<nat, DeviceOp>, q: nat, to: nat)
    ensures EntriesIn(log[q := Rollback(to)], q, q + 1) == []
  {
    assert EntriesIn(log[q := Rollback(to)], q, q) == [];
  }

  lemma {:induction false} RolledBackKeeps(s: SpaceState, to: nat)
    requires Shaped(s) && s.cursors.neck <= to < s.cursors.tail
    ensures Shaped(RolledBack(s, to)) && VersionsSound(RolledBack(s, to))
    ensures OplogDense(s) ==> OplogDense(RolledBack(s, to))
  {
    MarkerHasNoEntries(s.oplog, s.cursors.tail, to);
    assert RowsSound(RolledBack(s, to).cursors, RolledBack(s, to).oplog);
  }

  lemma {:induction false} RollBackKeeps(s: SpaceState, to: nat)
    requires Shaped(s) && RollBack(s, to).Ok?
    ensures Shaped(RollBack(s, to).value)
    ensures OplogDense(s) ==> OplogDense(RollBack(s, to).value)
    ensures Certified(s) ==> Certified(RollBack(s, to).value)
  {
    if s.cursors.neck <= to < s.cursors.tail {
      RolledBackKeeps(s, to);
    }
  }

  lemma {:induction false} WithBatchesAt(admits: map<nat, LogBatch>, after: nat, batches: seq<LogBatch>, q: nat)
    requires forall i :: 0 <= i < |batches| ==> batches[i].admissionSeq == after + i + 1
    ensures q in WithBatches(admits, batches) <==> q in admits || after < q <= after + |batches|
    ensures after < q <= after + |batches| ==> WithBatches(admits, batches)[q] == batches[q - after - 1]
    ensures q in admits && !(after < q <= after + |batches|) ==> WithBatches(admits, batches)[q] == admits[q]
  {
    if batches != [] {
      WithBatchesAt(admits, after, batches[..|batches| - 1], q);
    }
  }

  lemma {:induction false} AppendKeeps(s: SpaceState, page: PullResponse)
    requires Shaped(s) && Dense(page) && AppendFault(s, page).None?
    ensures Shaped(AppendAdmits(s, page))
    ensures OplogDense(s) ==> OplogDense(AppendAdmits(s, page))
    ensures Certified(s) ==> Certified(AppendAdmits(s, page))
  {
    var s' := AppendAdmits(s, page);
    if page.batches != [] {
      forall q: nat
        ensures q in s'.admits <==> s'.admitCursors.head <= q < s'.admitCursors.tail
        ensures q in s'.admits ==> s'.admits[q].admissionSeq == q && WellFormed(s'.admits[q])
      {
        WithBatchesAt(s.admits, page.after, page.batches, q);
      }
    }
  }

  lemma {:induction false} MarkKeeps(s: SpaceState, to: nat)
    requires Shaped(s) && MarkApplied(s, to).Ok?
    ensures Shaped(MarkApplied(s, to).value)
    ensures Certified(s) ==> Certified(MarkApplied(s, to).value)
  {}

  lemma {:induction false} TrimAdmitsKeeps(s: SpaceState, to: nat)
    requires Shaped(s) && TrimAdmits(s, to).Ok?
    ensures Shaped(TrimAdmits(s, to).value)
    ensures Certified(s) ==> Certified(TrimAdmits(s, to).value)
  {}
}
