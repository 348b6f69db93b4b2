/**
 How the auditor compares the two lease indexes (sim/src/check.rs): the records found by
 identity and those found by prefix must be the same, and every identity handed out so far
 must lie below the counter.
 */
module AuditLeases {
  import opened Types
  import Codec
  import opened Keys
  import opened Storage
  import opened LeaseIndex

  /** The byte prefix of the whole index by prefix. */
  function PrefixScan(space: Bytes): Bytes { Enc([space, [LEASE_BY_PREFIX]]) }

  /** `k` is the last key below a scan whose record has this identity. */
  ghost predicate LastUnder(data: map<Bytes, LeaseRecord>, scan: Bytes, id: nat, k: Bytes) {
    && k in data && scan <= k && data[k].id == id
    && forall j :: j in data && scan <= j && data[j].id == id ==> j == k || BytesLess(j, k)
  }

  /** The record a scan leaves for an identity. */
  ghost predicate Leaves(data: map<Bytes, LeaseRecord>, scan: Bytes, id: nat, r: LeaseRecord) {
    exists k :: LastUnder(data, scan, id, k) && data[k] == r
  }

  /** Both indexes leave the same records, all with identities below the counter. */
  ghost predicate LeasesSound(data: map<Bytes, LeaseRecord>, space: Bytes, next: nat) {
    && (forall id: nat, r :: Leaves(data, IdScan(space), id, r) <==> Leaves(data, PrefixScan(space), id, r))
    && (forall id: nat, r :: Leaves(data, IdScan(space), id, r) ==> id < next)
  }

  /** Row `j` is the last of the first `i` rows with this identity. */
  ghost predicate LastRow(rows: seq<(Bytes, LeaseRecord)>, i: nat, id: nat, j: nat) {
    0 <= j < i <= |rows| && rows[j].1.id == id && forall m :: j < m < i ==> rows[m].1.id != id
  }

  ghost predicate GroupedAt(rows: seq<(Bytes, LeaseRecord)>, i: nat, found: map<nat, LeaseRecord>, id: nat)
    requires i <= |rows|
  {
    if id in found then exists j: nat :: LastRow(rows, i, id, j) && found[id] == rows[j].1
    else forall j :: 0 <= j < i ==> rows[j].1.id != id
  }

  /** `found` maps the identities of the first `i` rows to the last row of each. */
  ghost predicate Grouped(rows: seq<(Bytes, LeaseRecord)>, i: nat, found: map<nat, LeaseRecord>) {
    i <= |rows| && forall id: nat :: GroupedAt(rows, i, found, id)
  }

  lemma {:induction false} GroupStepAt(rows: seq<(Bytes, LeaseRecord)>, i: nat, found: map<nat, LeaseRecord>, id: nat)
    requires i < |rows| && GroupedAt(rows, i, found, id)
    ensures GroupedAt(rows, i + 1, found[rows[i].1.id := rows[i].1], id)
  {
    if id == rows[i].1.id {
      assert LastRow(rows, i + 1, id, i);
    } else if id in found {
      var j: nat :| LastRow(rows, i, id, j) && found[id] == rows[j].1;
      assert LastRow(rows, i + 1, id, j);
    }
  }

  lemma {:induction false} GroupStep(rows: seq<(Bytes, LeaseRecord)>, i: nat, found: map<nat, LeaseRecord>)
    requires i < |rows| && Grouped(rows, i, found)
    ensures Grouped(rows, i + 1, found[rows[i].1.id := rows[i].1])
  {
    var n, now := i + 1, found[rows[i].1.id := rows[i].1];
    forall id: nat ensures GroupedAt(rows, n, now, id) {
      GroupStepAt(rows, i, found, id);
    }
  }

  method GroupById(rows: seq<(Bytes, LeaseRecord)>) returns (found: map<nat, LeaseRecord>)
    ensures Grouped(rows, |rows|, found)
  {
    found := map[];
    for i := 0 to |rows|
      invariant Grouped(rows, i, found)
    {
      GroupStep(rows, i, found);
      found := found[rows[i].1.id := rows[i].1];
    }
  }

  lemma {:induction false} LastRowIsLast(data: map<Bytes, LeaseRecord>, scan: Bytes, rows: seq<(Bytes, LeaseRecord)>,
                                         id: nat, j: nat)
    requires Lists(data, KeysUnder(data, scan), rows) && LastRow(rows, |rows|, id, j)
    ensures LastUnder(data, scan, id, rows[j].0)
  {
    assert rows[j].0 in KeysUnder(data, scan);
    forall k | k in data && scan <= k && data[k].id == id ensures k == rows[j].0 || BytesLess(k, rows[j].0) {
      assert k in KeysUnder(data, scan);
      var m :| 0 <= m < |rows| && rows[m].0 == k;
      assert m <= j;
    }
  }

  lemma {:induction false} LastIsUnique(data: map<Bytes, LeaseRecord>, scan: Bytes, id: nat, k: Bytes, j: Bytes)
    requires LastUnder(data, scan, id, k) && LastUnder(data, scan, id, j)
    ensures k == j
  {
    if k != j {
      LessTransitive(k, j, k);
      LessIrreflexive(k);
    }
  }

  /** Grouping the rows of a scan finds exactly what the scan leaves. */
  lemma {:induction false} GroupedIsLeft(data: map<Bytes, LeaseRecord>, scan: Bytes, rows: seq<(Bytes, LeaseRecord)>,
                                         found: map<nat, LeaseRecord>, id: nat, r: LeaseRecord)
    requires Lists(data, KeysUnder(data, scan), rows) && Grouped(rows, |rows|, found)
    ensures Leaves(data, scan, id, r) <==> id in found && found[id] == r
  {
    assert GroupedAt(rows, |rows|, found, id);
    if id in found {
      var j: nat :| LastRow(rows, |rows|, id, j) && found[id] == rows[j].1;
      LastRowIsLast(data, scan, rows, id, j);
      if k :| LastUnder(data, scan, id, k) && data[k] == r {
        LastIsUnique(data, scan, id, k, rows[j].0);
      }
    }
    if k :| LastUnder(data, scan, id, k) && data[k] == r {
      assert k in KeysUnder(data, scan);
      var m :| 0 <= m < |rows| && rows[m].0 == k;
      assert rows[m].1.id == id;
    }
  }

  method CheckIds(found: map<nat, LeaseRecord>, next: nat) returns (ok: bool)
    ensures ok <==> forall id :: id in found ==> id < next
  {
    var rest := found.Keys;
    while rest != {}
      invariant rest <= found.Keys && forall id :: id in found && id !in rest ==> id < next
      decreases |rest|
    {
      var id :| id in rest;
      if id >= next {
        return false;
      }
      rest := rest - {id};
    }
    return true;
  }

  /** Compare the two indexes, and the identities with the counter. */
  method CheckLeases(index: MemoryStore<LeaseRecord>, space: Bytes, next: nat) returns (ok: bool)
    ensures ok <==> LeasesSound(index.data, space, next)
  {
    var idRows := index.ScanPrefix(IdScan(space));
    var byId := GroupById(idRows);
    var prefixRows := index.ScanPrefix(PrefixScan(space));
    var byPrefix := GroupById(prefixRows);
    var below := CheckIds(byId, next);
    ok := byId == byPrefix && below;
    GroupFinds(index.data, IdScan(space), idRows, byId);
    GroupFinds(index.data, PrefixScan(space), prefixRows, byPrefix);
    SameIffSound(index.data, space, next, byId, byPrefix);
  }

  /** `found` holds exactly what the scan leaves. */
  ghost predicate Finds(data: map<Bytes, LeaseRecord>, scan: Bytes, found: map<nat, LeaseRecord>) {
    forall id: nat, r :: Leaves(data, scan, id, r) <==> Holds(found, id, r)
  }

  predicate Holds(found: map<nat, LeaseRecord>, id: nat, r: LeaseRecord) { id in found && found[id] == r }

  lemma {:induction false} GroupFinds(data: map<Bytes, LeaseRecord>, scan: Bytes, rows: seq<(Bytes, LeaseRecord)>,
                                      found: map<nat, LeaseRecord>)
    requires Lists(data, KeysUnder(data, scan), rows) && Grouped(rows, |rows|, found)
    ensures Finds(data, scan, found)
  {
    forall id: nat, r ensures Leaves(data, scan, id, r) <==> Holds(found, id, r) {
      GroupedIsLeft(data, scan, rows, found, id, r);
    }
  }

  lemma {:induction false} SameHolding(a: map<nat, LeaseRecord>, b: map<nat, LeaseRecord>)
    requires forall id: nat, r :: Holds(a, id, r) <==> Holds(b, id, r)
    ensures a == b
  {
    forall id: nat ensures id in a <==> id in b {
      assert id in a ==> Holds(a, id, a[id]);
      assert id in b ==> Holds(b, id, b[id]);
    }
    forall id: nat | id in a ensures a[id] == b[id] {
      assert Holds(a, id, a[id]);
    }
  }

  lemma {:induction false} SameIffSound(data: map<Bytes, LeaseRecord>, space: Bytes, next: nat,
                                        byId: map<nat, LeaseRecord>, byPrefix: map<nat, LeaseRecord>)
    requires Finds(data, IdScan(space), byId) && Finds(data, PrefixScan(space), byPrefix)
    ensures LeasesSound(data, space, next) <==> byId == byPrefix && forall id :: id in byId ==> id < next
  {
    if LeasesSound(data, space, next) {
      SameHolding(byId, byPrefix);
      forall id: nat | id in byId ensures id < next {
        assert Holds(byId, id, byId[id]) && Leaves(data, IdScan(space), id, byId[id]);
      }
    }
  }

  /** A store that indexes a set of leases, each with its own identity, leaves exactly that set in both indexes. */
  lemma {:induction false} IndexLeavesLeases(data: map<Bytes, LeaseRecord>, space: Bytes, leases: set<LeaseRecord>,
                                             id: nat, r: LeaseRecord)
    requires Indexed(data, space, leases) && OwnIdentities(leases)
    ensures Leaves(data, IdScan(space), id, r) <==> r in leases && r.id == id
    ensures Leaves(data, PrefixScan(space), id, r) <==> r in leases && r.id == id
  {
    if r in leases && r.id == id {
      IndexKeysAreScanned(space, r);
      assert LastUnder(data, IdScan(space), id, IdKey(space, id));
      assert LastUnder(data, PrefixScan(space), id, LeaseKey(space, r.prefix, id));
    }
  }

  lemma {:induction false} IndexKeysAreScanned(space: Bytes, r: LeaseRecord)
    ensures IdScan(space) <= IdKey(space, r.id) && PrefixScan(space) <= LeaseKey(space, r.prefix, r.id)
  {
    PrefixIsBytePrefix([space, [LEASE_BY_ID]], [space, [LEASE_BY_ID], Codec.Be(8, r.id)]);
    PrefixIsBytePrefix([space, [LEASE_BY_PREFIX]], IndexHead(space, |r.prefix|) + r.prefix + [Codec.Be(8, r.id)]);
  }

  /** Hence every properly kept index passes, as long as the counter is ahead of it. */
  lemma {:induction false} IndexPassesAudit(data: map<Bytes, LeaseRecord>, space: Bytes, leases: set<LeaseRecord>,
                                            next: nat)
    requires Indexed(data, space, leases) && OwnIdentities(leases)
    requires forall r :: r in leases ==> r.id < next
    ensures LeasesSound(data, space, next)
  {
    forall id: nat, r
      ensures Leaves(data, IdScan(space), id, r) <==> r in leases && r.id == id
      ensures Leaves(data, PrefixScan(space), id, r) <==> r in leases && r.id == id
    {
      IndexLeavesLeases(data, space, leases, id, r);
    }
  }
}
