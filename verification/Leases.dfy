/**
 Granting, renewing and releasing leases (server/src/space/lease.rs).

 Every verb reads the index, collects its writes in one batch and applies it at the
 end. Expired records are removed by whichever verb meets them.
 */
module Leases {
  import opened Types
  import opened Codec
  import opened Keys
  import opened Storage
  import opened LeaseIndex

  datatype LeaseSpec = LeaseSpec(prefix: Key, mode: LeaseMode, ttl: nat)

  // ----- one record, two rows ---------------------------------------------------------

  lemma {:induction false} IdsSeparate(a: nat, b: nat)
    requires a < U64_LIMIT && b < U64_LIMIT && Be(8, a) == Be(8, b)
    ensures a == b
  {
    Limits();
    BeInverse(8, a);
    BeInverse(8, b);
  }

  lemma {:induction false} IdKeysSeparate(space: Bytes, a: nat, b: nat)
    requires a < U64_LIMIT && b < U64_LIMIT && IdKey(space, a) == IdKey(space, b)
    ensures a == b
  {
    EncodingIsInjective([space, [LEASE_BY_ID], Be(8, a)], [space, [LEASE_BY_ID], Be(8, b)]);
    assert [space, [LEASE_BY_ID], Be(8, a)][2] == [space, [LEASE_BY_ID], Be(8, b)][2];
    IdsSeparate(a, b);
  }

  lemma {:induction false} LeaseKeysSeparate(space: Bytes, p: Key, a: nat, q: Key, b: nat)
    requires a < U64_LIMIT && b < U64_LIMIT && LeaseKey(space, p, a) == LeaseKey(space, q, b)
    ensures a == b
  {
    var x, y := IndexHead(space, |p|) + p + [Be(8, a)], IndexHead(space, |q|) + q + [Be(8, b)];
    EncodingIsInjective(x, y);
    assert x[|x| - 1] == Be(8, a) && y[|y| - 1] == Be(8, b);
    IdsSeparate(a, b);
  }

  /** A key of one index is not below the scan of the other. */
  lemma {:induction false} IndexesSeparate(space: Bytes, p: Key, id: nat)
    ensures !(IdScan(space) <= LeaseKey(space, p, id)) && !(Enc([space, [LEASE_BY_PREFIX]]) <= IdKey(space, id))
  {
    var x, y := IndexHead(space, |p|) + p + [Be(8, id)], [space, [LEASE_BY_ID], Be(8, id)];
    PrefixIsBytePrefix([space, [LEASE_BY_ID]], x);
    PrefixIsBytePrefix([space, [LEASE_BY_PREFIX]], y);
    assert x[1] == [LEASE_BY_PREFIX] && y[1] == [LEASE_BY_ID];
    assert [space, [LEASE_BY_ID]][1] != x[1] && [space, [LEASE_BY_PREFIX]][1] != y[1];
  }

  function PurgeOps(space: Bytes, r: LeaseRecord): seq<Op<LeaseRecord>> {
    [Remove(IdKey(space, r.id)), Remove(LeaseKey(space, r.prefix, r.id))]
  }

  function PutOps(space: Bytes, r: LeaseRecord): seq<Op<LeaseRecord>> {
    [Put(IdKey(space, r.id), r), Put(LeaseKey(space, r.prefix, r.id), r)]
  }

  lemma {:induction false} TwoOps<V>(m: map<Bytes, V>, a: Op<V>, b: Op<V>)
    ensures ApplyOps(m, [a, b]) == Effect(Effect(m, a), b)
  {
    assert [a, b][..1] == [a] && [a][..0] == [];
    assert ApplyOps(m, [a]) == Effect(ApplyOps(m, []), a);
  }

  /** Identities fit a word, and those equal to `r`'s belong to the same grant. */
  ghost predicate Fits(leases: set<LeaseRecord>, r: LeaseRecord) {
    r.id < U64_LIMIT && forall s :: s in leases ==> s.id < U64_LIMIT && (s.id == r.id ==> s.prefix == r.prefix)
  }

  function Without(leases: set<LeaseRecord>, id: nat): set<LeaseRecord> { set s | s in leases && s.id != id }

  /** Rows of other records are not touched by writes to the rows of `r`. */
  lemma {:induction false} OthersApart(space: Bytes, r: LeaseRecord, s: LeaseRecord)
    requires r.id < U64_LIMIT && s.id < U64_LIMIT && r.id != s.id
    ensures IdKey(space, s.id) != IdKey(space, r.id)
    ensures LeaseKey(space, s.prefix, s.id) != LeaseKey(space, r.prefix, r.id)
    ensures IdKey(space, s.id) != LeaseKey(space, r.prefix, r.id)
    ensures LeaseKey(space, s.prefix, s.id) != IdKey(space, r.id)
  {
    if IdKey(space, s.id) == IdKey(space, r.id) {
      IdKeysSeparate(space, s.id, r.id);
    }
    if LeaseKey(space, s.prefix, s.id) == LeaseKey(space, r.prefix, r.id) {
      LeaseKeysSeparate(space, s.prefix, s.id, r.prefix, r.id);
    }
    IndexesSeparate(space, r.prefix, r.id);
    IndexesSeparate(space, s.prefix, s.id);
    PrefixIsBytePrefix([space, [LEASE_BY_ID]], [space, [LEASE_BY_ID], Be(8, s.id)]);
    PrefixIsBytePrefix([space, [LEASE_BY_ID]], [space, [LEASE_BY_ID], Be(8, r.id)]);
  }

  lemma {:induction false} PurgeIndexed(data: map<Bytes, LeaseRecord>, space: Bytes, leases: set<LeaseRecord>,
                                        r: LeaseRecord)
    requires Indexed(data, space, leases) && Fits(leases, r)
    ensures Indexed(ApplyOps(data, PurgeOps(space, r)), space, Without(leases, r.id))
  {
    var a, b := IdKey(space, r.id), LeaseKey(space, r.prefix, r.id);
    TwoOps(data, Remove(a), Remove(b));
    forall s | s in Without(leases, r.id)
      ensures LeaseKey(space, s.prefix, s.id) !in {a, b} && IdKey(space, s.id) !in {a, b}
    {
      OthersApart(space, r, s);
    }
  }

  lemma {:induction false} PutIndexed(data: map<Bytes, LeaseRecord>, space: Bytes, leases: set<LeaseRecord>,
                                      r: LeaseRecord)
    requires Indexed(data, space, leases) && Fits(leases, r) && |r.prefix| <= MAX_COMPONENTS
    ensures Indexed(ApplyOps(data, PutOps(space, r)), space, Without(leases, r.id) + {r})
  {
    var a, b := IdKey(space, r.id), LeaseKey(space, r.prefix, r.id);
    TwoOps(data, Put(a, r), Put(b, r));
    IndexesSeparate(space, r.prefix, r.id);
    forall s | s in Without(leases, r.id)
      ensures LeaseKey(space, s.prefix, s.id) !in {a, b} && IdKey(space, s.id) !in {a, b}
    {
      OthersApart(space, r, s);
    }
  }

  // ----- batches ----------------------------------------------------------------------

  /** Every lease has its own identity, below the counter. */
  ghost predicate TableOk(leases: set<LeaseRecord>, next: nat) {
    && OwnIdentities(leases) && next <= U64_LIMIT
    && forall r :: r in leases ==> r.id < next && |r.prefix| <= MAX_COMPONENTS
  }

  /** The leases left when records with the identities of `dead` are removed. */
  ghost function Purged(leases: set<LeaseRecord>, dead: seq<LeaseRecord>): set<LeaseRecord> {
    set s | s in leases && forall r :: r in dead ==> s.id != r.id
  }

  lemma {:induction false} PurgedNext(leases: set<LeaseRecord>, dead: seq<LeaseRecord>, i: nat)
    requires i < |dead|
    ensures Purged(leases, dead[..i + 1]) == Without(Purged(leases, dead[..i]), dead[i].id)
  {
    assert dead[..i + 1] == dead[..i] + [dead[i]];
  }

  method PurgeRecords(space: Bytes, batch: seq<Op<LeaseRecord>>, dead: seq<LeaseRecord>,
                      ghost data: map<Bytes, LeaseRecord>, ghost leases: set<LeaseRecord>)
    returns (longer: seq<Op<LeaseRecord>>)
    requires Indexed(ApplyOps(data, batch), space, leases) && forall r :: r in dead ==> Fits(leases, r)
    ensures Indexed(ApplyOps(data, longer), space, Purged(leases, dead))
  {
    longer := batch;
    assert Purged(leases, dead[..0]) == leases;
    for i := 0 to |dead|
      invariant Indexed(ApplyOps(data, longer), space, Purged(leases, dead[..i]))
    {
      assert dead[i] in dead;
      PurgeIndexed(ApplyOps(data, longer), space, Purged(leases, dead[..i]), dead[i]);
      PurgedNext(leases, dead, i);
      ApplyConcat(data, longer, PurgeOps(space, dead[i]));
      longer := longer + PurgeOps(space, dead[i]);
    }
    assert dead[..|dead|] == dead;
  }

  // ----- what an acquire asks for -----------------------------------------------------

  /** A live lease that excludes the one asked for: it overlaps, and the two are not both read leases. */
  ghost predicate Blocks(spec: LeaseSpec, now: nat, r: LeaseRecord) {
    now < r.deadline && Overlaps(spec.prefix, r) && (spec.mode.Write? || r.mode.Write?)
  }

  ghost predicate Blocked(leases: set<LeaseRecord>, spec: LeaseSpec, now: nat) {
    exists r :: r in leases && Blocks(spec, now, r)
  }

  predicate Clash(a: LeaseSpec, b: LeaseSpec) {
    Prefix(a.prefix).Overlaps(Prefix(b.prefix)) && (a.mode.Write? || b.mode.Write?)
  }

  /** An earlier and a later spec of a request exclude each other. */
  predicate ClashAt(specs: seq<LeaseSpec>, i: nat, j: nat) { i < j < |specs| && Clash(specs[i], specs[j]) }

  /** One of the first `n` specs overlaps a lease. */
  ghost predicate Touches(specs: seq<LeaseSpec>, n: nat, r: LeaseRecord)
    requires n <= |specs|
  {
    exists i :: 0 <= i < n && Overlaps(specs[i].prefix, r)
  }

  /** The leases left when the expired ones that the first `n` specs meet are removed. */
  ghost function Unexpired(leases: set<LeaseRecord>, specs: seq<LeaseSpec>, n: nat, now: nat): set<LeaseRecord>
    requires n <= |specs|
  {
    set r | r in leases && (r.Live(now) || !Touches(specs, n, r))
  }

  /** None of the first `n` specs is blocked. */
  ghost predicate NoneBlocked(leases: set<LeaseRecord>, specs: seq<LeaseSpec>, n: nat, now: nat)
    requires n <= |specs|
  {
    forall i :: 0 <= i < n ==> !Blocked(leases, specs[i], now)
  }

  function Deadline(now: nat, ttl: nat): nat { Min(now + ttl, U64_LIMIT - 1) }

  function Grant(id: nat, device: DeviceId, now: nat, barrier: nat, spec: LeaseSpec): LeaseRecord {
    LeaseRecord(id, spec.prefix, spec.mode, device, barrier, Deadline(now, spec.ttl), spec.ttl)
  }

  /** One grant for each spec, with consecutive identities. */
  function Grants(next: nat, device: DeviceId, now: nat, barrier: nat, specs: seq<LeaseSpec>): seq<LeaseRecord> {
    seq(|specs|, i requires 0 <= i < |specs| => Grant(next + i, device, now, barrier, specs[i]))
  }

  /** The end of a lease that starts at `now`: its time to live later, as far as the clock counts. */
  predicate Ends(now: nat, ttl: nat, deadline: nat) {
    if now + ttl < U64_LIMIT then deadline == now + ttl else deadline == U64_LIMIT - 1
  }

  /** One lease for each spec, as asked for, under consecutive identities. */
  predicate GrantedAs(granted: seq<LeaseRecord>, next: nat, device: DeviceId, now: nat, barrier: nat,
                      specs: seq<LeaseSpec>)
  {
    && |granted| == |specs|
    && forall i :: 0 <= i < |specs| ==>
                     && granted[i].id == next + i && granted[i].prefix == specs[i].prefix
                     && granted[i].mode == specs[i].mode && granted[i].ttl == specs[i].ttl
                     && granted[i].device == device && granted[i].barrier == barrier
                     && Ends(now, specs[i].ttl, granted[i].deadline)
  }

  datatype AcquireResult = Granted(leases: seq<LeaseRecord>) | Refused(prefix: Key, retryAfter: Option<nat>)

  lemma {:induction false} UnexpiredNext(leases: set<LeaseRecord>, specs: seq<LeaseSpec>, now: nat, i: nat,
                                         dead: seq<LeaseRecord>)
    requires i < |specs| && OwnIdentities(leases)
    requires forall r :: r in dead <==> r in leases && Overlaps(specs[i].prefix, r) && !r.Live(now)
    ensures Purged(Unexpired(leases, specs, i, now), dead) == Unexpired(leases, specs, i + 1, now)
  {
    forall r | r in leases ensures Touches(specs, i + 1, r) <==> Touches(specs, i, r) || Overlaps(specs[i].prefix, r) {
      if Touches(specs, i, r) {
        var j :| 0 <= j < i && Overlaps(specs[j].prefix, r);
        assert Touches(specs, i + 1, r);
      }
    }
  }

  /** The live leases that exclude a spec. */
  method Blockers(live: seq<LeaseRecord>, mode: LeaseMode) returns (blockers: seq<LeaseRecord>)
    ensures forall r :: r in blockers <==> r in live && !mode.CompatibleWith(r.mode)
  {
    blockers := [];
    for i := 0 to |live|
      invariant forall r :: r in blockers <==> r in live[..i] && !mode.CompatibleWith(r.mode)
    {
      assert live[..i + 1] == live[..i] + [live[i]];
      if !mode.CompatibleWith(live[i].mode) {
        blockers := blockers + [live[i]];
      }
    }
    assert live[..|live|] == live;
  }

  /** The latest deadline, and the identities, of some leases. */
  method Worst(blockers: seq<LeaseRecord>) returns (worst: nat, ids: set<nat>)
    requires blockers != []
    ensures (exists r :: r in blockers && r.deadline == worst) && forall r :: r in blockers ==> r.deadline <= worst
    ensures forall id :: id in ids <==> exists r :: r in blockers && r.id == id
  {
    worst, ids := blockers[0].deadline, {blockers[0].id};
    for i := 1 to |blockers|
      invariant exists j :: 0 <= j < i && blockers[j].deadline == worst
      invariant forall j :: 0 <= j < i ==> blockers[j].deadline <= worst
      invariant forall id :: id in ids <==> exists j :: 0 <= j < i && blockers[j].id == id
    {
      worst := Max(worst, blockers[i].deadline);
      ids := ids + {blockers[i].id};
    }
  }

  /** The first pair of specs that exclude each other. */
  method FirstClash(specs: seq<LeaseSpec>) returns (clash: Option<(nat, nat)>)
    ensures clash.None? <==> forall i: nat, j: nat :: !ClashAt(specs, i, j)
    ensures clash.Some? ==>
              && ClashAt(specs, clash.value.0, clash.value.1)
              && forall i: nat, j: nat :: ClashAt(specs, i, j) ==>
                clash.value.0 < i || (clash.value.0 == i && clash.value.1 <= j)
  {
    for i := 0 to |specs|
      invariant forall a: nat, b: nat :: a < i ==> !ClashAt(specs, a, b)
    {
      for j := i + 1 to |specs|
        invariant forall b: nat :: b < j ==> !ClashAt(specs, i, b)
      {
        if Prefix(specs[i].prefix).Overlaps(Prefix(specs[j].prefix)) && !specs[i].mode.CompatibleWith(specs[j].mode) {
          assert ClashAt(specs, i, j);
          return Some((i, j));
        }
      }
    }
    return None;
  }

  // ----- grants -----------------------------------------------------------------------

  lemma {:induction false} GrantsNext(next: nat, device: DeviceId, now: nat, barrier: nat, specs: seq<LeaseSpec>,
                                      i: nat)
    requires i < |specs|
    ensures Grants(next, device, now, barrier, specs[..i + 1]) ==
            Grants(next, device, now, barrier, specs[..i]) + [Grant(next + i, device, now, barrier, specs[i])]
  {}

  lemma {:induction false} GrantsAreAsked(next: nat, device: DeviceId, now: nat, barrier: nat, specs: seq<LeaseSpec>)
    ensures GrantedAs(Grants(next, device, now, barrier, specs), next, device, now, barrier, specs)
  {}

  function Records(rs: seq<LeaseRecord>): set<LeaseRecord> { set r | r in rs }

  /** One more grant under a new identity joins the leases. */
  lemma {:induction false} GrantIndexed(data: map<Bytes, LeaseRecord>, space: Bytes, leases: set<LeaseRecord>,
                                        batch: seq<Op<LeaseRecord>>, granted: seq<LeaseRecord>, r: LeaseRecord)
    requires Indexed(ApplyOps(data, batch), space, leases + Records(granted))
    requires r.id < U64_LIMIT && |r.prefix| <= MAX_COMPONENTS
    requires forall s :: s in leases + Records(granted) ==> s.id < r.id
    ensures Indexed(ApplyOps(data, batch + PutOps(space, r)), space, leases + Records(granted + [r]))
  {
    var all := leases + Records(granted);
    PutIndexed(ApplyOps(data, batch), space, all, r);
    ApplyConcat(data, batch, PutOps(space, r));
    assert Without(all, r.id) == all;
    assert Records(granted + [r]) == Records(granted) + {r};
    assert all + {r} == leases + Records(granted + [r]);
  }

  method GrantSpecs(space: Bytes, batch: seq<Op<LeaseRecord>>, next: nat, device: DeviceId, now: nat, barrier: nat,
                    specs: seq<LeaseSpec>, ghost data: map<Bytes, LeaseRecord>, ghost leases: set<LeaseRecord>)
    returns (granted: seq<LeaseRecord>, longer: seq<Op<LeaseRecord>>)
    requires Indexed(ApplyOps(data, batch), space, leases) && TableOk(leases, next)
    requires next + |specs| <= U64_LIMIT && forall s :: s in specs ==> |s.prefix| <= MAX_COMPONENTS
    ensures granted == Grants(next, device, now, barrier, specs)
    ensures Indexed(ApplyOps(data, longer), space, leases + Records(granted))
  {
    granted, longer := [], batch;
    assert leases + Records([]) == leases;
    for i := 0 to |specs|
      invariant granted == Grants(next, device, now, barrier, specs[..i])
      invariant Indexed(ApplyOps(data, longer), space, leases + Records(granted))
    {
      var record := Grant(next + i, device, now, barrier, specs[i]);
      assert specs[i] in specs;
      GrantIndexed(data, space, leases, longer, granted, record);
      GrantsNext(next, device, now, barrier, specs, i);
      longer := longer + PutOps(space, record);
      granted := granted + [record];
    }
    assert specs[..|specs|] == specs;
  }

  /** The leases of a space, the next identity, and the identities somebody waits for. */
  datatype Table = Table(leases: set<LeaseRecord>, next: nat, demand: set<nat>)

  /** Nothing stands in the way of a request: no live lease, and none of its own specs. */
  ghost predicate Grantable(leases: set<LeaseRecord>, specs: seq<LeaseSpec>, now: nat) {
    NoneBlocked(leases, specs, |specs|, now) && forall i: nat, j: nat :: !ClashAt(specs, i, j)
  }

  /** Spec `i` is the first one blocked. */
  ghost predicate FirstBlocked(leases: set<LeaseRecord>, specs: seq<LeaseSpec>, now: nat, i: nat) {
    i < |specs| && Blocked(leases, specs[i], now) && NoneBlocked(leases, specs, i, now)
  }

  /** The wait is until the last of the leases that block a spec is over. */
  ghost predicate WaitsFor(leases: set<LeaseRecord>, spec: LeaseSpec, now: nat, wait: nat) {
    && (exists r :: r in leases && Blocks(spec, now, r) && r.deadline == now + wait)
    && (forall r :: r in leases && Blocks(spec, now, r) ==> r.deadline <= now + wait)
  }

  ghost function BlockerIds(leases: set<LeaseRecord>, spec: LeaseSpec, now: nat): set<nat> {
    set r | r in leases && Blocks(spec, now, r) :: r.id
  }

  /** Refused for spec `i`, the first one blocked: demand is noted and only expired leases are gone. */
  ghost predicate RefusedAt(t: Table, t': Table, specs: seq<LeaseSpec>, now: nat, i: nat, prefix: Key, wait: nat) {
    && FirstBlocked(t.leases, specs, now, i) && prefix == specs[i].prefix && WaitsFor(t.leases, specs[i], now, wait)
    && t' == Table(Unexpired(t.leases, specs, i + 1, now), t.next,
                   t.demand + BlockerIds(t.leases, specs[i], now))
  }

  /** The first pair of specs in a request that exclude each other. */
  ghost predicate FirstClashAt(specs: seq<LeaseSpec>, i: nat, j: nat) {
    ClashAt(specs, i, j) && forall a: nat, b: nat :: ClashAt(specs, a, b) ==> i < a || (i == a && j <= b)
  }

  /** What an acquire does, for each of its answers. */
  ghost predicate Acquired(t: Table, t': Table, device: DeviceId, now: nat, barrier: nat, specs: seq<LeaseSpec>,
                           result: AcquireResult)
  {
    match result
    case Granted(granted) =>
      && Grantable(t.leases, specs, now) && granted == Grants(t.next, device, now, barrier, specs)
      && GrantedAs(granted, t.next, device, now, barrier, specs)
      && t' == Table(Unexpired(t.leases, specs, |specs|, now) + Records(granted), t.next + |specs|, t.demand)
    case Refused(prefix, Some(wait)) => exists i :: RefusedAt(t, t', specs, now, i, prefix, wait)
    case Refused(prefix, None) =>
      && NoneBlocked(t.leases, specs, |specs|, now)
      && (exists i: nat, j: nat :: FirstClashAt(specs, i, j) && prefix == specs[j].prefix)
      && t' == t.(leases := Unexpired(t.leases, specs, |specs|, now))
  }

  lemma {:induction false} GrantIsOne(next: nat, device: DeviceId, now: nat, barrier: nat, specs: seq<LeaseSpec>,
                                      r: LeaseRecord)
    requires r in Grants(next, device, now, barrier, specs)
    ensures next <= r.id < next + |specs| && r == Grant(r.id, device, now, barrier, specs[r.id - next])
    ensures specs[r.id - next] in specs
  {
    var granted := Grants(next, device, now, barrier, specs);
    var i :| 0 <= i < |granted| && granted[i] == r;
  }

  lemma {:induction false} GrantedOk(leases: set<LeaseRecord>, next: nat, device: DeviceId, now: nat, barrier: nat,
                                     specs: seq<LeaseSpec>, granted: seq<LeaseRecord>)
    requires TableOk(leases, next) && next + |specs| <= U64_LIMIT
    requires forall s :: s in specs ==> |s.prefix| <= MAX_COMPONENTS
    requires granted == Grants(next, device, now, barrier, specs)
    ensures TableOk(leases + Records(granted), next + |specs|)
  {
    var all := leases + Records(granted);
    forall r | r in all ensures r.id < next + |specs| && |r.prefix| <= MAX_COMPONENTS {
      if r !in leases {
        GrantIsOne(next, device, now, barrier, specs, r);
      }
    }
    forall a, b | a in all && b in all && a.id == b.id ensures a == b {
      if a !in leases {
        GrantIsOne(next, device, now, barrier, specs, a);
      }
      if b !in leases {
        GrantIsOne(next, device, now, barrier, specs, b);
      }
    }
  }

  lemma {:induction false} BlockersWait(leases: set<LeaseRecord>, spec: LeaseSpec, now: nat, blockers: seq<LeaseRecord>,
                                        worst: nat, ids: set<nat>)
    requires forall r :: r in blockers <==> r in leases && Blocks(spec, now, r)
    requires (exists r :: r in blockers && r.deadline == worst) && forall r :: r in blockers ==> r.deadline <= worst
    requires forall id :: id in ids <==> exists r :: r in blockers && r.id == id
    ensures now < worst && WaitsFor(leases, spec, now, worst - now) && ids == BlockerIds(leases, spec, now)
  {
    var r :| r in blockers && r.deadline == worst;
    assert Blocks(spec, now, r);
    forall id ensures id in ids <==> id in BlockerIds(leases, spec, now) {}
  }

  // ----- renewal and release ------------------------------------------------------------

  datatype RenewGrant = RenewGrant(id: nat, ttl: nat, contended: bool)

  /** One of the first `n` identities asked about. */
  ghost predicate Asked(ids: seq<nat>, n: nat, id: nat)
    requires n <= |ids|
  {
    exists i :: 0 <= i < n && ids[i] == id
  }

  lemma {:induction false} AskedNext(ids: seq<nat>, n: nat, id: nat)
    requires n < |ids|
    ensures Asked(ids, n + 1, id) <==> Asked(ids, n, id) || id == ids[n]
  {
    if Asked(ids, n, id) {
      var i :| 0 <= i < n && ids[i] == id;
      assert Asked(ids, n + 1, id);
    }
  }

  /** What a renewal leaves of one lease: a live own one is extended, an expired one is removed. */
  function AfterRenew(r: LeaseRecord, device: DeviceId, now: nat): Option<LeaseRecord> {
    if !r.Live(now) then None
    else if r.device == device then Some(r.(deadline := Deadline(now, r.ttl)))
    else Some(r)
  }

  /** What a release leaves of one lease: an own or expired one is removed. */
  function AfterRelease(r: LeaseRecord, device: DeviceId, now: nat): Option<LeaseRecord> {
    if !r.Live(now) || r.device == device then None else Some(r)
  }

  /** The leases after `change` has been made to those the first `n` identities name. */
  ghost function Changed(leases: set<LeaseRecord>, ids: seq<nat>, n: nat,
                         change: LeaseRecord -> Option<LeaseRecord>): set<LeaseRecord>
    requires n <= |ids|
  {
    set r | r in leases && (Asked(ids, n, r.id) ==> change(r).Some?) ::
      if Asked(ids, n, r.id) then change(r).value else r
  }

  /** A change keeps the identity and prefix of what it keeps. */
  ghost predicate KeepsNames(change: LeaseRecord -> Option<LeaseRecord>) {
    forall r :: change(r).Some? ==> change(r).value.id == r.id && change(r).value.prefix == r.prefix
  }

  /** An identity that names nothing changes nothing. */
  lemma {:induction false} ChangedByNobody(leases: set<LeaseRecord>, ids: seq<nat>, n: nat,
                                           change: LeaseRecord -> Option<LeaseRecord>)
    requires n < |ids| && forall r :: r in leases ==> r.id != ids[n]
    ensures Changed(leases, ids, n + 1, change) == Changed(leases, ids, n, change)
  {
    forall r | r in leases ensures Asked(ids, n + 1, r.id) <==> Asked(ids, n, r.id) {
      AskedNext(ids, n, r.id);
    }
  }

  lemma {:induction false} ChangedAt(leases: set<LeaseRecord>, ids: seq<nat>, n: nat,
                                     change: LeaseRecord -> Option<LeaseRecord>, r: LeaseRecord)
    requires n < |ids| && r in leases && r.id == ids[n] && OwnIdentities(leases) && KeepsNames(change)
    ensures Changed(leases, ids, n + 1, change) ==
            Without(Changed(leases, ids, n, change), r.id) + if change(r).Some? then {change(r).value} else {}
  {
    var old', new' := Changed(leases, ids, n, change), Changed(leases, ids, n + 1, change);
    forall s | s in leases ensures Asked(ids, n + 1, s.id) <==> Asked(ids, n, s.id) || s == r {
      AskedNext(ids, n, s.id);
    }
    assert Asked(ids, n + 1, r.id);
  }

  /** Every changed lease comes from one with its identity and prefix. */
  lemma {:induction false} ChangedFrom(leases: set<LeaseRecord>, ids: seq<nat>, n: nat,
                                       change: LeaseRecord -> Option<LeaseRecord>, s: LeaseRecord)
      returns (r: LeaseRecord)
    requires n <= |ids| && KeepsNames(change) && s in Changed(leases, ids, n, change)
    ensures r in leases && r.id == s.id && r.prefix == s.prefix
    ensures if Asked(ids, n, r.id) then change(r) == Some(s) else s == r
  {
    r :| r in leases && (Asked(ids, n, r.id) ==> change(r).Some?)
      && s == if Asked(ids, n, r.id) then change(r).value else r;
  }

  lemma {:induction false} ChangedOk(leases: set<LeaseRecord>, next: nat, ids: seq<nat>, n: nat,
                                     change: LeaseRecord -> Option<LeaseRecord>)
    requires n <= |ids| && KeepsNames(change) && TableOk(leases, next)
    ensures TableOk(Changed(leases, ids, n, change), next)
  {
    var all := Changed(leases, ids, n, change);
    forall s | s in all ensures s.id < next && |s.prefix| <= MAX_COMPONENTS {
      var r := ChangedFrom(leases, ids, n, change, s);
    }
    forall a, b | a in all && b in all && a.id == b.id ensures a == b {
      var r := ChangedFrom(leases, ids, n, change, a);
      var s := ChangedFrom(leases, ids, n, change, b);
    }
  }

  lemma {:induction false} ChangedFits(leases: set<LeaseRecord>, next: nat, ids: seq<nat>, n: nat,
                                       change: LeaseRecord -> Option<LeaseRecord>, r: LeaseRecord, r': LeaseRecord)
    requires n <= |ids| && KeepsNames(change) && TableOk(leases, next)
    requires r in leases && r'.id == r.id && r'.prefix == r.prefix
    ensures Fits(Changed(leases, ids, n, change), r')
  {
    forall s | s in Changed(leases, ids, n, change)
      ensures s.id < U64_LIMIT && (s.id == r'.id ==> s.prefix == r'.prefix)
    {
      var q := ChangedFrom(leases, ids, n, change, s);
    }
  }

  /** A record its change leaves alone needs no write. */
  lemma {:induction false} ChangedNothing(leases: set<LeaseRecord>, ids: seq<nat>, n: nat,
                                          change: LeaseRecord -> Option<LeaseRecord>, r: LeaseRecord)
    requires n < |ids| && r in leases && r.id == ids[n] && OwnIdentities(leases) && change(r) == Some(r)
    ensures Changed(leases, ids, n + 1, change) == Changed(leases, ids, n, change)
  {
    forall s | s in leases ensures Asked(ids, n + 1, s.id) <==> Asked(ids, n, s.id) || s == r {
      AskedNext(ids, n, s.id);
    }
  }

  lemma {:induction false} ChangeRemoves(space: Bytes, batch: seq<Op<LeaseRecord>>, ids: seq<nat>, n: nat,
                                         r: LeaseRecord, change: LeaseRecord -> Option<LeaseRecord>,
                                         data: map<Bytes, LeaseRecord>, leases: set<LeaseRecord>, next: nat)
    requires n < |ids| && r in leases && r.id == ids[n] && TableOk(leases, next) && KeepsNames(change)
    requires Indexed(ApplyOps(data, batch), space, Changed(leases, ids, n, change)) && change(r).None?
    ensures Indexed(ApplyOps(data, batch + PurgeOps(space, r)), space, Changed(leases, ids, n + 1, change))
  {
    var left := Changed(leases, ids, n, change);
    ChangedAt(leases, ids, n, change, r);
    ChangedFits(leases, next, ids, n, change, r, r);
    PurgeIndexed(ApplyOps(data, batch), space, left, r);
    ApplyConcat(data, batch, PurgeOps(space, r));
    IndexedSame(ApplyOps(ApplyOps(data, batch), PurgeOps(space, r)), space, Without(left, r.id),
                ApplyOps(data, batch + PurgeOps(space, r)), Changed(leases, ids, n + 1, change));
  }

  lemma {:induction false} ChangeWrites(space: Bytes, batch: seq<Op<LeaseRecord>>, ids: seq<nat>, n: nat,
                                        r: LeaseRecord, r': LeaseRecord, change: LeaseRecord -> Option<LeaseRecord>,
                                        data: map<Bytes, LeaseRecord>, leases: set<LeaseRecord>, next: nat)
    requires n < |ids| && r in leases && r.id == ids[n] && TableOk(leases, next) && KeepsNames(change)
    requires Indexed(ApplyOps(data, batch), space, Changed(leases, ids, n, change)) && change(r) == Some(r')
    ensures Indexed(ApplyOps(data, batch + PutOps(space, r')), space, Changed(leases, ids, n + 1, change))
  {
    var left := Changed(leases, ids, n, change);
    ChangedAt(leases, ids, n, change, r);
    ChangedFits(leases, next, ids, n, change, r, r');
    PutIndexed(ApplyOps(data, batch), space, left, r');
    ApplyConcat(data, batch, PutOps(space, r'));
    IndexedSame(ApplyOps(ApplyOps(data, batch), PutOps(space, r')), space, Without(left, r.id) + {r'},
                ApplyOps(data, batch + PutOps(space, r')), Changed(leases, ids, n + 1, change));
  }

  lemma {:induction false} IndexedSame(data: map<Bytes, LeaseRecord>, space: Bytes, leases: set<LeaseRecord>,
                                       data': map<Bytes, LeaseRecord>, leases': set<LeaseRecord>)
    requires Indexed(data, space, leases) && data == data' && leases == leases'
    ensures Indexed(data', space, leases')
  {}

  /** The identity names a live lease of this device. */
  ghost predicate Renewable(leases: set<LeaseRecord>, id: nat, device: DeviceId, now: nat) {
    exists r :: r in leases && r.id == id && r.Live(now) && r.device == device
  }

  ghost predicate GrantFits(t: Table, device: DeviceId, now: nat, g: RenewGrant) {
    && g.contended == (g.id in t.demand)
    && exists r :: r in t.leases && r.id == g.id && r.ttl == g.ttl && r.Live(now) && r.device == device
  }

  /** The answers for the first `n` identities: each is granted or invalid, as its lease deserves, in order. */
  ghost predicate Answered(t: Table, device: DeviceId, now: nat, ids: seq<nat>, n: nat, granted: seq<RenewGrant>,
                           invalid: seq<nat>)
    requires n <= |ids|
  {
    if n == 0 then granted == [] && invalid == []
    else if Renewable(t.leases, ids[n - 1], device, now) then
      && granted != [] && granted[|granted| - 1].id == ids[n - 1] && GrantFits(t, device, now, granted[|granted| - 1])
      && Answered(t, device, now, ids, n - 1, granted[..|granted| - 1], invalid)
    else
      && invalid != [] && invalid[|invalid| - 1] == ids[n - 1]
      && Answered(t, device, now, ids, n - 1, granted, invalid[..|invalid| - 1])
  }

  lemma {:induction false} AnsweredNext(t: Table, device: DeviceId, now: nat, ids: seq<nat>, n: nat,
                                        granted: seq<RenewGrant>, invalid: seq<nat>, grant: Option<RenewGrant>)
    requires n < |ids| && Answered(t, device, now, ids, n, granted, invalid)
    requires grant.Some? <==> Renewable(t.leases, ids[n], device, now)
    requires grant.Some? ==> grant.value.id == ids[n] && GrantFits(t, device, now, grant.value)
    ensures if grant.Some? then Answered(t, device, now, ids, n + 1, granted + [grant.value], invalid)
            else Answered(t, device, now, ids, n + 1, granted, invalid + [ids[n]])
  {
    if grant.Some? {
      var more := granted + [grant.value];
      assert more[..|more| - 1] == granted;
    } else {
      var more := invalid + [ids[n]];
      assert more[..|more| - 1] == invalid;
    }
  }

  /**
   What a renewal leaves: a live lease of the caller that is named gets a new deadline, an expired one that is
   named is gone, and every other lease is as it was.
   */
  ghost predicate RenewedAs(leases: set<LeaseRecord>, leases': set<LeaseRecord>, ids: seq<nat>, device: DeviceId,
                            now: nat)
  {
    && (forall q :: q in leases ==>
      if q.id in ids && now < q.deadline && q.device == device then Extended(q, leases', now)
      else if q.id in ids && q.deadline <= now then forall r :: r in leases' ==> r.id != q.id
      else q in leases')
    && forall r :: r in leases' ==> exists q :: q in leases && q.id == r.id
  }

  ghost predicate Extended(q: LeaseRecord, leases: set<LeaseRecord>, now: nat) {
    exists r :: r in leases && r == q.(deadline := r.deadline) && Ends(now, q.ttl, r.deadline)
  }

  /** Only the caller's own and expired leases can be released. */
  predicate Releasable(q: LeaseRecord, device: DeviceId, now: nat) { q.device == device || q.deadline <= now }

  /** What a release leaves: a named lease that is the caller's or has expired is gone, every other one is as it was. */
  ghost predicate ReleasedAs(leases: set<LeaseRecord>, leases': set<LeaseRecord>, ids: seq<nat>, device: DeviceId,
                             now: nat)
  {
    leases' <= leases && forall q :: q in leases ==> (q in leases' <==> !(q.id in ids && Releasable(q, device, now)))
  }

  /** Nobody waits any longer for what was released. */
  ghost predicate DemandAs(t: Table, demand: set<nat>, ids: seq<nat>, device: DeviceId, now: nat) {
    forall id :: id in demand <==>
      id in t.demand && !(id in ids && exists q :: q in t.leases && q.id == id && Releasable(q, device, now))
  }

  lemma {:induction false} AskedIsNamed(ids: seq<nat>, id: nat)
    ensures Asked(ids, |ids|, id) <==> id in ids
  {}

  lemma {:induction false} ChangedBy(leases: set<LeaseRecord>, ids: seq<nat>,
                                     change: LeaseRecord -> Option<LeaseRecord>, q: LeaseRecord)
    requires q in leases && OwnIdentities(leases) && KeepsNames(change)
    ensures var all := Changed(leases, ids, |ids|, change);
      if q.id !in ids then q in all
      else if change(q).Some? then change(q).value in all
      else forall r :: r in all ==> r.id != q.id
  {
    AskedIsNamed(ids, q.id);
    var all := Changed(leases, ids, |ids|, change);
    if q.id in ids && change(q).None? {
      forall r | r in all ensures r.id != q.id {
        var s := ChangedFrom(leases, ids, |ids|, change, r);
      }
    }
  }

  lemma {:induction false} RenewalIsAs(leases: set<LeaseRecord>, ids: seq<nat>, device: DeviceId, now: nat)
    requires OwnIdentities(leases)
    ensures RenewedAs(leases, Changed(leases, ids, |ids|, r => AfterRenew(r, device, now)), ids, device, now)
  {
    var change := r => AfterRenew(r, device, now);
    var all := Changed(leases, ids, |ids|, change);
    forall q | q in leases
      ensures if q.id in ids && now < q.deadline && q.device == device then Extended(q, all, now)
              else if q.id in ids && q.deadline <= now then forall r :: r in all ==> r.id != q.id
              else q in all
    {
      ChangedBy(leases, ids, change, q);
    }
    forall r | r in all ensures exists q :: q in leases && q.id == r.id {
      var q := ChangedFrom(leases, ids, |ids|, change, r);
    }
  }

  lemma {:induction false} ReleaseIsAs(leases: set<LeaseRecord>, ids: seq<nat>, device: DeviceId, now: nat)
    requires OwnIdentities(leases)
    ensures ReleasedAs(leases, Changed(leases, ids, |ids|, r => AfterRelease(r, device, now)), ids, device, now)
  {
    var change := r => AfterRelease(r, device, now);
    var all := Changed(leases, ids, |ids|, change);
    forall q | q in leases ensures q in all <==> !(q.id in ids && Releasable(q, device, now)) {
      ChangedBy(leases, ids, change, q);
    }
    forall r | r in all ensures r in leases {
      var q := ChangedFrom(leases, ids, |ids|, change, r);
    }
  }

  lemma {:induction false} DemandIsAs(t: Table, ids: seq<nat>, device: DeviceId, now: nat)
    ensures DemandAs(t, DemandLeft(t, ids, |ids|, device, now), ids, device, now)
  {
    forall id | id in t.demand
      ensures Released(t.leases, ids, |ids|, device, now, id) <==>
              id in ids && exists q :: q in t.leases && q.id == id && Releasable(q, device, now)
    {
      AskedIsNamed(ids, id);
      if q :| q in t.leases && q.id == id && Releasable(q, device, now) {
        assert AfterRelease(q, device, now).None?;
      }
    }
  }

  lemma {:induction false} IdRowsAreDistinct(data: map<Bytes, LeaseRecord>, space: Bytes, leases: set<LeaseRecord>,
                                             rows: seq<(Bytes, LeaseRecord)>)
    requires Indexed(data, space, leases) && Lists(data, KeysUnder(data, IdScan(space)), rows)
    ensures DistinctRows(rows)
  {
    forall i, j | 0 <= i < j < |rows| ensures rows[i].1 != rows[j].1 {
      assert rows[i].0 in KeysUnder(data, IdScan(space)) && rows[j].0 in KeysUnder(data, IdScan(space));
      LessIrreflexive(rows[i].0);
    }
  }

  lemma {:induction false} NothingChanged(leases: set<LeaseRecord>, ids: seq<nat>,
                                          change: LeaseRecord -> Option<LeaseRecord>)
    ensures Changed(leases, ids, 0, change) == leases
  {}

  /** A lease that one of the first `n` identities names and that does not survive its release. */
  ghost predicate Released(leases: set<LeaseRecord>, ids: seq<nat>, n: nat, device: DeviceId, now: nat, id: nat)
    requires n <= |ids|
  {
    Asked(ids, n, id) && exists r :: r in leases && r.id == id && AfterRelease(r, device, now).None?
  }

  /** The demand that is still open. */
  ghost function DemandLeft(t: Table, ids: seq<nat>, n: nat, device: DeviceId, now: nat): set<nat>
    requires n <= |ids|
  {
    set id | id in t.demand && !Released(t.leases, ids, n, device, now, id)
  }

  lemma {:induction false} DemandNext(t: Table, ids: seq<nat>, n: nat, device: DeviceId, now: nat, gone: bool)
    requires n < |ids|
    requires gone <==> exists r :: r in t.leases && r.id == ids[n] && AfterRelease(r, device, now).None?
    ensures DemandLeft(t, ids, n + 1, device, now) ==
            DemandLeft(t, ids, n, device, now) - if gone then {ids[n]} else {}
  {
    forall id | id in t.demand
      ensures Released(t.leases, ids, n + 1, device, now, id) <==>
              Released(t.leases, ids, n, device, now, id) || (gone && id == ids[n])
    {
      AskedNext(ids, n, id);
    }
  }

  class LeaseManager {
    const space: Bytes
    const index: MemoryStore<LeaseRecord>
    var next: nat
    var demand: set<nat>
    ghost var leases: set<LeaseRecord>

    constructor (s: Bytes)
      ensures Valid() && space == s && View() == Table({}, 0, {}) && fresh(index)
    {
      space, next, demand, leases := s, 0, {}, {};
      index := new MemoryStore();
    }

    ghost function View(): Table
      reads this
    {
      Table(leases, next, demand)
    }

    ghost predicate Valid()
      reads this, index
    {
      Indexed(index.data, space, leases) && TableOk(leases, next)
    }

    /** The live leases that block one spec; what has expired joins the batch. */
    method CheckSpec(specs: seq<LeaseSpec>, i: nat, now: nat, batch: seq<Op<LeaseRecord>>,
                     ghost before: set<LeaseRecord>)
      returns (blockers: seq<LeaseRecord>, longer: seq<Op<LeaseRecord>>, ghost left: set<LeaseRecord>)
      requires Valid() && i < |specs| && before == Unexpired(leases, specs, i, now)
      requires Indexed(ApplyOps(index.data, batch), space, before)
      ensures forall r :: r in blockers <==> r in leases && Blocks(specs[i], now, r)
      ensures left == Unexpired(leases, specs, i + 1, now)
      ensures Indexed(ApplyOps(index.data, longer), space, left)
    {
      var live, dead := Overlapping(index, space, specs[i].prefix, now, leases);
      longer := PurgeRecords(space, batch, dead, index.data, before);
      left := Purged(before, dead);
      UnexpiredNext(leases, specs, now, i, dead);
      blockers := Blockers(live, specs[i].mode);
    }

    /** Look for the first spec some live lease blocks, collecting what has expired on the way. */
    method CheckSpecs(specs: seq<LeaseSpec>, now: nat)
      returns (blocked: Option<nat>, blockers: seq<LeaseRecord>, batch: seq<Op<LeaseRecord>>,
               ghost left: set<LeaseRecord>)
      requires Valid()
      ensures blocked.None? ==>
                NoneBlocked(leases, specs, |specs|, now) && left == Unexpired(leases, specs, |specs|, now)
      ensures blocked.Some? ==>
                && FirstBlocked(leases, specs, now, blocked.value)
                && (forall r :: r in blockers <==> r in leases && Blocks(specs[blocked.value], now, r))
                && left == Unexpired(leases, specs, blocked.value + 1, now)
      ensures Indexed(ApplyOps(index.data, batch), space, left)
    {
      batch, left := [], leases;
      for i := 0 to |specs|
        invariant NoneBlocked(leases, specs, i, now)
        invariant left == Unexpired(leases, specs, i, now)
        invariant Indexed(ApplyOps(index.data, batch), space, left)
      {
        blockers, batch, left := CheckSpec(specs, i, now, batch, left);
        if blockers != [] {
          assert blockers[0] in blockers;
          return Some(i), blockers, batch, left;
        }
      }
      return None, [], batch, left;
    }

    /** Refuse a blocked request: note the demand, and drop what has expired. */
    method Refuse(specs: seq<LeaseSpec>, now: nat, at: nat, blockers: seq<LeaseRecord>, batch: seq<Op<LeaseRecord>>,
                  ghost left: set<LeaseRecord>)
      returns (wait: nat)
      requires Valid() && FirstBlocked(leases, specs, now, at) && left == Unexpired(leases, specs, at + 1, now)
      requires forall r :: r in blockers <==> r in leases && Blocks(specs[at], now, r)
      requires Indexed(ApplyOps(index.data, batch), space, left)
      modifies this, index
      ensures Valid() && RefusedAt(old(View()), View(), specs, now, at, specs[at].prefix, wait)
    {
      var worst, ids := Worst(blockers);
      BlockersWait(leases, specs[at], now, blockers, worst, ids);
      demand, leases := demand + ids, left;
      index.Apply(batch);
      return worst - now;
    }

    /** Apply a batch that leaves `left`. */
    method Settle(batch: seq<Op<LeaseRecord>>, count: nat, ghost left: set<LeaseRecord>)
      requires Indexed(ApplyOps(index.data, batch), space, left) && TableOk(left, next + count)
      modifies this, index
      ensures Valid() && View() == Table(left, old(next) + count, old(demand))
    {
      next, leases := next + count, left;
      index.Apply(batch);
    }

    /** Grant every spec of a request that nothing stands in the way of. */
    method GrantAll(device: DeviceId, now: nat, barrier: nat, specs: seq<LeaseSpec>, batch: seq<Op<LeaseRecord>>,
                    ghost left: set<LeaseRecord>)
      returns (granted: seq<LeaseRecord>)
      requires Valid() && next + |specs| <= U64_LIMIT && forall s :: s in specs ==> |s.prefix| <= MAX_COMPONENTS
      requires Grantable(leases, specs, now) && left == Unexpired(leases, specs, |specs|, now)
      requires Indexed(ApplyOps(index.data, batch), space, left)
      modifies this, index
      ensures Valid() && Acquired(old(View()), View(), device, now, barrier, specs, Granted(granted))
    {
      var longer;
      granted, longer := GrantSpecs(space, batch, next, device, now, barrier, specs, index.data, left);
      GrantedOk(left, next, device, now, barrier, specs, granted);
      GrantsAreAsked(next, device, now, barrier, specs);
      Settle(longer, |specs|, left + Records(granted));
    }

    /** Grant every spec of a request, or none. */
    method Acquire(device: DeviceId, now: nat, barrier: nat, specs: seq<LeaseSpec>) returns (result: AcquireResult)
      requires Valid() && next + |specs| <= U64_LIMIT && forall s :: s in specs ==> |s.prefix| <= MAX_COMPONENTS
      modifies this, index
      ensures Valid() && Acquired(old(View()), View(), device, now, barrier, specs, result)
    {
      var blocked, blockers, batch;
      ghost var left;
      blocked, blockers, batch, left := CheckSpecs(specs, now);
      if blocked.Some? {
        var wait := Refuse(specs, now, blocked.value, blockers, batch, left);
        return Refused(specs[blocked.value].prefix, Some(wait));
      }
      var clash := FirstClash(specs);
      if clash.Some? {
        Settle(batch, 0, left);
        assert FirstClashAt(specs, clash.value.0, clash.value.1);
        return Refused(specs[clash.value.1].prefix, None);
      }
      var granted := GrantAll(device, now, barrier, specs, batch, left);
      return Granted(granted);
    }

    /** The record of one identity. */
    method LeaseById(id: nat) returns (r: Option<LeaseRecord>)
      requires Valid() && id < U64_LIMIT
      ensures r.Some? ==> r.value in leases && r.value.id == id
      ensures r.None? ==> forall s :: s in leases ==> s.id != id
    {
      var k := IdKey(space, id);
      r := index.Get(k);
      PrefixIsBytePrefix([space, [LEASE_BY_ID]], [space, [LEASE_BY_ID], Be(8, id)]);
      if r.Some? {
        IdKeysSeparate(space, id, r.value.id);
      }
    }

    /** Renew one lease: a live own one is extended, an expired one removed, and anything else left alone. */
    method RenewOne(device: DeviceId, now: nat, ids: seq<nat>, n: nat, batch: seq<Op<LeaseRecord>>,
                    ghost before: set<LeaseRecord>)
      returns (grant: Option<RenewGrant>, longer: seq<Op<LeaseRecord>>, ghost left: set<LeaseRecord>)
      requires Valid() && n < |ids| && ids[n] < U64_LIMIT
      requires before == Changed(leases, ids, n, r => AfterRenew(r, device, now))
      requires Indexed(ApplyOps(index.data, batch), space, before)
      ensures left == Changed(leases, ids, n + 1, r => AfterRenew(r, device, now))
      ensures Indexed(ApplyOps(index.data, longer), space, left)
      ensures grant.Some? <==> Renewable(leases, ids[n], device, now)
      ensures grant.Some? ==> grant.value.id == ids[n] && GrantFits(View(), device, now, grant.value)
    {
      ghost var change := r => AfterRenew(r, device, now);
      left := Changed(leases, ids, n + 1, change);
      grant, longer := None, batch;
      var found := LeaseById(ids[n]);
      match found
      case None => ChangedByNobody(leases, ids, n, change);
      case Some(r) =>
        if r.Live(now) && r.device == device {
          var renewed := r.(deadline := Deadline(now, r.ttl));
          ChangeWrites(space, batch, ids, n, r, renewed, change, index.data, leases, next);
          longer := batch + PutOps(space, renewed);
          grant := Some(RenewGrant(r.id, r.ttl, r.id in demand));
        } else if !r.Live(now) {
          ChangeRemoves(space, batch, ids, n, r, change, index.data, leases, next);
          longer := batch + PurgeOps(space, r);
        } else {
          ChangedNothing(leases, ids, n, change, r);
        }
    }

    /** Collect the answers and the writes of a renewal. */
    method RenewAll(device: DeviceId, now: nat, ids: seq<nat>)
      returns (granted: seq<RenewGrant>, invalid: seq<nat>, batch: seq<Op<LeaseRecord>>, ghost left: set<LeaseRecord>)
      requires Valid() && forall i :: 0 <= i < |ids| ==> ids[i] < U64_LIMIT
      ensures left == Changed(leases, ids, |ids|, r => AfterRenew(r, device, now))
      ensures Indexed(ApplyOps(index.data, batch), space, left)
      ensures Answered(View(), device, now, ids, |ids|, granted, invalid)
    {
      granted, invalid, batch, left := [], [], [], leases;
      NothingChanged(leases, ids, r => AfterRenew(r, device, now));
      for n := 0 to |ids|
        invariant left == Changed(leases, ids, n, r => AfterRenew(r, device, now))
        invariant Indexed(ApplyOps(index.data, batch), space, left)
        invariant Answered(View(), device, now, ids, n, granted, invalid)
      {
        var grant;
        grant, batch, left := RenewOne(device, now, ids, n, batch, left);
        AnsweredNext(View(), device, now, ids, n, granted, invalid, grant);
        if grant.Some? {
          granted := granted + [grant.value];
        } else {
          invalid := invalid + [ids[n]];
        }
      }
    }

    /** Renew the live leases of the caller and say of each whether somebody waits for it. */
    method Renew(device: DeviceId, now: nat, ids: seq<nat>) returns (granted: seq<RenewGrant>, invalid: seq<nat>)
      requires Valid() && forall i :: 0 <= i < |ids| ==> ids[i] < U64_LIMIT
      modifies this, index
      ensures Valid() && Answered(old(View()), device, now, ids, |ids|, granted, invalid)
      ensures View() ==
              old(View()).(leases := Changed(old(leases), ids, |ids|, r => AfterRenew(r, device, now)))
      ensures RenewedAs(old(leases), leases, ids, device, now)
    {
      var batch;
      ghost var left;
      RenewalIsAs(leases, ids, device, now);
      granted, invalid, batch, left := RenewAll(device, now, ids);
      ChangedOk(leases, next, ids, |ids|, r => AfterRenew(r, device, now));
      Settle(batch, 0, left);
    }

    /** Release one lease: the holder may at any time, anybody once it has expired. */
    method ReleaseOne(device: DeviceId, now: nat, ids: seq<nat>, n: nat, batch: seq<Op<LeaseRecord>>,
                      ghost before: set<LeaseRecord>)
      returns (gone: bool, longer: seq<Op<LeaseRecord>>, ghost left: set<LeaseRecord>)
      requires Valid() && n < |ids| && ids[n] < U64_LIMIT
      requires before == Changed(leases, ids, n, r => AfterRelease(r, device, now))
      requires Indexed(ApplyOps(index.data, batch), space, before)
      ensures left == Changed(leases, ids, n + 1, r => AfterRelease(r, device, now))
      ensures Indexed(ApplyOps(index.data, longer), space, left)
      ensures gone <==> exists r :: r in leases && r.id == ids[n] && AfterRelease(r, device, now).None?
    {
      ghost var change := r => AfterRelease(r, device, now);
      left := Changed(leases, ids, n + 1, change);
      gone, longer := false, batch;
      var found := LeaseById(ids[n]);
      match found
      case None => ChangedByNobody(leases, ids, n, change);
      case Some(r) =>
        if !r.Live(now) || r.device == device {
          ChangeRemoves(space, batch, ids, n, r, change, index.data, leases, next);
          longer := batch + PurgeOps(space, r);
          gone := true;
        } else {
          ChangedNothing(leases, ids, n, change, r);
        }
    }

    /** Collect the writes of a release, and the demand it leaves open. */
    method ReleaseAll(device: DeviceId, now: nat, ids: seq<nat>)
      returns (waiting: set<nat>, batch: seq<Op<LeaseRecord>>, ghost left: set<LeaseRecord>)
      requires Valid() && forall i :: 0 <= i < |ids| ==> ids[i] < U64_LIMIT
      ensures left == Changed(leases, ids, |ids|, r => AfterRelease(r, device, now))
      ensures Indexed(ApplyOps(index.data, batch), space, left)
      ensures waiting == DemandLeft(View(), ids, |ids|, device, now)
    {
      waiting, batch, left := demand, [], leases;
      NothingChanged(leases, ids, r => AfterRelease(r, device, now));
      for n := 0 to |ids|
        invariant left == Changed(leases, ids, n, r => AfterRelease(r, device, now))
        invariant Indexed(ApplyOps(index.data, batch), space, left)
        invariant waiting == DemandLeft(View(), ids, n, device, now)
      {
        var gone;
        gone, batch, left := ReleaseOne(device, now, ids, n, batch, left);
        DemandNext(View(), ids, n, device, now, gone);
        waiting := waiting - if gone then {ids[n]} else {};
      }
    }

    /** Release every named lease the caller holds, and every expired one. */
    method Release(device: DeviceId, now: nat, ids: seq<nat>)
      requires Valid() && forall i :: 0 <= i < |ids| ==> ids[i] < U64_LIMIT
      modifies this, index
      ensures Valid()
      ensures View() == Table(Changed(old(leases), ids, |ids|, r => AfterRelease(r, device, now)), old(next),
                              DemandLeft(old(View()), ids, |ids|, device, now))
      ensures ReleasedAs(old(leases), leases, ids, device, now) && DemandAs(old(View()), demand, ids, device, now)
    {
      var waiting, batch;
      ghost var left;
      ReleaseIsAs(leases, ids, device, now);
      DemandIsAs(View(), ids, device, now);
      waiting, batch, left := ReleaseAll(device, now, ids);
      ChangedOk(leases, next, ids, |ids|, r => AfterRelease(r, device, now));
      demand := waiting;
      Settle(batch, 0, left);
    }

    /** Split all leases into those the caller holds live and those that have expired. */
    method Sort(rows: seq<(Bytes, LeaseRecord)>, device: DeviceId, now: nat)
      returns (held: seq<LeaseRecord>, dead: seq<LeaseRecord>)
      requires DistinctRows(rows)
      ensures NoRepeats(held)
      ensures forall r :: r in held <==> Found(rows, r) && r.Live(now) && r.device == device
      ensures forall r :: r in dead <==> Found(rows, r) && !r.Live(now)
    {
      held, dead := [], [];
      for i := 0 to |rows|
        invariant NoRepeats(held)
        invariant forall r :: r in held <==> Found(rows[..i], r) && r.Live(now) && r.device == device
        invariant forall r :: r in dead <==> Found(rows[..i], r) && !r.Live(now)
      {
        FoundNext(rows, i);
        NotFoundBefore(rows, i);
        var r := rows[i].1;
        if !r.Live(now) {
          dead := dead + [r];
        } else if r.device == device {
          held := held + [r];
        }
      }
      assert rows[..|rows|] == rows;
    }

    /** The live leases of the caller; expired ones are removed. */
    method ListLeases(device: DeviceId, now: nat) returns (held: seq<LeaseRecord>)
      requires Valid()
      modifies this, index
      ensures Valid() && View() == old(View()).(leases := set r | r in old(leases) && r.Live(now))
      ensures NoRepeats(held)
      ensures forall r :: r in held <==> r in old(leases) && r.Live(now) && r.device == device
    {
      var rows := index.ScanPrefix(IdScan(space));
      IdRowsAreDistinct(index.data, space, leases, rows);
      forall r ensures Found(rows, r) <==> r in leases {
        IdScanFinds(index.data, space, leases, rows, r);
      }
      var dead;
      held, dead := Sort(rows, device, now);
      var batch := PurgeRecords(space, [], dead, index.data, leases);
      assert Purged(leases, dead) == set r | r in leases && r.Live(now);
      Settle(batch, 0, Purged(leases, dead));
    }
  }
}
