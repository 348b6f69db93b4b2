/**
 Durable rowid allocation (multilite/src/rowid.rs).

 A rowid is a device tag, a random slot under it, and an offset in the slot.
 Offsets are leased in blocks from the active slot; a full slot is replaced by
 an unused one. Leases live in memory and are simply lost on restart.
 */
module Rowid {
  import opened Types

  const TAG_LIMIT: nat := 0x1_0000
  const SUFFIX_LIMIT: nat := 0x800_0000
  const SLOT_CAPACITY: nat := 0x10_0000
  const LEASE_SIZE: nat := 1024
  const MAX_SLOT_ATTEMPTS: nat := 1024

  // ----- bit layout ----------------------------------------------------------------------

  /** The tag in the high bits, the low 27 bits of the suffix below it. */
  function SlotOf(tag: nat, suffix: nat): nat { tag * SUFFIX_LIMIT + suffix % SUFFIX_LIMIT }

  function SlotTag(slot: nat): nat { slot / SUFFIX_LIMIT % TAG_LIMIT }

  function Compose(slot: nat, offset: nat): nat { slot * SLOT_CAPACITY + offset }

  /** On machine words the shifts and ors of the layout are these sums: the fields do not overlap. */
  lemma {:induction false} FieldsDoNotOverlap(slot: bv64, offset: bv64, tag: bv64, suffix: bv64)
    requires slot < 0x800_0000_0000 && offset < 0x10_0000 && tag < 0x1_0000
    ensures (slot << 20) | offset == slot * 0x10_0000 + offset
    ensures (tag << 27) | (suffix & 0x7FF_FFFF) == tag * 0x800_0000 + suffix % 0x800_0000
  {}

  function Pow2(k: nat): nat { if k == 0 then 1 else 2 * Pow2(k - 1) }

  /** Bitwise or and and, bit by bit from the lowest. */
  function Or(a: nat, b: nat): nat
    decreases a + b
  {
    if a == 0 && b == 0 then 0 else 2 * Or(a / 2, b / 2) + if a % 2 == 1 || b % 2 == 1 then 1 else 0
  }

  function And(a: nat, b: nat): nat
    decreases a + b
  {
    if a == 0 && b == 0 then 0 else 2 * And(a / 2, b / 2) + if a % 2 == 1 && b % 2 == 1 then 1 else 0
  }

  /** A left shift on words of 64 bits. */
  function Shl(a: nat, k: nat): nat { a * Pow2(k) % 0x1_0000_0000_0000_0000 }

  lemma {:induction false} OrNothing(a: nat)
    ensures Or(a, 0) == a
  {
    if a > 0 {
      OrNothing(a / 2);
    }
  }

  lemma {:induction false} AndNothing(a: nat)
    ensures And(a, 0) == 0
  {
    if a > 0 {
      AndNothing(a / 2);
    }
  }

  /** Fields that do not overlap are joined by adding them. */
  lemma {:induction false} OrOfFields(high: nat, low: nat, k: nat)
    requires low < Pow2(k)
    ensures Or(high * Pow2(k), low) == high * Pow2(k) + low
  {
    if k == 0 {
      OrNothing(high);
    } else {
      var half := high * Pow2(k - 1);
      assert high * Pow2(k) == 2 * half;
      OrOfFields(high, low / 2, k - 1);
      assert (2 * half) / 2 == half && (2 * half) % 2 == 0;
      assert low == 2 * (low / 2) + low % 2;
    }
  }

  /** A mask of `k` ones keeps the remainder. */
  lemma {:induction false} AndOfMask(a: nat, k: nat)
    ensures Pow2(k) >= 1 && And(a, Pow2(k) - 1) == a % Pow2(k)
  {
    if k == 0 {
      AndNothing(a);
    } else {
      var p := Pow2(k - 1);
      AndOfMask(a / 2, k - 1);
      assert (2 * p - 1) / 2 == p - 1 && (2 * p - 1) % 2 == 1;
      RemainderByBits(a, p);
    }
  }

  lemma {:induction false} RemainderByBits(a: nat, p: nat)
    requires p >= 1
    ensures a % (2 * p) == 2 * (a / 2 % p) + a % 2
  {
    var q, r := a / 2 / p, a / 2 % p;
    assert a / 2 == q * p + r;
    assert a == q * (2 * p) + (2 * r + a % 2);
    RemainderIs(a, 2 * p, q, 2 * r + a % 2);
  }

  lemma {:induction false} MoreIsMore(a: nat, b: nat, n: nat)
    requires a <= b
    ensures a * n <= b * n
  {
    assert b * n == a * n + (b - a) * n;
  }

  lemma {:induction false} RemainderIs(a: nat, n: nat, q: nat, r: nat)
    requires a == q * n + r && r < n
    ensures a % n == r
  {
    var d, m := a / n, a % n;
    assert a == d * n + m;
    if q < d {
      MoreIsMore(q + 1, d, n);
    } else if d < q {
      MoreIsMore(d + 1, q, n);
    }
  }

  lemma {:induction false} Powers()
    ensures Pow2(20) == SLOT_CAPACITY && Pow2(27) == SUFFIX_LIMIT
  {
    assert Pow2(10) == 1024;
    assert Pow2(20) == 1024 * Pow2(10);
    assert Pow2(27) == 128 * Pow2(20);
  }

  /** The layout is that of the shifts, masks and ors on 64-bit words. */
  lemma {:induction false} LayoutIsWords(tag: nat, suffix: nat, slot: nat, offset: nat)
    requires tag < TAG_LIMIT && slot < TAG_LIMIT * SUFFIX_LIMIT && offset < SLOT_CAPACITY
    ensures SlotOf(tag, suffix) == Or(Shl(tag, 27), And(suffix, 0x7FF_FFFF))
    ensures Compose(slot, offset) == Or(Shl(slot, 20), offset)
  {
    Powers();
    AndOfMask(suffix, 27);
    OrOfFields(tag, suffix % SUFFIX_LIMIT, 27);
    OrOfFields(slot, offset, 20);
    assert Shl(tag, 27) == tag * SUFFIX_LIMIT && Shl(slot, 20) == slot * SLOT_CAPACITY;
  }

  /** Different draws give different slots. */
  lemma {:induction false} DrawsGiveSlots(tag: nat, a: nat, b: nat)
    requires a < SUFFIX_LIMIT && b < SUFFIX_LIMIT && SlotOf(tag, a) == SlotOf(tag, b)
    ensures a == b
  {}

  predicate ValidTag(tag: nat) { 1 <= tag < TAG_LIMIT }

  predicate ValidSlot(tag: nat, slot: nat) { slot < TAG_LIMIT * SUFFIX_LIMIT && SlotTag(slot) == tag }

  lemma {:induction false} SlotOfIsValid(tag: nat, suffix: nat)
    requires ValidTag(tag)
    ensures ValidSlot(tag, SlotOf(tag, suffix))
  {
    var low := suffix % SUFFIX_LIMIT;
    assert (tag * SUFFIX_LIMIT + low) / SUFFIX_LIMIT == tag;
  }

  /** Rowids are positive, above every tagless number, and fit a signed word. */
  lemma {:induction false} RowidRange(tag: nat, slot: nat, offset: nat)
    requires ValidTag(tag) && ValidSlot(tag, slot) && offset < SLOT_CAPACITY
    ensures 0x8000_0000_0000 <= Compose(slot, offset) < 0x8000_0000_0000_0000
  {
    assert slot / SUFFIX_LIMIT == tag;
    assert slot >= SUFFIX_LIMIT;
  }

  lemma {:induction false} ComposeIsInjective(s: nat, a: nat, t: nat, b: nat)
    requires a < SLOT_CAPACITY && b < SLOT_CAPACITY && Compose(s, a) == Compose(t, b)
    ensures s == t && a == b
  {
    assert (s * SLOT_CAPACITY + a) / SLOT_CAPACITY == s && (t * SLOT_CAPACITY + b) / SLOT_CAPACITY == t;
  }

  /** Devices with different tags never produce the same rowid. */
  lemma {:induction false} TagsSeparate(s: nat, a: nat, t: nat, b: nat)
    requires a < SLOT_CAPACITY && b < SLOT_CAPACITY && SlotTag(s) != SlotTag(t)
    ensures Compose(s, a) != Compose(t, b)
  {
    if Compose(s, a) == Compose(t, b) {
      ComposeIsInjective(s, a, t, b);
    }
  }

  // ----- the allocator as a system ----------------------------------------------------------

  datatype Durable = Durable(tag: nat, active: nat, through: nat, slots: set<nat>)

  datatype Lease = Lease(slot: nat, next: nat, end: nat)

  /** Every lease in memory, and every rowid handed out so far, as slot and offset. */
  datatype System = System(store: Durable, leases: seq<Lease>, issued: seq<(nat, nat)>)

  predicate StoreOk(d: Durable) {
    && ValidTag(d.tag) && d.active in d.slots && d.through <= SLOT_CAPACITY
    && forall s :: s in d.slots ==> ValidSlot(d.tag, s)
  }

  /** A block of offsets that lies within what the store has leased out. */
  predicate Granted(d: Durable, slot: nat, end: nat) {
    slot in d.slots && end <= SLOT_CAPACITY && (slot == d.active ==> end <= d.through)
  }

  predicate Disjoint(a: Lease, b: Lease) { a.slot != b.slot || a.end <= b.next || b.end <= a.next }

  predicate Spent(l: Lease, slot: nat, offset: nat) { l.slot == slot ==> !(l.next <= offset < l.end) }

  ghost predicate Inv(y: System) {
    && StoreOk(y.store)
    && (forall i :: 0 <= i < |y.leases| ==>
      y.leases[i].next <= y.leases[i].end && Granted(y.store, y.leases[i].slot, y.leases[i].end))
    && (forall i, j :: 0 <= i < j < |y.leases| ==> Disjoint(y.leases[i], y.leases[j]))
    && (forall k :: 0 <= k < |y.issued| ==> Granted(y.store, y.issued[k].0, y.issued[k].1 + 1))
    && (forall i, k :: 0 <= i < |y.leases| && 0 <= k < |y.issued| ==> Spent(y.leases[i], y.issued[k].0, y.issued[k].1))
    && (forall k, m :: 0 <= k < m < |y.issued| ==> y.issued[k] != y.issued[m])
  }

  datatype Step = LeaseBlock(unused: nat) | Allocate(i: nat) | Restart

  predicate Enabled(y: System, step: Step) {
    match step
    case LeaseBlock(unused) =>
      y.store.through == SLOT_CAPACITY ==> unused !in y.store.slots && ValidSlot(y.store.tag, unused)
    case Allocate(i) => i < |y.leases| && y.leases[i].next < y.leases[i].end
    case Restart => true
  }

  /** The store after one block is leased, rotating to `unused` when the active slot is full. */
  function Leased(d: Durable, unused: nat): Durable {
    if d.through == SLOT_CAPACITY then Durable(d.tag, unused, LEASE_SIZE, d.slots + {unused})
    else d.(through := Min(d.through + LEASE_SIZE, SLOT_CAPACITY))
  }

  function Block(d: Durable, unused: nat): Lease {
    if d.through == SLOT_CAPACITY then Lease(unused, 0, LEASE_SIZE)
    else Lease(d.active, d.through, Min(d.through + LEASE_SIZE, SLOT_CAPACITY))
  }

  function Next(y: System, step: Step): System
    requires Enabled(y, step)
  {
    match step
    case LeaseBlock(unused) => y.(store := Leased(y.store, unused), leases := y.leases + [Block(y.store, unused)])
    case Allocate(i) =>
      var l := y.leases[i];
      y.(leases := y.leases[i := l.(next := l.next + 1)], issued := y.issued + [(l.slot, l.next)])
    case Restart => y.(leases := [])
  }

  lemma {:induction false} LeaseKeeps(y: System, unused: nat)
    requires Inv(y) && Enabled(y, LeaseBlock(unused))
    ensures Inv(Next(y, LeaseBlock(unused)))
  {
    var y' := Next(y, LeaseBlock(unused));
    var b := Block(y.store, unused);
    forall slot, end | Granted(y.store, slot, end) ensures Granted(y'.store, slot, end) {}
    forall i | 0 <= i < |y.leases| ensures Disjoint(y.leases[i], b) {
      assert Granted(y.store, y.leases[i].slot, y.leases[i].end);
    }
    forall k | 0 <= k < |y.issued| ensures Spent(b, y.issued[k].0, y.issued[k].1) {
      assert Granted(y.store, y.issued[k].0, y.issued[k].1 + 1);
    }
  }

  lemma {:induction false} AllocateKeeps(y: System, i: nat)
    requires Inv(y) && Enabled(y, Allocate(i))
    ensures Inv(Next(y, Allocate(i)))
  {
    var y' := Next(y, Allocate(i));
    var l := y.leases[i];
    forall j | 0 <= j < |y.leases| ensures Spent(y'.leases[j], l.slot, l.next) {
      if j < i {
        assert Disjoint(y.leases[j], y.leases[i]);
      } else if i < j {
        assert Disjoint(y.leases[i], y.leases[j]);
      }
    }
    forall k | 0 <= k < |y.issued| ensures y.issued[k] != (l.slot, l.next) {
      assert Spent(y.leases[i], y.issued[k].0, y.issued[k].1);
    }
    forall a, b | 0 <= a < b < |y'.leases| ensures Disjoint(y'.leases[a], y'.leases[b]) {
      assert Disjoint(y.leases[a], y.leases[b]);
    }
  }

  lemma {:induction false} NextKeeps(y: System, step: Step)
    requires Inv(y) && Enabled(y, step)
    ensures Inv(Next(y, step))
  {
    match step
    case LeaseBlock(unused) => LeaseKeeps(y, unused);
    case Allocate(i) => AllocateKeeps(y, i);
    case Restart =>
  }

  /** A run from a freshly created allocator. */
  ghost predicate IsRun(run: seq<System>, steps: seq<Step>) {
    && |run| == |steps| + 1
    && StoreOk(run[0].store) && run[0].store.through == 0 && run[0].leases == [] && run[0].issued == []
    && forall i :: 0 <= i < |steps| ==> Enabled(run[i], steps[i]) && run[i + 1] == Next(run[i], steps[i])
  }

  lemma {:induction false} RunKeeps(run: seq<System>, steps: seq<Step>, i: nat)
    requires IsRun(run, steps) && i < |run|
    ensures Inv(run[i]) && run[i].store.tag == run[0].store.tag
  {
    if i > 0 {
      RunKeeps(run, steps, i - 1);
      NextKeeps(run[i - 1], steps[i - 1]);
    }
  }

  function RowidOf(y: System, k: nat): nat
    requires k < |y.issued|
  {
    Compose(y.issued[k].0, y.issued[k].1)
  }

  /** Across leases, rotations and restarts no rowid is issued twice, and all lie in the device's range. */
  lemma {:induction false} RowidsAreUnique(run: seq<System>, steps: seq<Step>, i: nat)
    requires IsRun(run, steps) && i < |run|
    ensures forall k, m :: 0 <= k < m < |run[i].issued| ==> RowidOf(run[i], k) != RowidOf(run[i], m)
    ensures forall k :: 0 <= k < |run[i].issued| ==> 0x8000_0000_0000 <= RowidOf(run[i], k) < 0x8000_0000_0000_0000
  {
    RunKeeps(run, steps, i);
    var y := run[i];
    forall k | 0 <= k < |y.issued| ensures 0x8000_0000_0000 <= RowidOf(y, k) < 0x8000_0000_0000_0000 {
      assert Granted(y.store, y.issued[k].0, y.issued[k].1 + 1);
      RowidRange(y.store.tag, y.issued[k].0, y.issued[k].1);
    }
    forall k, m | 0 <= k < m < |y.issued| ensures RowidOf(y, k) != RowidOf(y, m) {
      assert Granted(y.store, y.issued[k].0, y.issued[k].1 + 1) && Granted(y.store, y.issued[m].0, y.issued[m].1 + 1);
      if RowidOf(y, k) == RowidOf(y, m) {
        ComposeIsInjective(y.issued[k].0, y.issued[k].1, y.issued[m].0, y.issued[m].1);
      }
    }
  }

  /** Two devices with different tags never issue the same rowid, whatever each of them does. */
  lemma {:induction false} DevicesNeverCollide(run: seq<System>, steps: seq<Step>, i: nat, k: nat, run': seq<System>,
                                               steps': seq<Step>, i': nat, k': nat)
    requires IsRun(run, steps) && IsRun(run', steps') && i < |run| && i' < |run'|
    requires run[0].store.tag != run'[0].store.tag && k < |run[i].issued| && k' < |run'[i'].issued|
    ensures RowidOf(run[i], k) != RowidOf(run'[i'], k')
  {
    RunKeeps(run, steps, i);
    RunKeeps(run', steps', i');
    var a, b := run[i].issued[k], run'[i'].issued[k'];
    assert Granted(run[i].store, a.0, a.1 + 1) && Granted(run'[i'].store, b.0, b.1 + 1);
    TagsSeparate(a.0, a.1, b.0, b.1);
  }

  // ----- the allocator itself ---------------------------------------------------------------

  /** Draw `i` is the first to yield an unused slot; every earlier one yielded a used slot, and entropy held. */
  predicate UnusedAt(tag: nat, slots: set<nat>, suffix: nat -> Option<nat>, i: nat) {
    && i < MAX_SLOT_ATTEMPTS && suffix(i).Some? && SlotOf(tag, suffix(i).value) !in slots
    && forall j :: 0 <= j < i ==> suffix(j).Some? && SlotOf(tag, suffix(j).value) in slots
  }

  /** Whether the permitted draws find an unused slot. */
  ghost predicate FindsUnused(tag: nat, slots: set<nat>, suffix: nat -> Option<nat>) {
    exists i :: UnusedAt(tag, slots, suffix, i)
  }

  /** The durable rows: the active slot, how far it is leased, and every slot ever used. */
  class RowidStore {
    const tag: nat
    var active: nat
    var through: nat
    var slots: set<nat>

    constructor (deviceTag: nat, suffix: nat)
      requires ValidTag(deviceTag)
      ensures StoreOk(Value()) && through == 0 && tag == deviceTag
    {
      SlotOfIsValid(deviceTag, suffix);
      tag, active, through, slots := deviceTag, SlotOf(deviceTag, suffix), 0, {SlotOf(deviceTag, suffix)};
    }

    function Value(): Durable
      reads this
    {
      Durable(tag, active, through, slots)
    }

    /** Draw random slots until one is unused, giving up after a fixed number of attempts or when entropy fails. */
    method InsertUnusedSlot(suffix: nat -> Option<nat>) returns (slot: Option<nat>)
      requires ValidTag(tag)
      modifies this`slots
      ensures slot.Some? <==> FindsUnused(tag, old(slots), suffix)
      ensures slot.Some? ==>
                && slot.value !in old(slots) && ValidSlot(tag, slot.value) && slots == old(slots) + {slot.value}
                && exists i :: UnusedAt(tag, old(slots), suffix, i) && slot.value == SlotOf(tag, suffix(i).value)
      ensures slot.None? ==> slots == old(slots)
    {
      for attempt := 0 to MAX_SLOT_ATTEMPTS
        invariant slots == old(slots)
        invariant forall j :: 0 <= j < attempt ==> suffix(j).Some? && SlotOf(tag, suffix(j).value) in slots
      {
        var drawn := suffix(attempt);
        if drawn.None? {
          return None;
        }
        var candidate := SlotOf(tag, drawn.value);
        SlotOfIsValid(tag, drawn.value);
        if candidate !in slots {
          assert UnusedAt(tag, slots, suffix, attempt);
          slots := slots + {candidate};
          return Some(candidate);
        }
      }
      return None;
    }

    /** Persist and return the next block of the active slot, rotating first when it is full. */
    method LeaseWith(suffix: nat -> Option<nat>) returns (lease: Option<Lease>, ghost unused: nat)
      requires StoreOk(Value())
      modifies this
      ensures lease.None? <==> old(through) == SLOT_CAPACITY && !FindsUnused(tag, old(slots), suffix)
      ensures lease.None? ==> Value() == old(Value())
      ensures lease.Some? ==>
                && (old(through) == SLOT_CAPACITY ==> unused !in old(slots) && ValidSlot(tag, unused))
                && Value() == Leased(old(Value()), unused) && lease.value == Block(old(Value()), unused)
                && (lease.value.slot, lease.value.next) == First(old(Value()), unused)
                && lease.value.end == Min(lease.value.next + LEASE_SIZE, SLOT_CAPACITY)
                && active == lease.value.slot && through == lease.value.end
    {
      var slot, start := active, through;
      unused := 0;
      if through == SLOT_CAPACITY {
        var inserted := InsertUnusedSlot(suffix);
        if inserted.None? {
          return None, unused;
        }
        slot, start, unused := inserted.value, 0, inserted.value;
      }
      var end := Min(start + LEASE_SIZE, SLOT_CAPACITY);
      active, through := slot, end;
      return Some(Lease(slot, start, end)), unused;
    }
  }

  /** Where the next block starts: in the active slot, or in its replacement when that is full. */
  function First(d: Durable, unused: nat): (nat, nat) {
    if d.through == SLOT_CAPACITY then (unused, 0) else (d.active, d.through)
  }

  /** Whether a lease has an offset left. */
  predicate Unspent(lease: Option<Lease>) { lease.Some? && lease.value.next < lease.value.end }

  lemma {:induction false} DropKeeps(y: System, l: Lease)
    requires Inv(y) && y.leases != [] && l == y.leases[|y.leases| - 1]
    ensures Inv(y.(leases := [l]))
  {}

  /** One process's cursor over its current lease. `issued` records what was handed out under this store. */
  class RowidAllocator {
    const store: RowidStore
    var lease: Option<Lease>
    ghost var issued: seq<(nat, nat)>

    ghost function View(): System
      reads this, store
    {
      System(store.Value(), if lease.Some? then [lease.value] else [], issued)
    }

    ghost predicate Valid()
      reads this, store
    {
      Inv(View())
    }

    /** Opening after a restart: the store as it was left, and no lease. */
    constructor (s: RowidStore, ghost before: seq<(nat, nat)>)
      requires Inv(System(s.Value(), [], before))
      ensures Valid() && store == s && issued == before && lease.None?
    {
      store, lease, issued := s, None, before;
    }

    /** Lease another block; what is left of the old one is abandoned. */
    method Refill(suffix: nat -> Option<nat>) returns (ok: bool)
      requires Valid()
      modifies this, store
      ensures Valid() && issued == old(issued)
      ensures ok <==> old(store.through) < SLOT_CAPACITY || FindsUnused(store.tag, old(store.slots), suffix)
      ensures ok ==> Unspent(lease) && (lease.value.slot, lease.value.next) == First(old(store.Value()), store.active)
    {
      ghost var y := View();
      var block, unused := store.LeaseWith(suffix);
      if block.None? {
        return false;
      }
      LeaseKeeps(y, unused);
      DropKeeps(Next(y, LeaseBlock(unused)), block.value);
      lease := block;
      return true;
    }

    /** The next rowid, leasing another block when the current one is spent. */
    method NextRowid(suffix: nat -> Option<nat>) returns (rowid: Option<nat>)
      requires Valid()
      modifies this, store
      ensures Valid()
      ensures rowid.None? <==>
              !old(Unspent(lease)) && old(store.through) == SLOT_CAPACITY
              && !FindsUnused(store.tag, old(store.slots), suffix)
      ensures rowid.None? ==> issued == old(issued)
      ensures rowid.Some? ==>
                && |issued| == |old(issued)| + 1 && issued[..|old(issued)|] == old(issued)
                && var last := issued[|issued| - 1]; rowid.value == Compose(last.0, last.1) && last !in old(issued)
      ensures old(Unspent(lease)) ==>
                && rowid == Some(Compose(old(lease).value.slot, old(lease).value.next))
                && store.Value() == old(store.Value())
      ensures !old(Unspent(lease)) && rowid.Some? ==>
                var (slot, offset) := First(old(store.Value()), store.active); rowid.value == Compose(slot, offset)
    {
      while !Unspent(lease)
        invariant Valid() && issued == old(issued)
        invariant !Unspent(lease) || old(Unspent(lease)) ==>
                    lease == old(lease) && store.Value() == old(store.Value())
        invariant Unspent(lease) && !old(Unspent(lease)) ==>
                    && (old(store.through) < SLOT_CAPACITY || FindsUnused(store.tag, old(store.slots), suffix))
                    && (lease.value.slot, lease.value.next) == First(old(store.Value()), store.active)
        decreases if Unspent(lease) then 0 else 1
      {
        var ok := Refill(suffix);
        if !ok {
          return None;
        }
      }
      ghost var y := View();
      AllocateKeeps(y, 0);
      var l := lease.value;
      lease := Some(l.(next := l.next + 1));
      issued := issued + [(l.slot, l.next)];
      assert View() == Next(y, Allocate(0));
      return Some(Compose(l.slot, l.next));
    }
  }
}
