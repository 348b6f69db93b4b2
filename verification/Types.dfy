/**
 The vocabulary shared by both halves of the sync kernel: tuple keys and ranges,
 device-authored mutations, wire batches, and admitted history.

 Sequence numbers, versions and epochs are `nat` here; the byte codecs state
 separately when such a number fits its fixed-width field.
 */
module Types {

  datatype Option<+T> = None | Some(value: T)

  datatype Result<+T, +E> = Ok(value: T) | Err(error: E)

  type Byte = x: int | 0 <= x < 256

  type Bytes = seq<Byte>

  /** One key component. The codec adds the length limits. */
  type Component = Bytes

  /** A tuple key has at least one component. */
  type Key = k: seq<Component> | |k| > 0 witness [[0]]

  /** The full space or one tuple-prefix subtree. */
  datatype Range = Full | Prefix(prefix: Key)
  {
    predicate CoversKey(k: Key) {
      match this
      case Full => true
      case Prefix(p) => p <= k
    }

    predicate CoversRange(other: Range) {
      match (this, other)
      case (Full, _) => true
      case (Prefix(_), Full) => false
      case (Prefix(a), Prefix(b)) => a <= b
    }

    predicate Overlaps(other: Range) {
      CoversRange(other) || other.CoversRange(this)
    }
  }

  datatype Mutation =
    | Set(key: Key, value: Bytes)
    | Delete(key: Key)
    | DeleteRange(range: Range)
  {
    /** The subtree a mutation is filed under in the augmented tree. */
    function Target(): Range {
      match this
      case Set(k, _) => Prefix(k)
      case Delete(k) => Prefix(k)
      case DeleteRange(r) => r
    }
  }

  type DeviceId = Bytes

  datatype DeviceTag = DeviceTag(device: DeviceId, deviceSeq: nat, ver: nat, cipherEpoch: nat)

  /** AEAD metadata of scheme 0, the only scheme. */
  datatype Seal = Seal(nonce: Bytes, aead: Bytes, payload: Bytes)

  datatype DeviceEntry = DeviceEntry(mutation: Mutation, tag: DeviceTag, seal: Seal)

  datatype RangeAssert = RangeAssert(prefix: Key, upto: nat)

  /** One device-sequenced unit of a push; no entries is the wire form of a rollback marker. */
  datatype AdmissionBatch = AdmissionBatch(deviceSeq: nat, rangeAsserts: seq<RangeAssert>, entries: seq<DeviceEntry>)

  /** Position of one operation in a space's admission history. */
  datatype AdmissionOrder = AdmissionOrder(admissionSeq: nat, opIndex: nat)
  {
    predicate Less(other: AdmissionOrder) {
      admissionSeq < other.admissionSeq || (admissionSeq == other.admissionSeq && opIndex < other.opIndex)
    }
  }

  datatype AdmittedEntry = AdmittedEntry(deviceEntry: DeviceEntry, order: AdmissionOrder)
  {
    function Device(): DeviceId { deviceEntry.tag.device }
    function Ver(): nat { deviceEntry.tag.ver }
    function Mutation(): Mutation { deviceEntry.mutation }
  }

  /** One admitted batch. `C` is the device's cumulative checksum: bytes in storage, or what those bytes commit to. */
  datatype AdmittedBatch<+C> = AdmittedBatch(
    admissionSeq: nat, device: DeviceId, deviceSeq: nat, checksum: C, entries: seq<AdmittedEntry>)

  function Max(a: nat, b: nat): nat { if a >= b then a else b }

  function Min(a: nat, b: nat): nat { if a <= b then a else b }

  lemma {:induction false} Associate<T>(a: seq<T>, b: seq<T>, c: seq<T>)
    ensures (a + b) + c == a + (b + c)
  {}

  lemma {:induction false} SliceGrows<T>(xs: seq<T>, from: nat, to: nat)
    requires from <= to < |xs|
    ensures xs[from..to] + [xs[to]] == xs[from..to + 1]
  {}

  lemma {:induction false} PrefixGrows<T>(xs: seq<T>, n: nat)
    requires n < |xs|
    ensures xs[..n] + [xs[n]] == xs[..n + 1]
  {}

  lemma {:induction false} SomethingLeft<T>(all: set<T>, seen: set<T>)
    requires seen <= all && seen != all
    ensures exists x :: x in all && x !in seen
  {
    assert (forall x :: x in all ==> x in seen) ==> all <= seen;
  }
}
