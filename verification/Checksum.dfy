/**
 What a device checksum commits to (core/src/messages.rs, core/src/tag.rs).

 Each checksum is a hash over the previous one and one batch. The bytes fed to
 the hash determine the batch, so two streams with the same checksum are the
 same stream, or two different inputs of the hash collide. This is what lets
 the replication modules treat a checksum as the list of batches it covers.
 */
module Checksum {
  import opened Types
  import opened Codec
  import opened Keys
  import opened RecordCodec
  import opened RecordLoops

  /** The domain separator: the text homebase.device-checksum.v1 and a zero byte. */
  const DOMAIN: Bytes := [
    104, 111, 109, 101, 98, 97, 115, 101, 46, 100, 101, 118, 105, 99, 101, 45,
    99, 104, 101, 99, 107, 115, 117, 109, 46, 118, 49, 0]

  const EMPTY: Bytes := [
    0, 0, 0, 0, 0, 0, 0, 0, 0, 0, 0, 0, 0, 0, 0, 0, 0, 0, 0, 0, 0, 0, 0, 0, 0, 0, 0, 0, 0, 0, 0, 0]

  // ----- the bytes hashed ----------------------------------------------------------------

  /** A blob with an eight-byte length. */
  function HashBytes(blob: Bytes, rest: Bytes): Bytes { WriteU64(|blob|, blob + rest) }

  function HashAssert(a: RangeAssert, rest: Bytes): Bytes { HashBytes(Enc(a.prefix), WriteU64(a.upto, rest)) }

  function HashMutation(m: Mutation, rest: Bytes): Bytes {
    match m
    case Set(k, v) => [0] + HashBytes(Enc(k), HashBytes(v, rest))
    case Delete(k) => [1] + HashBytes(Enc(k), rest)
    case DeleteRange(r) => [2] + HashBytes(EncodeRange(r), rest)
  }

  function HashEntry(e: DeviceEntry, rest: Bytes): Bytes {
    HashMutation(e.mutation, WriteTag(e.tag, HashBytes(EncodeSeal(e.seal), rest)))
  }

  function HashList<T>(xs: seq<T>, write: (T, Bytes) -> Bytes, rest: Bytes): Bytes {
    WriteU64(|xs|, WriteAll(xs, write, rest))
  }

  function HashBatch(b: AdmissionBatch): Bytes {
    WriteU64(b.deviceSeq, HashList(b.rangeAsserts, HashAssert, HashList(b.entries, HashEntry, [])))
  }

  /** Everything the hash is fed for one batch. */
  function Preimage(previous: Bytes, space: Bytes, device: DeviceId, b: AdmissionBatch): Bytes {
    DOMAIN + (previous + (space + (device + HashBatch(b))))
  }

  // ----- reading them back ----------------------------------------------------------------

  function TakeHashed(bs: Bytes): Parsed<Bytes> {
    match TakeU64(bs)
    case Fail => Fail
    case Done(n, bs) => Take(n, bs)
  }

  function ParseHashedAssert(bs: Bytes): Parsed<RangeAssert> {
    match TakeHashed(bs)
    case Fail => Fail
    case Done(prefix, bs) =>
      if DecodedKey(prefix).None? then Fail
      else match TakeU64(bs)
        case Fail => Fail
        case Done(upto, bs) => Done(RangeAssert(DecodedKey(prefix).value, upto), bs)
  }

  function ParseHashedMutation(bs: Bytes): Parsed<Mutation> {
    match Take(1, bs)
    case Fail => Fail
    case Done(kind, bs) =>
      match TakeHashed(bs)
      case Fail => Fail
      case Done(target, bs) =>
        if kind[0] == 0 then
          match TakeHashed(bs)
          case Fail => Fail
          case Done(value, bs) =>
            if DecodedKey(target).Some? then Done(Set(DecodedKey(target).value, value), bs) else Fail
        else if kind[0] == 1 then if DecodedKey(target).Some? then Done(Delete(DecodedKey(target).value), bs) else Fail
        else if DecodeRange(target).Some? then Done(DeleteRange(DecodeRange(target).value), bs) else Fail
  }

  function ParseHashedEntry(bs: Bytes): Parsed<DeviceEntry> {
    match ParseHashedMutation(bs)
    case Fail => Fail
    case Done(mutation, bs) =>
      match ParseTag(bs)
      case Fail => Fail
      case Done(tag, bs) =>
        match TakeHashed(bs)
        case Fail => Fail
        case Done(seal, bs) =>
          if DecodeSeal(seal).None? then Fail else Done(DeviceEntry(mutation, tag, DecodeSeal(seal).value), bs)
  }

  function ParseHashedList<T>(parse: Bytes -> Parsed<T>, bs: Bytes): Parsed<seq<T>> {
    match TakeU64(bs)
    case Fail => Fail
    case Done(n, bs) => ParseMany(n, parse, bs)
  }

  lemma {:induction false} HashedInverse(blob: Bytes, rest: Bytes)
    requires |blob| < U64_LIMIT
    ensures TakeHashed(HashBytes(blob, rest)) == Done(blob, rest)
  {
    U64Codec(|blob|, blob + rest, []);
    TakeInverse(blob, rest);
  }

  lemma {:induction false} HashedMutationInverse(m: Mutation, rest: Bytes)
    requires ValidMutation(m)
    ensures ParseHashedMutation(HashMutation(m, rest)) == Done(m, rest)
  {
    match m
    case Set(k, v) =>
      ByteCodec(0, HashBytes(Enc(k), HashBytes(v, rest)), []);
      HashedInverse(Enc(k), HashBytes(v, rest));
      HashedInverse(v, rest);
      DecodedKeyIsExact(Enc(k), k);
    case Delete(k) =>
      ByteCodec(1, HashBytes(Enc(k), rest), []);
      HashedInverse(Enc(k), rest);
      DecodedKeyIsExact(Enc(k), k);
    case DeleteRange(r) =>
      ByteCodec(2, HashBytes(EncodeRange(r), rest), []);
      RangeCodec(r, []);
      HashedInverse(EncodeRange(r), rest);
  }

  lemma {:induction false} HashedEntryInverse(e: DeviceEntry, rest: Bytes)
    requires ValidEntry(e)
    ensures ParseHashedEntry(HashEntry(e, rest)) == Done(e, rest)
  {
    var c := HashBytes(EncodeSeal(e.seal), rest);
    HashedMutationInverse(e.mutation, WriteTag(e.tag, c));
    TagInverse(e.tag, c);
    SealInverse(e.seal);
    HashedInverse(EncodeSeal(e.seal), rest);
  }

  lemma {:induction false} HashedAreRecovered()
    ensures Recovers(HashEntry, ParseHashedEntry, ValidEntry)
    ensures Recovers(HashAssert, ParseHashedAssert, ValidAssert)
  {
    forall x, rest | ValidEntry(x) ensures ParseHashedEntry(HashEntry(x, rest)) == Done(x, rest) {
      HashedEntryInverse(x, rest);
    }
    forall x, rest | ValidAssert(x) ensures ParseHashedAssert(HashAssert(x, rest)) == Done(x, rest) {
      HashedInverse(Enc(x.prefix), WriteU64(x.upto, rest));
      DecodedKeyIsExact(Enc(x.prefix), x.prefix);
      U64Codec(x.upto, rest, []);
    }
  }

  lemma {:induction false} HashedListInverse<T(!new)>(xs: seq<T>, write: (T, Bytes) -> Bytes, parse: Bytes -> Parsed<T>,
                                                      valid: T -> bool, rest: Bytes)
    requires Recovers(write, parse, valid) && AllValid(xs, valid) && |xs| < U64_LIMIT
    ensures ParseHashedList(parse, HashList(xs, write, rest)) == Done(xs, rest)
  {
    U64Codec(|xs|, WriteAll(xs, write, rest), []);
    ManyInverse(xs, write, parse, valid, rest);
  }

  // ----- injectivity ----------------------------------------------------------------------

  predicate ValidWireBatch(b: AdmissionBatch) {
    && b.deviceSeq < U64_LIMIT
    && |b.rangeAsserts| < U64_LIMIT && AllValid(b.rangeAsserts, ValidAssert)
    && |b.entries| < U64_LIMIT && AllValid(b.entries, ValidEntry)
  }

  function ParseHashedBatch(bs: Bytes): Option<AdmissionBatch> {
    match TakeU64(bs)
    case Fail => None
    case Done(deviceSeq, bs) =>
      match ParseHashedList(ParseHashedAssert, bs)
      case Fail => None
      case Done(asserts, bs) =>
        match ParseHashedList(ParseHashedEntry, bs)
        case Fail => None
        case Done(entries, bs) => Some(AdmissionBatch(deviceSeq, asserts, entries))
  }

  lemma {:induction false} HashedBatchInverse(b: AdmissionBatch)
    requires ValidWireBatch(b)
    ensures ParseHashedBatch(HashBatch(b)) == Some(b)
  {
    HashedAreRecovered();
    var c := HashList(b.entries, HashEntry, []);
    U64Codec(b.deviceSeq, HashList(b.rangeAsserts, HashAssert, c), []);
    HashedListInverse(b.rangeAsserts, HashAssert, ParseHashedAssert, ValidAssert, c);
    HashedListInverse(b.entries, HashEntry, ParseHashedEntry, ValidEntry, []);
  }

  lemma {:induction false} SameFront(a: Bytes, x: Bytes, b: Bytes, y: Bytes)
    requires |a| == |b| && a + x == b + y
    ensures a == b && x == y
  {
    assert a == (a + x)[..|a|] && b == (b + y)[..|b|];
    assert x == (a + x)[|a|..] && y == (b + y)[|b|..];
  }

  /** The bytes hashed determine the previous checksum, the space, the device and the batch. */
  lemma {:induction false} PreimageIsInjective(p: Bytes, q: Bytes, s: Bytes, t: Bytes, d: DeviceId, e: DeviceId,
                                               a: AdmissionBatch, b: AdmissionBatch)
    requires |p| == |q| && |s| == |t| && |d| == |e| && ValidWireBatch(a) && ValidWireBatch(b)
    requires Preimage(p, s, d, a) == Preimage(q, t, e, b)
    ensures p == q && s == t && d == e && a == b
  {
    SameFront(DOMAIN, p + (s + (d + HashBatch(a))), DOMAIN, q + (t + (e + HashBatch(b))));
    SameFront(p, s + (d + HashBatch(a)), q, t + (e + HashBatch(b)));
    SameFront(s, d + HashBatch(a), t, e + HashBatch(b));
    SameFront(d, HashBatch(a), e, HashBatch(b));
    HashedBatchInverse(a);
    HashedBatchInverse(b);
  }

  lemma {:induction false} PartLies(front: Bytes, part: Bytes, rest: Bytes)
    ensures var x := front + (part + rest); x == (front + part) + rest && x[|front|..|front| + |part|] == part
  {}

  /** Where each part lies: domain, previous checksum, space, device, sequence number. */
  lemma {:induction false} PreimageLayout(previous: Bytes, space: Bytes, device: DeviceId, b: AdmissionBatch)
    requires |previous| == 32 && |space| == 16 && |device| == 16
    ensures var x := Preimage(previous, space, device, b);
      && |x| >= 100 && x[..28] == DOMAIN && x[28..60] == previous && x[60..76] == space && x[76..92] == device
      && x[92..100] == Be(8, b.deviceSeq)
  {
    var seqNo := Be(8, b.deviceSeq);
    var rest := HashList(b.rangeAsserts, HashAssert, HashList(b.entries, HashEntry, []));
    PartLies([], DOMAIN, previous + (space + (device + (seqNo + rest))));
    PartLies(DOMAIN, previous, space + (device + (seqNo + rest)));
    PartLies(DOMAIN + previous, space, device + (seqNo + rest));
    PartLies(DOMAIN + previous + space, device, seqNo + rest);
    PartLies(DOMAIN + previous + space + device, seqNo, rest);
  }

  // ----- the chain ---------------------------------------------------------------------------

  /** A running checksum from `empty`, each link hashing `pre` of the last one and a batch. */
  function Chain<T>(hash: Bytes -> Bytes, pre: (Bytes, T) -> Bytes, empty: Bytes, stream: seq<T>): Bytes {
    if stream == [] then empty
    else hash(pre(Chain(hash, pre, empty, stream[..|stream| - 1]), stream[|stream| - 1]))
  }

  ghost predicate Injective<T(!new)>(pre: (Bytes, T) -> Bytes, valid: T -> bool) {
    forall p, q, a, b ::
      |p| == 32 && |q| == 32 && valid(a) && valid(b) && pre(p, a) == pre(q, b) ==> p == q && a == b
  }

  lemma {:induction false} ChainLength<T>(hash: Bytes -> Bytes, pre: (Bytes, T) -> Bytes, empty: Bytes, stream: seq<T>)
    requires |empty| == 32 && forall z :: |hash(z)| == 32
    ensures |Chain(hash, pre, empty, stream)| == 32
  {}

  /** What the last link hashes. */
  function LastInput<T>(hash: Bytes -> Bytes, pre: (Bytes, T) -> Bytes, empty: Bytes, stream: seq<T>): Bytes
    requires stream != []
  {
    pre(Chain(hash, pre, empty, stream[..|stream| - 1]), stream[|stream| - 1])
  }

  lemma {:induction false} SameInput<T(!new)>(hash: Bytes -> Bytes, pre: (Bytes, T) -> Bytes, valid: T -> bool,
                                              empty: Bytes, a: seq<T>, b: seq<T>)
    requires Injective(pre, valid) && |empty| == 32 && forall z :: |hash(z)| == 32
    requires a != [] && b != [] && AllValid(a, valid) && AllValid(b, valid)
    requires LastInput(hash, pre, empty, a) == LastInput(hash, pre, empty, b)
    ensures a[|a| - 1] == b[|b| - 1]
    ensures Chain(hash, pre, empty, a[..|a| - 1]) == Chain(hash, pre, empty, b[..|b| - 1])
  {
    ChainLength(hash, pre, empty, a[..|a| - 1]);
    ChainLength(hash, pre, empty, b[..|b| - 1]);
  }

  /** `x` is hashed on the way to the checksum of `stream`. */
  ghost predicate Hashed<T>(hash: Bytes -> Bytes, pre: (Bytes, T) -> Bytes, empty: Bytes, stream: seq<T>, x: Bytes) {
    exists i :: 0 < i <= |stream| && x == LastInput(hash, pre, empty, stream[..i])
  }

  lemma {:induction false} LastIsHashed<T>(hash: Bytes -> Bytes, pre: (Bytes, T) -> Bytes, empty: Bytes, stream: seq<T>)
    requires stream != []
    ensures Hashed(hash, pre, empty, stream, LastInput(hash, pre, empty, stream))
  {
    assert stream[..|stream|] == stream;
  }

  lemma {:induction false} FrontIsHashed<T>(hash: Bytes -> Bytes, pre: (Bytes, T) -> Bytes, empty: Bytes,
                                            stream: seq<T>, x: Bytes)
    requires stream != [] && Hashed(hash, pre, empty, stream[..|stream| - 1], x)
    ensures Hashed(hash, pre, empty, stream, x)
  {
    var front := stream[..|stream| - 1];
    var i :| 0 < i <= |front| && x == LastInput(hash, pre, empty, front[..i]);
    assert front[..i] == stream[..i];
  }

  /** The two streams hash different inputs to one output. */
  ghost predicate Collide<T>(hash: Bytes -> Bytes, pre: (Bytes, T) -> Bytes, empty: Bytes, a: seq<T>, b: seq<T>,
                             x: Bytes, y: Bytes)
  {
    Hashed(hash, pre, empty, a, x) && Hashed(hash, pre, empty, b, y) && x != y && hash(x) == hash(y)
  }

  /** One of the streams hashes an input to the value reserved for the empty stream. */
  ghost predicate Vanishes<T>(hash: Bytes -> Bytes, pre: (Bytes, T) -> Bytes, empty: Bytes, a: seq<T>, b: seq<T>,
                              x: Bytes)
  {
    (Hashed(hash, pre, empty, a, x) || Hashed(hash, pre, empty, b, x)) && hash(x) == empty
  }

  lemma {:induction false} FrontsFail<T>(hash: Bytes -> Bytes, pre: (Bytes, T) -> Bytes, empty: Bytes,
                                         a: seq<T>, b: seq<T>, x: Bytes, y: Bytes)
    requires a != [] && b != []
    requires var f, g := a[..|a| - 1], b[..|b| - 1];
      Collide(hash, pre, empty, f, g, x, y) || Vanishes(hash, pre, empty, f, g, x)
    ensures Collide(hash, pre, empty, a, b, x, y) || Vanishes(hash, pre, empty, a, b, x)
  {
    if Hashed(hash, pre, empty, a[..|a| - 1], x) {
      FrontIsHashed(hash, pre, empty, a, x);
    }
    if Hashed(hash, pre, empty, b[..|b| - 1], x) {
      FrontIsHashed(hash, pre, empty, b, x);
    }
    if Hashed(hash, pre, empty, b[..|b| - 1], y) {
      FrontIsHashed(hash, pre, empty, b, y);
    }
  }

  lemma {:induction false} ChainCommits<T(!new)>(hash: Bytes -> Bytes, pre: (Bytes, T) -> Bytes, valid: T -> bool,
                                                 empty: Bytes, a: seq<T>, b: seq<T>)
    returns (x: Bytes, y: Bytes)
    requires Injective(pre, valid) && |empty| == 32 && forall z :: |hash(z)| == 32
    requires AllValid(a, valid) && AllValid(b, valid)
    requires Chain(hash, pre, empty, a) == Chain(hash, pre, empty, b)
    ensures a == b || Collide(hash, pre, empty, a, b, x, y) || Vanishes(hash, pre, empty, a, b, x)
    decreases |a|
  {
    x, y := [], [];
    if a != [] {
      LastIsHashed(hash, pre, empty, a);
      x := LastInput(hash, pre, empty, a);
    }
    if b != [] {
      LastIsHashed(hash, pre, empty, b);
      y := LastInput(hash, pre, empty, b);
    }
    if a == [] {
      x := y;
    } else if b != [] && x == y {
      SameInput(hash, pre, valid, empty, a, b);
      x, y := ChainCommits(hash, pre, valid, empty, a[..|a| - 1], b[..|b| - 1]);
      SameLast(a, b);
      if a != b {
        FrontsFail(hash, pre, empty, a, b, x, y);
      }
    }
  }

  lemma {:induction false} SameLast<T>(a: seq<T>, b: seq<T>)
    requires a != [] && b != [] && a[|a| - 1] == b[|b| - 1]
    ensures a[..|a| - 1] == b[..|b| - 1] ==> a == b
  {
    assert a == a[..|a| - 1] + [a[|a| - 1]] && b == b[..|b| - 1] + [b[|b| - 1]];
  }

  /** One batch of one device in one space. */
  datatype Item = Item(space: Bytes, device: DeviceId, batch: AdmissionBatch)

  /** The batches one device has submitted to one space. */
  datatype DeviceStream = DeviceStream(space: Bytes, device: DeviceId, batches: seq<AdmissionBatch>)
  {
    function Items(): seq<Item> {
      seq(|batches|, i requires 0 <= i < |batches| => Item(space, device, batches[i]))
    }
  }

  /** What is hashed for one link. */
  function LinkInput(previous: Bytes, i: Item): Bytes { Preimage(previous, i.space, i.device, i.batch) }

  /** The checksum of one device's stream in one space. */
  function DeviceChecksum(hash: Bytes -> Bytes, stream: DeviceStream): Bytes
    decreases |stream.batches|
  {
    if stream.batches == [] then EMPTY
    else
      var n := |stream.batches| - 1;
      hash(Preimage(DeviceChecksum(hash, stream.(batches := stream.batches[..n])), stream.space, stream.device,
                    stream.batches[n]))
  }

  lemma {:induction false} ChecksumIsChain(hash: Bytes -> Bytes, stream: DeviceStream)
    ensures DeviceChecksum(hash, stream) == Chain(hash, LinkInput, EMPTY, stream.Items())
    decreases |stream.batches|
  {
    if stream.batches != [] {
      var n := |stream.batches| - 1;
      var front := stream.(batches := stream.batches[..n]);
      ChecksumIsChain(hash, front);
      var items := stream.Items();
      assert items[..n] == front.Items() && items[n] == Item(stream.space, stream.device, stream.batches[n]);
      assert Chain(hash, LinkInput, EMPTY, items) ==
             hash(LinkInput(Chain(hash, LinkInput, EMPTY, items[..n]), items[n]));
    }
  }

  predicate ValidItem(i: Item, spaceLength: nat, deviceLength: nat) {
    |i.space| == spaceLength && |i.device| == deviceLength && ValidWireBatch(i.batch)
  }

  lemma {:induction false} LinksAreInjective(n: nat, m: nat)
    ensures Injective(LinkInput, i => ValidItem(i, n, m))
  {
    forall p, q, c, d | |p| == 32 && |q| == 32 && ValidItem(c, n, m) && ValidItem(d, n, m)
                        && LinkInput(p, c) == LinkInput(q, d)
      ensures p == q && c == d
    {
      PreimageIsInjective(p, q, c.space, d.space, c.device, d.device, c.batch, d.batch);
    }
  }

  /** Two streams of one device in one space, or two empty ones. */
  predicate Same(a: DeviceStream, b: DeviceStream) {
    a.batches == b.batches && (a.batches == [] || (a.space == b.space && a.device == b.device))
  }

  lemma {:induction false} SameItems(a: DeviceStream, b: DeviceStream)
    ensures a.Items() == b.Items() <==> Same(a, b)
  {
    if Same(a, b) {
      assert if a.batches == [] then a.Items() == [] == b.Items() else a == b;
    }
    if a.Items() == b.Items() {
      assert |a.batches| == |a.Items()| == |b.Items()| == |b.batches|;
      forall i | 0 <= i < |a.batches| ensures a.batches[i] == b.batches[i] {
        assert a.Items()[i] == b.Items()[i];
      }
      assert a.batches == b.batches;
      if a.batches != [] {
        assert a.Items()[0] == b.Items()[0];
      }
    }
  }

  /**
   Equal checksums, of any devices in any spaces, mean equal streams of one device in one space, or two empty
   ones, unless the two streams themselves hash two different inputs to one output, or one of them hashes an
   input to the empty checksum.
   */
  lemma {:induction false} ChecksumCommitsToStream(hash: Bytes -> Bytes, a: DeviceStream, b: DeviceStream)
    returns (x: Bytes, y: Bytes)
    requires forall z :: |hash(z)| == 32
    requires |a.space| == |b.space| && |a.device| == |b.device|
    requires AllValid(a.batches, ValidWireBatch) && AllValid(b.batches, ValidWireBatch)
    requires DeviceChecksum(hash, a) == DeviceChecksum(hash, b)
    ensures Same(a, b) || Collide(hash, LinkInput, EMPTY, a.Items(), b.Items(), x, y)
            || Vanishes(hash, LinkInput, EMPTY, a.Items(), b.Items(), x)
  {
    var valid := i => ValidItem(i, |a.space|, |a.device|);
    LinksAreInjective(|a.space|, |a.device|);
    ChecksumIsChain(hash, a);
    ChecksumIsChain(hash, b);
    assert AllValid(a.Items(), valid) && AllValid(b.Items(), valid);
    x, y := ChainCommits(hash, LinkInput, valid, EMPTY, a.Items(), b.Items());
    SameItems(a, b);
  }

  /** The hash keeps the inputs of these streams apart, from each other and from the empty checksum. */
  ghost predicate KeepsApart(hash: Bytes -> Bytes, streams: set<DeviceStream>) {
    forall a, b :: a in streams && b in streams ==> PairKeptApart(hash, a, b)
  }

  ghost predicate PairKeptApart(hash: Bytes -> Bytes, a: DeviceStream, b: DeviceStream) {
    && (forall x, y :: !Collide(hash, LinkInput, EMPTY, a.Items(), b.Items(), x, y))
    && (forall x :: !Vanishes(hash, LinkInput, EMPTY, a.Items(), b.Items(), x))
  }

  /** On streams whose inputs the hash keeps apart, a checksum is as good as the stream it stands for. */
  lemma {:induction false} ChecksumIsStream(hash: Bytes -> Bytes, streams: set<DeviceStream>, a: DeviceStream,
                                            b: DeviceStream)
    requires forall z :: |hash(z)| == 32
    requires KeepsApart(hash, streams) && a in streams && b in streams
    requires |a.space| == |b.space| && |a.device| == |b.device|
    requires AllValid(a.batches, ValidWireBatch) && AllValid(b.batches, ValidWireBatch)
    ensures DeviceChecksum(hash, a) == DeviceChecksum(hash, b) <==> Same(a, b)
  {
    assert PairKeptApart(hash, a, b);
    if DeviceChecksum(hash, a) == DeviceChecksum(hash, b) {
      var x, y := ChecksumCommitsToStream(hash, a, b);
    } else {
      ChecksumIsChain(hash, a);
      ChecksumIsChain(hash, b);
      SameItems(a, b);
    }
  }

  // ----- feeding the hash ------------------------------------------------------------------

  /** An incremental hash: what matters is everything it has been fed. */
  class Hasher {
    var fed: Bytes

    constructor (previous: Bytes)
      ensures fed == DOMAIN + previous
    {
      fed := DOMAIN + previous;
    }

    method Update(piece: Bytes, ghost rest: Bytes, ghost whole: Bytes)
      requires Left(fed, piece + rest, whole)
      modifies this
      ensures Left(fed, rest, whole)
    {
      Append(fed, piece, rest, whole);
      fed := fed + piece;
    }

    method UpdateU64(v: nat, ghost rest: Bytes, ghost whole: Bytes)
      requires Left(fed, WriteU64(v, rest), whole)
      modifies this
      ensures Left(fed, rest, whole)
    {
      Update(Be(8, v), rest, whole);
    }

    method UpdateBytes(blob: Bytes, ghost rest: Bytes, ghost whole: Bytes)
      requires Left(fed, HashBytes(blob, rest), whole)
      modifies this
      ensures Left(fed, rest, whole)
    {
      UpdateU64(|blob|, blob + rest, whole);
      Update(blob, rest, whole);
    }

    method UpdateEntry(e: DeviceEntry, ghost rest: Bytes, ghost whole: Bytes)
      requires Left(fed, HashEntry(e, rest), whole)
      modifies this
      ensures Left(fed, rest, whole)
    {
      ghost var c := HashBytes(EncodeSeal(e.seal), rest);
      ghost var b := WriteTag(e.tag, c);
      match e.mutation {
        case Set(k, v) =>
          Update([0], HashBytes(Enc(k), HashBytes(v, b)), whole);
          UpdateBytes(Enc(k), HashBytes(v, b), whole);
          UpdateBytes(v, b, whole);
        case Delete(k) =>
          Update([1], HashBytes(Enc(k), b), whole);
          UpdateBytes(Enc(k), b, whole);
        case DeleteRange(r) =>
          Update([2], HashBytes(EncodeRange(r), b), whole);
          UpdateBytes(EncodeRange(r), b, whole);
      }
      fed := AppendTag(fed, e.tag, c, whole);
      UpdateBytes(EncodeSeal(e.seal), rest, whole);
    }

    method UpdateAsserts(asserts: seq<RangeAssert>, ghost rest: Bytes, ghost whole: Bytes)
      requires Left(fed, HashList(asserts, HashAssert, rest), whole)
      modifies this
      ensures Left(fed, rest, whole)
    {
      UpdateU64(|asserts|, WriteAll(asserts, HashAssert, rest), whole);
      assert asserts[0..] == asserts;
      for i := 0 to |asserts|
        invariant Left(fed, WriteAll(asserts[i..], HashAssert, rest), whole)
      {
        assert asserts[i..][0] == asserts[i] && asserts[i..][1..] == asserts[i + 1..];
        ghost var more := WriteAll(asserts[i + 1..], HashAssert, rest);
        UpdateBytes(Enc(asserts[i].prefix), WriteU64(asserts[i].upto, more), whole);
        UpdateU64(asserts[i].upto, more, whole);
      }
    }

    method UpdateEntries(entries: seq<DeviceEntry>, ghost rest: Bytes, ghost whole: Bytes)
      requires Left(fed, HashList(entries, HashEntry, rest), whole)
      modifies this
      ensures Left(fed, rest, whole)
    {
      UpdateU64(|entries|, WriteAll(entries, HashEntry, rest), whole);
      assert entries[0..] == entries;
      for i := 0 to |entries|
        invariant Left(fed, WriteAll(entries[i..], HashEntry, rest), whole)
      {
        assert entries[i..][0] == entries[i] && entries[i..][1..] == entries[i + 1..];
        UpdateEntry(entries[i], WriteAll(entries[i + 1..], HashEntry, rest), whole);
      }
    }
  }

  /** The checksum of a longer stream is the hash for one more batch over the checksum so far. */
  lemma {:induction false} ChecksumExtends(hash: Bytes -> Bytes, stream: DeviceStream, b: AdmissionBatch)
    ensures DeviceChecksum(hash, stream.(batches := stream.batches + [b])) ==
            hash(Preimage(DeviceChecksum(hash, stream), stream.space, stream.device, b))
  {
    assert (stream.batches + [b])[..|stream.batches|] == stream.batches;
  }

  /** Extend a device's checksum by one batch. */
  method ExtendChecksum(hash: Bytes -> Bytes, previous: Bytes, space: Bytes, device: DeviceId, b: AdmissionBatch)
    returns (checksum: Bytes)
    ensures checksum == hash(Preimage(previous, space, device, b))
  {
    ghost var whole := Preimage(previous, space, device, b);
    ghost var d := HashList(b.entries, HashEntry, []);
    ghost var c := HashList(b.rangeAsserts, HashAssert, d);
    var hasher := new Hasher(previous);
    Append(DOMAIN, previous, space + (device + HashBatch(b)), whole);
    hasher.Update(space, device + HashBatch(b), whole);
    hasher.Update(device, HashBatch(b), whole);
    hasher.UpdateU64(b.deviceSeq, c, whole);
    hasher.UpdateAsserts(b.rangeAsserts, d, whole);
    hasher.UpdateEntries(b.entries, [], whole);
    assert hasher.fed + [] == hasher.fed;
    return hash(hasher.fed);
  }
}
