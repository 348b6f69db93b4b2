/**
 Byte records (core/src/reader.rs): big-endian numbers, length-prefixed blobs
 and counted lists, as the writers lay them out and as a cursor reads them.

 A writer `W(x, rest)` lays out `x` in front of `rest`; a parser splits a byte
 string back into a value and the rest. A codec is sound when the two are
 inverse in both directions: the parser recovers what was written, and accepts
 nothing that was not.
 */
module Codec {
  import opened Types

  datatype Parsed<+T> = Fail | Done(value: T, rest: Bytes)

  // ----- numbers ----------------------------------------------------------------------

  function Pow256(n: nat): nat { if n == 0 then 1 else 256 * Pow256(n - 1) }

  /** The low `n` bytes of `v`, most significant first. */
  function Be(n: nat, v: nat): (bs: Bytes)
    ensures |bs| == n
  {
    if n == 0 then [] else Be(n - 1, v / 256) + [v % 256]
  }

  function FromBe(bs: Bytes): nat {
    if bs == [] then 0 else 256 * FromBe(bs[..|bs| - 1]) + bs[|bs| - 1]
  }

  lemma {:induction false} BeInverse(n: nat, v: nat)
    requires v < Pow256(n)
    ensures FromBe(Be(n, v)) == v
  {
    if n > 0 {
      BeInverse(n - 1, v / 256);
      assert Be(n, v)[..n - 1] == Be(n - 1, v / 256);
    }
  }

  lemma {:induction false} BeCanonical(bs: Bytes)
    ensures FromBe(bs) < Pow256(|bs|) && Be(|bs|, FromBe(bs)) == bs
  {
    if bs != [] {
      BeCanonical(bs[..|bs| - 1]);
      var high, low := FromBe(bs[..|bs| - 1]), bs[|bs| - 1];
      assert (256 * high + low) / 256 == high && (256 * high + low) % 256 == low;
    }
  }

  const U32_LIMIT: nat := 0x1_0000_0000
  const U64_LIMIT: nat := 0x1_0000_0000_0000_0000

  lemma {:induction false} Limits()
    ensures Pow256(2) == 0x1_0000 && Pow256(4) == U32_LIMIT && Pow256(8) == U64_LIMIT
  {
    assert Pow256(1) == 256;
    assert Pow256(2) == 256 * Pow256(1);
    assert Pow256(3) == 256 * Pow256(2);
    assert Pow256(4) == 256 * Pow256(3);
    assert Pow256(5) == 256 * Pow256(4);
    assert Pow256(6) == 256 * Pow256(5);
    assert Pow256(7) == 256 * Pow256(6);
    assert Pow256(8) == 256 * Pow256(7);
  }

  // ----- primitive parsers ------------------------------------------------------------

  function Take(n: nat, bs: Bytes): Parsed<Bytes> { if n <= |bs| then Done(bs[..n], bs[n..]) else Fail }

  function TakeU32(bs: Bytes): Parsed<nat> {
    match Take(4, bs)
    case Fail => Fail
    case Done(b, rest) => Done(FromBe(b), rest)
  }

  function TakeU64(bs: Bytes): Parsed<nat> {
    match Take(8, bs)
    case Fail => Fail
    case Done(b, rest) => Done(FromBe(b), rest)
  }

  /** A blob with a four-byte length. */
  function TakeBlob(bs: Bytes): Parsed<Bytes> {
    match TakeU32(bs)
    case Fail => Fail
    case Done(n, rest) => Take(n, rest)
  }

  function WriteU32(v: nat, rest: Bytes): Bytes { Be(4, v) + rest }

  function WriteU64(v: nat, rest: Bytes): Bytes { Be(8, v) + rest }

  function WriteBlob(blob: Bytes, rest: Bytes): Bytes { WriteU32(|blob|, blob + rest) }

  lemma {:induction false} TakeInverse(x: Bytes, rest: Bytes)
    ensures Take(|x|, x + rest) == Done(x, rest)
  {}

  lemma {:induction false} TakeCanonical(n: nat, bs: Bytes)
    requires Take(n, bs).Done?
    ensures |Take(n, bs).value| == n && bs == Take(n, bs).value + Take(n, bs).rest
  {}

  lemma {:induction false} U32Codec(v: nat, rest: Bytes, bs: Bytes)
    ensures v < U32_LIMIT ==> TakeU32(WriteU32(v, rest)) == Done(v, rest)
    ensures TakeU32(bs).Done? ==> TakeU32(bs).value < U32_LIMIT && bs == WriteU32(TakeU32(bs).value, TakeU32(bs).rest)
  {
    Limits();
    if v < U32_LIMIT {
      TakeInverse(Be(4, v), rest);
      BeInverse(4, v);
    }
    if TakeU32(bs).Done? {
      TakeCanonical(4, bs);
      BeCanonical(Take(4, bs).value);
    }
  }

  lemma {:induction false} U64Codec(v: nat, rest: Bytes, bs: Bytes)
    ensures v < U64_LIMIT ==> TakeU64(WriteU64(v, rest)) == Done(v, rest)
    ensures TakeU64(bs).Done? ==> TakeU64(bs).value < U64_LIMIT && bs == WriteU64(TakeU64(bs).value, TakeU64(bs).rest)
  {
    Limits();
    if v < U64_LIMIT {
      TakeInverse(Be(8, v), rest);
      BeInverse(8, v);
    }
    if TakeU64(bs).Done? {
      TakeCanonical(8, bs);
      BeCanonical(Take(8, bs).value);
    }
  }

  lemma {:induction false} BlobCodec(blob: Bytes, rest: Bytes, bs: Bytes)
    ensures |blob| < U32_LIMIT ==> TakeBlob(WriteBlob(blob, rest)) == Done(blob, rest)
    ensures TakeBlob(bs).Done? ==>
            |TakeBlob(bs).value| < U32_LIMIT && bs == WriteBlob(TakeBlob(bs).value, TakeBlob(bs).rest)
  {
    U32Codec(|blob|, blob + rest, bs);
    if |blob| < U32_LIMIT {
      TakeInverse(blob, rest);
    }
    if TakeBlob(bs).Done? {
      TakeCanonical(TakeU32(bs).value, TakeU32(bs).rest);
    }
  }

  // ----- counted lists -----------------------------------------------------------------

  /** The parser recovers whatever was written. */
  ghost predicate Recovers<T(!new)>(write: (T, Bytes) -> Bytes, parse: Bytes -> Parsed<T>, valid: T -> bool) {
    forall x, rest :: valid(x) ==> parse(write(x, rest)) == Done(x, rest)
  }

  /** Writer and parser are inverse in both directions on valid values. */
  ghost predicate Inverse<T(!new)>(write: (T, Bytes) -> Bytes, parse: Bytes -> Parsed<T>, valid: T -> bool) {
    && Recovers(write, parse, valid)
    && (forall bs :: parse(bs).Done? ==> valid(parse(bs).value) && bs == write(parse(bs).value, parse(bs).rest))
  }

  function WriteAll<T>(xs: seq<T>, write: (T, Bytes) -> Bytes, rest: Bytes): Bytes {
    if xs == [] then rest else write(xs[0], WriteAll(xs[1..], write, rest))
  }

  function ParseMany<T>(n: nat, parse: Bytes -> Parsed<T>, bs: Bytes): Parsed<seq<T>> {
    if n == 0 then Done([], bs)
    else match parse(bs)
      case Fail => Fail
      case Done(x, rest) =>
        match ParseMany(n - 1, parse, rest)
        case Fail => Fail
        case Done(xs, rest) => Done([x] + xs, rest)
  }

  function WriteList<T>(xs: seq<T>, write: (T, Bytes) -> Bytes, rest: Bytes): Bytes {
    WriteU32(|xs|, WriteAll(xs, write, rest))
  }

  function ParseList<T>(parse: Bytes -> Parsed<T>, bs: Bytes): Parsed<seq<T>> {
    match TakeU32(bs)
    case Fail => Fail
    case Done(n, rest) => ParseMany(n, parse, rest)
  }

  predicate AllValid<T>(xs: seq<T>, valid: T -> bool) { forall i :: 0 <= i < |xs| ==> valid(xs[i]) }

  lemma {:induction false} ManyInverse<T(!new)>(xs: seq<T>, write: (T, Bytes) -> Bytes, parse: Bytes -> Parsed<T>,
                                                valid: T -> bool, rest: Bytes)
    requires Recovers(write, parse, valid) && AllValid(xs, valid)
    ensures ParseMany(|xs|, parse, WriteAll(xs, write, rest)) == Done(xs, rest)
  {
    if xs != [] {
      ManyInverse(xs[1..], write, parse, valid, rest);
      assert xs == [xs[0]] + xs[1..];
    }
  }

  lemma {:induction false} ManyCanonical<T(!new)>(n: nat, write: (T, Bytes) -> Bytes, parse: Bytes -> Parsed<T>,
                                                  valid: T -> bool, bs: Bytes)
    requires Inverse(write, parse, valid) && ParseMany(n, parse, bs).Done?
    ensures var r := ParseMany(n, parse, bs);
            |r.value| == n && AllValid(r.value, valid) && bs == WriteAll(r.value, write, r.rest)
  {
    if n > 0 {
      var first := parse(bs);
      ManyCanonical(n - 1, write, parse, valid, first.rest);
      var xs := ParseMany(n - 1, parse, first.rest).value;
      assert ([first.value] + xs)[1..] == xs;
    }
  }

  lemma {:induction false} ListCodec<T(!new)>(xs: seq<T>, write: (T, Bytes) -> Bytes, parse: Bytes -> Parsed<T>,
                                              valid: T -> bool, rest: Bytes, bs: Bytes)
    requires Inverse(write, parse, valid)
    ensures |xs| < U32_LIMIT && AllValid(xs, valid) ==> ParseList(parse, WriteList(xs, write, rest)) == Done(xs, rest)
    ensures ParseList(parse, bs).Done? ==>
              var r := ParseList(parse, bs);
                  |r.value| < U32_LIMIT && AllValid(r.value, valid) && bs == WriteList(r.value, write, r.rest)
  {
    U32Codec(|xs|, WriteAll(xs, write, rest), bs);
    if |xs| < U32_LIMIT && AllValid(xs, valid) {
      ManyInverse(xs, write, parse, valid, rest);
    }
    if ParseList(parse, bs).Done? {
      ManyCanonical(TakeU32(bs).value, write, parse, valid, TakeU32(bs).rest);
    }
  }

  // ----- the cursor --------------------------------------------------------------------

  /** Bounds-checked reads; a failed read leaves the position where it was. */
  class Reader {
    const bytes: Bytes
    var position: nat

    ghost predicate Valid()
      reads this
    {
      position <= |bytes|
    }

    function Rest(): Bytes
      requires Valid()
      reads this
    {
      bytes[position..]
    }

    constructor (input: Bytes)
      ensures Valid() && bytes == input && Rest() == input
    {
      bytes, position := input, 0;
    }

    method U8() returns (b: Option<Byte>)
      requires Valid()
      modifies this
      ensures Valid()
      ensures Reads(Take(1, old(Rest())), old(Rest()), Rest(), b.Some?)
      ensures b.Some? ==> [b.value] == Take(1, old(Rest())).value
    {
      if position == |bytes| {
        return None;
      }
      b := Some(bytes[position]);
      position := position + 1;
    }

    method TakeBytes(len: nat) returns (b: Option<Bytes>)
      requires Valid()
      modifies this
      ensures Valid()
      ensures Reads(Take(len, old(Rest())), old(Rest()), Rest(), b.Some?)
      ensures b.Some? ==> b.value == Take(len, old(Rest())).value
    {
      var end := position + len;
      if end > |bytes| {
        return None;
      }
      b := Some(bytes[position..end]);
      position := end;
    }

    method U32() returns (v: Option<nat>)
      requires Valid()
      modifies this
      ensures Valid()
      ensures Reads(TakeU32(old(Rest())), old(Rest()), Rest(), v.Some?)
      ensures v.Some? ==> v.value == TakeU32(old(Rest())).value
    {
      var b := TakeBytes(4);
      return if b.Some? then Some(FromBe(b.value)) else None;
    }

    method U64() returns (v: Option<nat>)
      requires Valid()
      modifies this
      ensures Valid()
      ensures Reads(TakeU64(old(Rest())), old(Rest()), Rest(), v.Some?)
      ensures v.Some? ==> v.value == TakeU64(old(Rest())).value
    {
      var b := TakeBytes(8);
      return if b.Some? then Some(FromBe(b.value)) else None;
    }

    predicate AtEnd()
      requires Valid()
      reads this
    {
      position == |bytes|
    }
  }

  /** A read succeeds exactly when the parser does, and moves past exactly what it consumed. */
  predicate Reads<T>(parsed: Parsed<T>, before: Bytes, after: Bytes, ok: bool) {
    (ok <==> parsed.Done?) && after == if parsed.Done? then parsed.rest else before
  }
}
