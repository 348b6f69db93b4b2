/**
 The order-preserving tuple encoding (core/src/key.rs).

 A zero byte inside a component becomes 00 01 and a component ends with 00 00.
 Byte order of the flat form is tuple order, component prefixes are byte
 prefixes, and the decoder accepts nothing but encodings.
 */
module Keys {
  import opened Types

  const MAX_COMPONENTS: nat := 256
  const MAX_COMPONENT_LEN: nat := 65535
  const MAX_ENCODED_KEY_LEN: nat := 1048576

  type Tuple = seq<Bytes>

  // ----- the encoding -------------------------------------------------------------------

  function EscByte(b: Byte): Bytes { if b == 0 then [0, 1] else [b] }

  function Esc(c: Bytes): Bytes {
    if c == [] then [] else EscByte(c[0]) + Esc(c[1..])
  }

  function Enc(cs: Tuple): Bytes {
    if cs == [] then [] else Esc(cs[0]) + [0, 0] + Enc(cs[1..])
  }

  /** One component with its terminator, followed by more bytes. */
  function Framed(c: Bytes, rest: Bytes): Bytes {
    if c == [] then [0, 0] + rest else EscByte(c[0]) + Framed(c[1..], rest)
  }

  lemma {:induction false} FramedIsEsc(c: Bytes, rest: Bytes)
    ensures Framed(c, rest) == Esc(c) + [0, 0] + rest
  {
    if c != [] {
      FramedIsEsc(c[1..], rest);
      assert EscByte(c[0]) + (Esc(c[1..]) + [0, 0] + rest) == EscByte(c[0]) + Esc(c[1..]) + [0, 0] + rest;
    }
  }

  lemma {:induction false} EncIsFramed(cs: Tuple)
    requires cs != []
    ensures Enc(cs) == Framed(cs[0], Enc(cs[1..]))
  {
    FramedIsEsc(cs[0], Enc(cs[1..]));
  }

  // ----- order ----------------------------------------------------------------------------

  /** Unsigned lexicographic byte order. */
  predicate BytesLess(a: Bytes, b: Bytes) {
    b != [] && (a == [] || a[0] < b[0] || (a[0] == b[0] && BytesLess(a[1..], b[1..])))
  }

  /** Component-wise order. */
  predicate TupleLess(a: Tuple, b: Tuple) {
    b != [] && (a == [] || if a[0] == b[0] then TupleLess(a[1..], b[1..]) else BytesLess(a[0], b[0]))
  }

  lemma {:induction false} LessAfterCommon(x: Bytes, a: Bytes, b: Bytes)
    ensures BytesLess(x + a, x + b) <==> BytesLess(a, b)
    ensures x + a <= x + b <==> a <= b
  {
    if x == [] {
      assert x + a == a && x + b == b;
    } else {
      LessAfterCommon(x[1..], a, b);
      assert (x + a)[1..] == x[1..] + a && (x + b)[1..] == x[1..] + b;
      assert x + a == [x[0]] + (x[1..] + a) && x + b == [x[0]] + (x[1..] + b);
    }
  }

  /** Two framed components compare as the components do, and fall through to the rest only when equal. */
  lemma {:induction false} FramedOrder(c: Bytes, r: Bytes, d: Bytes, s: Bytes)
    ensures BytesLess(Framed(c, r), Framed(d, s)) <==> if c == d then BytesLess(r, s) else BytesLess(c, d)
    ensures Framed(c, r) <= Framed(d, s) <==> c == d && r <= s
    decreases |c|
  {
    if c == [] && d == [] {
      LessAfterCommon([0, 0], r, s);
    } else if c == [] || d == [] || c[0] != d[0] {
      FramedHeads(c, r, d, s);
    } else {
      FramedOrder(c[1..], r, d[1..], s);
      LessAfterCommon(EscByte(c[0]), Framed(c[1..], r), Framed(d[1..], s));
      assert c == d <==> c[1..] == d[1..] by {
        assert c == [c[0]] + c[1..] && d == [d[0]] + d[1..];
      }
    }
  }

  /** The escaping keeps the terminator below every continuation. */
  lemma {:induction false} FramedHeads(c: Bytes, r: Bytes, d: Bytes, s: Bytes)
    requires (c == []) != (d == []) || (c != [] && d != [] && c[0] != d[0])
    ensures BytesLess(Framed(c, r), Framed(d, s)) <==> BytesLess(c, d)
    ensures !(Framed(c, r) <= Framed(d, s))
  {
    var f, g := Framed(c, r), Framed(d, s);
    assert f[0] == g[0] ==> f[0] == 0 && f[1] != g[1] && BytesLess(f[1..], g[1..]) == (f[1] < g[1]);
  }

  /** Byte order is tuple order. */
  lemma {:induction false} EncodingPreservesOrder(a: Tuple, b: Tuple)
    ensures BytesLess(Enc(a), Enc(b)) <==> TupleLess(a, b)
  {
    if a != [] && b != [] {
      EncIsFramed(a);
      EncIsFramed(b);
      FramedOrder(a[0], Enc(a[1..]), b[0], Enc(b[1..]));
      EncodingPreservesOrder(a[1..], b[1..]);
    } else if b != [] {
      EncIsFramed(b);
      FramedNonempty(b[0], Enc(b[1..]));
    }
  }

  lemma {:induction false} FramedNonempty(c: Bytes, rest: Bytes)
    ensures |Framed(c, rest)| >= 2 + |rest|
  {
    if c != [] {
      FramedNonempty(c[1..], rest);
    }
  }

  /** Component prefixes are exactly byte prefixes. */
  lemma {:induction false} PrefixIsBytePrefix(p: Tuple, k: Tuple)
    ensures p <= k <==> Enc(p) <= Enc(k)
  {
    if p == [] {
    } else if k == [] {
      EncIsFramed(p);
      FramedNonempty(p[0], Enc(p[1..]));
    } else {
      EncIsFramed(p);
      EncIsFramed(k);
      FramedOrder(p[0], Enc(p[1..]), k[0], Enc(k[1..]));
      PrefixIsBytePrefix(p[1..], k[1..]);
      assert p == [p[0]] + p[1..] && k == [k[0]] + k[1..];
    }
  }

  lemma {:induction false} EncodingIsInjective(a: Tuple, b: Tuple)
    requires Enc(a) == Enc(b)
    ensures a == b
  {
    PrefixIsBytePrefix(a, b);
    PrefixIsBytePrefix(b, a);
  }

  // ----- encoding as a loop --------------------------------------------------------------

  lemma {:induction false} EscAppend(c: Bytes, b: Byte)
    ensures Esc(c + [b]) == Esc(c) + EscByte(b)
  {
    var d := c + [b];
    if c == [] {
      assert d[0] == b && d[1..] == [];
    } else {
      assert d[0] == c[0] && d[1..] == c[1..] + [b];
      EscAppend(c[1..], b);
      Associate(EscByte(c[0]), Esc(c[1..]), EscByte(b));
    }
  }

  lemma {:induction false} EncAppend(cs: Tuple, c: Bytes)
    ensures Enc(cs + [c]) == Enc(cs) + Esc(c) + [0, 0]
  {
    var ds, end := cs + [c], Esc(c) + [0, 0];
    if cs == [] {
      assert ds[0] == c && ds[1..] == [];
      assert Enc(ds) == end + Enc([]) == end;
    } else {
      assert ds[0] == cs[0] && ds[1..] == cs[1..] + [c];
      EncAppend(cs[1..], c);
      Associate(Enc(cs[1..]), Esc(c), [0, 0]);
      Associate(Esc(cs[0]) + [0, 0], Enc(cs[1..]), end);
      Associate(Enc(cs), Esc(c), [0, 0]);
    }
  }

  method EscapeComponent(component: Bytes) returns (out: Bytes)
    ensures out == Esc(component)
  {
    out := [];
    for j := 0 to |component|
      invariant out == Esc(component[..j])
    {
      EscAppend(component[..j], component[j]);
      assert component[..j + 1] == component[..j] + [component[j]];
      if component[j] == 0 {
        out := out + [0, 1];
      } else {
        out := out + [component[j]];
      }
    }
    assert component[..|component|] == component;
  }

  method EncodeComponents(components: Tuple) returns (out: Bytes)
    ensures out == Enc(components)
  {
    out := [];
    for i := 0 to |components|
      invariant out == Enc(components[..i])
    {
      EncAppend(components[..i], components[i]);
      assert components[..i + 1] == components[..i] + [components[i]];
      var escaped := EscapeComponent(components[i]);
      out := out + escaped + [0, 0];
    }
    assert components[..|components|] == components;
  }

  /** The encoded length, computed without encoding. */
  function EncodedLen(cs: Tuple): nat {
    if cs == [] then 0 else EscapedLen(cs[0], 2) + EncodedLen(cs[1..])
  }

  function EscapedLen(c: Bytes, len: nat): nat {
    if c == [] then len else EscapedLen(c[1..], len + (if c[0] == 0 then 1 else 0) + 1)
  }

  lemma {:induction false} EscapedLenIsExact(c: Bytes, len: nat)
    ensures EscapedLen(c, len) == len + |Esc(c)|
  {
    if c != [] {
      EscapedLenIsExact(c[1..], len + (if c[0] == 0 then 1 else 0) + 1);
    }
  }

  lemma {:induction false} EncodedLenIsExact(cs: Tuple)
    ensures EncodedLen(cs) == |Enc(cs)|
  {
    if cs != [] {
      EscapedLenIsExact(cs[0], 2);
      EncodedLenIsExact(cs[1..]);
    }
  }

  // ----- decoding ------------------------------------------------------------------------

  datatype KeyError =
    | Empty | TooManyComponents(len: nat) | EmptyComponent | ComponentTooLong(len: nat) | EncodedTooLong(len: nat)

  datatype DecodeError = Truncated | InvalidEscape(offset: nat, byte: Byte) | InvalidKey(error: KeyError)

  predicate ValidComponent(c: Bytes) { 1 <= |c| <= MAX_COMPONENT_LEN }

  predicate ValidTuple(cs: Tuple) { forall i :: 0 <= i < |cs| ==> ValidComponent(cs[i]) }

  /** The decoder's result on `bytes`, `at` bytes into its input and `current` into a component. */
  function Parse(bytes: Bytes, current: Bytes, at: nat): Result<Tuple, DecodeError>
    decreases |bytes|, 0
  {
    if bytes == [] then if current == [] then Ok([]) else Err(Truncated)
    else if bytes[0] != 0 then Push(bytes[1..], current, bytes[0], at + 1)
    else if |bytes| == 1 then Err(Truncated)
    else if bytes[1] == 0 then
      if current == [] then Err(InvalidKey(EmptyComponent))
      else Cons(current, Parse(bytes[2..], [], at + 2))
    else if bytes[1] == 1 then Push(bytes[2..], current, 0, at + 2)
    else Err(InvalidEscape(at, bytes[1]))
  }

  function Push(rest: Bytes, current: Bytes, b: Byte, at: nat): Result<Tuple, DecodeError>
    decreases |rest|, 1
  {
    if |current| == MAX_COMPONENT_LEN then Err(InvalidKey(ComponentTooLong(|current| + 1)))
      else Parse(rest, current + [b], at)
  }

  function Cons(c: Bytes, rest: Result<Tuple, DecodeError>): Result<Tuple, DecodeError> {
    if rest.Ok? then Ok([c] + rest.value) else rest
  }

  /** What remains of an encoding once `current` of its first component has been read. */
  predicate Remaining(bytes: Bytes, current: Bytes, cs: Tuple) {
    if cs == [] then bytes == [] && current == []
    else current <= cs[0] && bytes == Framed(cs[0][|current|..], Enc(cs[1..]))
  }

  /** Whatever parses is what was encoded. */
  lemma {:induction false} ParseIsSound(bytes: Bytes, current: Bytes, at: nat)
    requires |current| <= MAX_COMPONENT_LEN && Parse(bytes, current, at).Ok?
    ensures ValidTuple(Parse(bytes, current, at).value) && Remaining(bytes, current, Parse(bytes, current, at).value)
    decreases bytes
  {
    if bytes == [] {
    } else if bytes[0] == 0 && bytes[1] == 0 {
      ParseIsSound(bytes[2..], [], at + 2);
      var cs := Parse(bytes[2..], [], at + 2).value;
      if cs != [] {
        EncIsFramed(cs);
        assert cs[0][0..] == cs[0];
      }
      assert ([current] + cs)[1..] == cs;
      assert bytes == [0, 0] + bytes[2..];
      assert current[|current|..] == [];
    } else {
      var b, n := if bytes[0] == 0 then 0 else bytes[0], if bytes[0] == 0 then 2 else 1;
      ParseIsSound(bytes[n..], current + [b], at + n);
      var cs := Parse(bytes[n..], current + [b], at + n).value;
      FramedStep(cs[0], current, b, Enc(cs[1..]));
      assert bytes == EscByte(b) + bytes[n..];
    }
  }

  lemma {:induction false} FramedStep(c: Bytes, current: Bytes, b: Byte, rest: Bytes)
    requires current + [b] <= c
    ensures current <= c && |current| < |c| && c[|current|] == b
    ensures Framed(c[|current|..], rest) == EscByte(b) + Framed(c[|current| + 1..], rest)
  {
    assert (current + [b])[|current|] == b;
    assert c[|current|..][1..] == c[|current| + 1..];
  }

  /** Every encoding of a valid tuple parses, to that tuple. */
  lemma {:induction false} ParseIsComplete(bytes: Bytes, current: Bytes, at: nat, cs: Tuple)
    requires ValidTuple(cs) && Remaining(bytes, current, cs)
    ensures Parse(bytes, current, at) == Ok(cs)
    decreases |bytes|
  {
    if cs != [] {
      var c, rest := cs[0], Enc(cs[1..]);
      FramedNonempty(c[|current|..], rest);
      if |current| == |c| {
        assert current == c && c[|current|..] == [];
        assert bytes[2..] == rest;
        if cs[1..] != [] {
          EncIsFramed(cs[1..]);
          assert cs[1][0..] == cs[1];
        }
        ParseIsComplete(bytes[2..], [], at + 2, cs[1..]);
        assert cs == [c] + cs[1..];
      } else {
        var b := c[|current|];
        assert current + [b] <= c;
        FramedStep(c, current, b, rest);
        var n := |EscByte(b)|;
        assert bytes[n..] == Framed(c[|current| + 1..], rest);
        ParseIsComplete(bytes[n..], current + [b], at + n, cs);
      }
    }
  }

  /**
   Where decoding stops: after whole components `cs` and the part `c` of another, `rest` cannot go on. Offsets
   count from `base`.
   */
  predicate StopsAt(bytes: Bytes, base: nat, cs: Tuple, c: Bytes, rest: Bytes, e: DecodeError) {
    && bytes == Enc(cs) + (Esc(c) + rest) && ValidTuple(cs) && |c| <= MAX_COMPONENT_LEN
    && match e
      case Truncated => rest == [0] || (rest == [] && c != [])
      case InvalidEscape(offset, b) =>
        |rest| >= 2 && rest[0] == 0 && rest[1] == b && b > 1 && offset == base + |Enc(cs)| + |Esc(c)|
      case InvalidKey(EmptyComponent) => c == [] && [0, 0] <= rest
      case InvalidKey(ComponentTooLong(n)) =>
        && |c| == MAX_COMPONENT_LEN && n == |c| + 1
        && rest != [] && (rest[0] != 0 || (|rest| >= 2 && rest[1] == 1))
      case InvalidKey(_) => false
  }

  lemma {:induction false} ComponentDone(current: Bytes, bytes: Bytes, base: nat, cs: Tuple, c: Bytes, rest: Bytes,
                                         e: DecodeError)
    requires ValidComponent(current) && StopsAt(bytes, base + |Esc(current)| + 2, cs, c, rest, e)
    ensures StopsAt(Esc(current) + ([0, 0] + bytes), base, [current] + cs, c, rest, e)
  {
    assert ([current] + cs)[1..] == cs;
    assert Enc([current] + cs) == Esc(current) + [0, 0] + Enc(cs);
    Associate(Esc(current), [0, 0], Enc(cs) + (Esc(c) + rest));
    Associate(Esc(current) + [0, 0], Enc(cs), Esc(c) + rest);
  }

  /** Every refusal says truly where decoding stops and why. */
  lemma {:induction false} ParseFails(bytes: Bytes, current: Bytes, at: nat, base: nat)
      returns (cs: Tuple, c: Bytes, rest: Bytes)
    requires |current| <= MAX_COMPONENT_LEN && at == base + |Esc(current)| && Parse(bytes, current, at).Err?
    ensures StopsAt(Esc(current) + bytes, base, cs, c, rest, Parse(bytes, current, at).error)
    decreases |bytes|
  {
    cs, c, rest := [], current, bytes;
    assert Enc(cs) + (Esc(current) + bytes) == Esc(current) + bytes;
    if |bytes| >= 2 && bytes[0] == 0 && bytes[1] == 0 && current != [] {
      var more := bytes[2..];
      assert bytes == [0, 0] + more && Esc([]) + more == more;
      cs, c, rest := ParseFails(more, [], at + 2, at + 2);
      ComponentDone(current, more, base, cs, c, rest, Parse(more, [], at + 2).error);
      cs := [current] + cs;
    } else if bytes != [] && (bytes[0] != 0 || (|bytes| >= 2 && bytes[1] == 1)) && |current| < MAX_COMPONENT_LEN {
      var b, n := bytes[0], if bytes[0] == 0 then 2 else 1;
      EscAppend(current, b);
      assert bytes == EscByte(b) + bytes[n..];
      Associate(Esc(current), EscByte(b), bytes[n..]);
      cs, c, rest := ParseFails(bytes[n..], current + [b], at + n, base);
    }
  }

  /** The decoder refuses only bytes that stop short, and its error says where and why. */
  lemma {:induction false} RefusalIsExact(bytes: Bytes) returns (cs: Tuple, c: Bytes, rest: Bytes)
    requires Parse(bytes, [], 0).Err?
    ensures StopsAt(bytes, 0, cs, c, rest, Parse(bytes, [], 0).error)
  {
    assert Esc([]) + bytes == bytes;
    cs, c, rest := ParseFails(bytes, [], 0, 0);
  }

  method PushComponentByte(current: Bytes, b: Byte) returns (next: Result<Bytes, DecodeError>)
    ensures next == if |current| == MAX_COMPONENT_LEN then Err(InvalidKey(ComponentTooLong(|current| + 1)))
            else Ok(current + [b])
  {
    if |current| == MAX_COMPONENT_LEN {
      return Err(InvalidKey(ComponentTooLong(|current| + 1)));
    }
    return Ok(current + [b]);
  }

  function Prepend(cs: Tuple, r: Result<Tuple, DecodeError>): Result<Tuple, DecodeError> {
    if r.Ok? then Ok(cs + r.value) else r
  }

  lemma {:induction false} PrependCons(cs: Tuple, c: Bytes, r: Result<Tuple, DecodeError>)
    ensures Prepend(cs, Cons(c, r)) == Prepend(cs + [c], r)
    ensures Prepend([], r) == r
  {
    if r.Ok? {
      assert [] + r.value == r.value;
      assert cs + ([c] + r.value) == cs + [c] + r.value;
    }
  }

  method DecodeComponents(bytes: Bytes) returns (r: Result<Tuple, DecodeError>)
    ensures r == Parse(bytes, [], 0)
  {
    var components: Tuple := [];
    var current: Bytes := [];
    var atBoundary := true;
    var i := 0;
    assert bytes[0..] == bytes;
    PrependCons([], [], Parse(bytes, [], 0));
    while i < |bytes|
      invariant 0 <= i <= |bytes|
      invariant atBoundary <==> current == []
      invariant Parse(bytes, [], 0) == Prepend(components, Parse(bytes[i..], current, i))
    {
      assert bytes[i..][1..] == bytes[i + 1..];
      if bytes[i] == 0 {
        if i + 1 == |bytes| {
          return Err(Truncated);
        }
        assert bytes[i..][2..] == bytes[i + 2..];
        if bytes[i + 1] == 0 {
          if current == [] {
            return Err(InvalidKey(EmptyComponent));
          }
          PrependCons(components, current, Parse(bytes[i + 2..], [], i + 2));
          components := components + [current];
          current := [];
          atBoundary := true;
          i := i + 2;
        } else if bytes[i + 1] == 1 {
          var next := PushComponentByte(current, 0);
          if next.Err? {
            return Err(next.error);
          }
          current := next.value;
          atBoundary := false;
          i := i + 2;
        } else {
          return Err(InvalidEscape(i, bytes[i + 1]));
        }
      } else {
        var next := PushComponentByte(current, bytes[i]);
        if next.Err? {
          return Err(next.error);
        }
        current := next.value;
        atBoundary := false;
        i := i + 1;
      }
    }
    if !atBoundary {
      return Err(Truncated);
    }
    assert components + [] == components;
    return Ok(components);
  }

  /** The decoder accepts exactly the encodings of valid tuples and returns what was encoded. */
  lemma {:induction false} DecodeIsExact(bytes: Bytes, cs: Tuple)
    ensures Parse(bytes, [], 0) == Ok(cs) <==> ValidTuple(cs) && Enc(cs) == bytes
  {
    if cs != [] {
      EncIsFramed(cs);
      assert cs[0][0..] == cs[0];
    }
    if Parse(bytes, [], 0) == Ok(cs) {
      ParseIsSound(bytes, [], 0);
    }
    if ValidTuple(cs) && Enc(cs) == bytes {
      ParseIsComplete(bytes, [], 0, cs);
    }
  }

  // ----- keys ------------------------------------------------------------------------------

  predicate ValidKey(k: Tuple) {
    1 <= |k| <= MAX_COMPONENTS && ValidTuple(k) && |Enc(k)| <= MAX_ENCODED_KEY_LEN
  }

  /** Validate a tuple of well-formed components as a key. */
  method NewKey(cs: Tuple) returns (r: Result<Key, KeyError>)
    requires ValidTuple(cs)
    ensures r.Ok? <==> ValidKey(cs)
    ensures r.Ok? ==> r.value == cs
    ensures r.Err? ==> r.error == if cs == [] then Empty
                                  else if |cs| > MAX_COMPONENTS then TooManyComponents(|cs|)
                                  else EncodedTooLong(|Enc(cs)|)
  {
    if cs == [] {
      return Err(Empty);
    }
    if |cs| > MAX_COMPONENTS {
      return Err(TooManyComponents(|cs|));
    }
    EncodedLenIsExact(cs);
    var len := EncodedLen(cs);
    if len > MAX_ENCODED_KEY_LEN {
      return Err(EncodedTooLong(len));
    }
    return Ok(cs);
  }

  /** The pure form of key decoding, for the record codecs. */
  function DecodedKey(bytes: Bytes): Option<Key> {
    var r := Parse(bytes, [], 0);
    if |bytes| <= MAX_ENCODED_KEY_LEN && r.Ok? && 1 <= |r.value| <= MAX_COMPONENTS then Some(r.value) else None
  }

  /** `DecodedKey` inverts encoding on valid keys and accepts nothing else. */
  lemma {:induction false} DecodedKeyIsExact(bytes: Bytes, k: Key)
    ensures DecodedKey(bytes) == Some(k) <==> ValidKey(k) && Enc(k) == bytes
  {
    DecodeIsExact(bytes, k);
  }

  method DecodeKey(bytes: Bytes) returns (r: Result<Key, DecodeError>)
    ensures r.Ok? <==> exists k: Key :: ValidKey(k) && Enc(k) == bytes
    ensures r.Ok? ==> ValidKey(r.value) && Enc(r.value) == bytes
    ensures r.Ok? <==> DecodedKey(bytes).Some?
    ensures r.Err? ==>
              if |bytes| > MAX_ENCODED_KEY_LEN then r.error == InvalidKey(EncodedTooLong(|bytes|))
              else if Parse(bytes, [], 0).Err? then r.error == Parse(bytes, [], 0).error
              else var n := |Parse(bytes, [], 0).value|;
                r.error == InvalidKey(if n == 0 then Empty else TooManyComponents(n))
  {
    forall k: Key ensures DecodedKey(bytes) == Some(k) <==> ValidKey(k) && Enc(k) == bytes {
      DecodedKeyIsExact(bytes, k);
    }
    if |bytes| > MAX_ENCODED_KEY_LEN {
      return Err(InvalidKey(EncodedTooLong(|bytes|)));
    }
    var cs := DecodeComponents(bytes);
    if cs.Err? {
      return Err(cs.error);
    }
    DecodeIsExact(bytes, cs.value);
    var k := NewKey(cs.value);
    if k.Err? {
      return Err(InvalidKey(k.error));
    }
    return Ok(k.value);
  }
}
