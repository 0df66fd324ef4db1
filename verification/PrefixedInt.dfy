/**
 Prefixed integers (section 5.1 of RFC 7541, section 4.1.1 of RFC 9204): the probe's encoder
 loop, the function it computes, and a decoder written from the RFC.
 */
module PrefixedInt {
  import opened Bits
  import opened Sequences
  import opened Options

  /** `(1 << prefix_bits) - 1` */
  function Limit(prefixBits: nat): nat { Pow(2, prefixBits) - 1 }

  /** Continuation bytes: base-128 digits, least significant first, top bit set on all but the last. */
  function Continuation(value: nat): (r: seq<byte>)
    ensures r != []
  {
    if value < 128 then [value]
    else [value % 128 + 128] + Continuation(value / 128)
  }

  function Encode(value: nat, prefixBits: nat, base: byte): (r: seq<byte>)
    requires 1 <= prefixBits <= 8
    ensures r != []
  {
    FirstByteFits(prefixBits, base, if value < Limit(prefixBits) then value else Limit(prefixBits));
    if value < Limit(prefixBits) then [Or(base, value)]
    else [Or(base, Limit(prefixBits))] + Continuation(value - Limit(prefixBits))
  }

  lemma FirstByteFits(prefixBits: nat, base: byte, low: nat)
    requires 1 <= prefixBits <= 8 && low <= Limit(prefixBits)
    ensures Or(base, low) < 256
  {
    PowMonotone(prefixBits, 8);
    assert Pow(2, 8) == 256;
    OrBound(base, low, 8);
  }

  lemma SetTopBit(low: nat)
    requires low < 128
    ensures Or(low, 128) == low + 128
  {
    assert Pow(2, 7) == 128;
    OrDisjoint(low, 128, 7, 1);
  }

  method EncodePrefixedInt(value: nat, prefixBits: nat, base: byte) returns (encoded: seq<byte>)
    requires 1 <= prefixBits <= 8
    ensures encoded == Encode(value, prefixBits, base)
  {
    var limit := Limit(prefixBits);
    FirstByteFits(prefixBits, base, if value < limit then value else limit);
    if value < limit {
      return [Or(base, value)];
    }
    encoded := AppendContinuation([Or(base, limit)], value - limit);
  }

  /** The loop of the probe; `value & 0x7F` is `% 128` and `value >> 7` is `/ 128`. */
  method AppendContinuation(start: seq<byte>, value: nat) returns (encoded: seq<byte>)
    ensures encoded == start + Continuation(value)
  {
    encoded := start;
    var left := value;
    while left >= 128
      invariant encoded + Continuation(left) == start + Continuation(value)
      decreases left
    {
      SetTopBit(left % 128);
      ghost var before := encoded;
      encoded := encoded + [Or(left % 128, 128)];
      assert before + Continuation(left) == encoded + Continuation(left / 128);
      left := left / 128;
    }
    encoded := encoded + [left];
  }

  /** What a reader gets: the flag bits above the prefix, the value, and the unread bytes. */
  datatype Decoded = Decoded(flags: nat, value: nat, rest: seq<byte>)

  datatype Continued = Continued(value: nat, rest: seq<byte>)

  function DecodeContinuation(bs: seq<byte>): (r: Option<Continued>)
    ensures r.Some? ==> |r.value.rest| < |bs|
    decreases |bs|
  {
    if bs == [] then None
    else if bs[0] < 128 then Some(Continued(bs[0], bs[1..]))
    else
      var more := DecodeContinuation(bs[1..]);
      if more.None? then None
      else Some(Continued(bs[0] - 128 + 128 * more.value.value, more.value.rest))
  }

  function Decode(bs: seq<byte>, prefixBits: nat): (r: Option<Decoded>)
    requires 1 <= prefixBits <= 8
    ensures r.Some? ==> |r.value.rest| < |bs|
  {
    if bs == [] then None
    else
      var low := bs[0] % Pow(2, prefixBits);
      var flags := bs[0] - low;
      if low < Limit(prefixBits) then Some(Decoded(flags, low, bs[1..]))
      else
        var more := DecodeContinuation(bs[1..]);
        if more.None? then None
        else Some(Decoded(flags, Limit(prefixBits) + more.value.value, more.value.rest))
  }

  lemma {:induction false} ContinuationRoundTrip(value: nat, rest: seq<byte>)
    ensures DecodeContinuation(Continuation(value) + rest) == Some(Continued(value, rest))
    decreases value
  {
    var bs := Continuation(value) + rest;
    if value >= 128 {
      ContinuationRoundTrip(value / 128, rest);
      assert bs[1..] == Continuation(value / 128) + rest;
    } else {
      assert bs[1..] == rest;
    }
  }

  lemma FirstByte(low: nat, prefixBits: nat, base: byte)
    requires low < Pow(2, prefixBits) && base % Pow(2, prefixBits) == 0
    ensures Or(base, low) == base + low
    ensures (base + low) % Pow(2, prefixBits) == low
  {
    var m := Pow(2, prefixBits);
    var q := base / m;
    assert base == q * m by { Divided(base, m); }
    OrDisjoint(low, base, prefixBits, q);
    QuotientIsUnique(base + low, m, q, low);
  }

  lemma Divided(a: nat, m: nat)
    requires m > 0
    ensures a == (a / m) * m + a % m
  {
  }

  /** The first byte alone: what the encoder writes there and what the decoder makes of it. */
  lemma DecodeFirst(low: nat, prefixBits: nat, base: byte, more: seq<byte>)
    requires 1 <= prefixBits <= 8 && low <= Limit(prefixBits) && base % Pow(2, prefixBits) == 0
    ensures Or(base, low) == base + low < 256
    ensures low < Limit(prefixBits) ==> Decode([base + low] + more, prefixBits) == Some(Decoded(base, low, more))
    ensures low == Limit(prefixBits) ==>
      var tail := DecodeContinuation(more);
      Decode([base + low] + more, prefixBits) ==
        if tail.None? then None else Some(Decoded(base, low + tail.value.value, tail.value.rest))
  {
    FirstByteFits(prefixBits, base, low);
    FirstByte(low, prefixBits, base);
    var bs: seq<byte> := [base + low] + more;
    assert bs[0] == base + low && bs[1..] == more;
  }

  /** A base whose prefix bits are clear: the reader gets value, flags and trailing bytes back. */
  lemma RoundTrip(value: nat, prefixBits: nat, base: byte, rest: seq<byte>)
    requires 1 <= prefixBits <= 8 && base % Pow(2, prefixBits) == 0
    ensures Decode(Encode(value, prefixBits, base) + rest, prefixBits) == Some(Decoded(base, value, rest))
  {
    var limit := Limit(prefixBits);
    EncodedAs(value, prefixBits, base);
    if value < limit {
      DecodeFirst(value, prefixBits, base, rest);
    } else {
      var more := Continuation(value - limit);
      DecodeFirst(limit, prefixBits, base, more + rest);
      ContinuationRoundTrip(value - limit, rest);
      Reassociate([base + limit], more, rest);
    }
  }

  /** With clear prefix bits the OR of the source is a sum. */
  lemma EncodedAs(value: nat, prefixBits: nat, base: byte)
    requires 1 <= prefixBits <= 8 && base % Pow(2, prefixBits) == 0
    ensures var limit := Limit(prefixBits);
      base + limit < 256
      && Encode(value, prefixBits, base)
         == if value < limit then [base + value] else [base + limit] + Continuation(value - limit)
  {
    DecodeFirst(Limit(prefixBits), prefixBits, base, []);
    if value < Limit(prefixBits) { DecodeFirst(value, prefixBits, base, []); }
  }

  /** Clear prefix bits are also necessary: zero itself is lost under any other base. */
  lemma RoundTripExactly(prefixBits: nat, base: byte)
    requires 1 <= prefixBits <= 8
    ensures (forall value: nat :: Decode(Encode(value, prefixBits, base), prefixBits) == Some(Decoded(base, value, [])))
            <==> base % Pow(2, prefixBits) == 0
  {
    if base % Pow(2, prefixBits) == 0 {
      forall value: nat
        ensures Decode(Encode(value, prefixBits, base), prefixBits) == Some(Decoded(base, value, []))
      {
        RoundTrip(value, prefixBits, base, []);
        assert Encode(value, prefixBits, base) + [] == Encode(value, prefixBits, base);
      }
    } else {
      OrZero(base);
      PowMonotone(1, prefixBits);
      assert Encode(0, prefixBits, base) == [base];
      assert Decode([base], prefixBits) != Some(Decoded(base, 0, []));
    }
  }

  /** The examples of appendix C.1 of RFC 7541. */
  lemma ExamplesOfTheRfc(small: nat, large: nat, octet: nat)
    requires small == 10 && large == 1337 && octet == 42
    ensures Encode(small, 5, 0) == [0x0a]
    ensures Encode(large, 5, 0) == [0x1f, 0x9a, 0x0a]
    ensures Encode(octet, 8, 0) == [0x2a]
  {
    assert Pow(2, 5) == 32 && Pow(2, 8) == 256;
    EncodedAs(small, 5, 0);
    EncodedAs(large, 5, 0);
    EncodedAs(octet, 8, 0);
    assert Continuation(1306) == [0x9a] + Continuation(10);
  }

  /** Prefix-free: an encoding never runs into what follows it. */
  lemma PrefixFree(v: nat, w: nat, prefixBits: nat, base: byte, r: seq<byte>, s: seq<byte>)
    requires 1 <= prefixBits <= 8 && base % Pow(2, prefixBits) == 0
    requires Encode(v, prefixBits, base) + r == Encode(w, prefixBits, base) + s
    ensures v == w && r == s
  {
    RoundTrip(v, prefixBits, base, r);
    RoundTrip(w, prefixBits, base, s);
  }

  lemma {:induction false} ContinuationShortest(bs: seq<byte>)
    requires DecodeContinuation(bs).Some?
    ensures var d := DecodeContinuation(bs).value; |Continuation(d.value)| <= |bs| - |d.rest|
    decreases |bs|
  {
    if bs[0] >= 128 {
      ContinuationShortest(bs[1..]);
      var more := DecodeContinuation(bs[1..]).value;
      var v := DecodeContinuation(bs).value.value;
      assert v / 128 == more.value;
    }
  }

  /** No byte string that decodes to the value is shorter, whatever flags it carries. */
  lemma Shortest(bs: seq<byte>, prefixBits: nat, base: byte)
    requires 1 <= prefixBits <= 8 && Decode(bs, prefixBits).Some?
    ensures var d := Decode(bs, prefixBits).value; |Encode(d.value, prefixBits, base)| <= |bs| - |d.rest|
  {
    if bs[0] % Pow(2, prefixBits) >= Limit(prefixBits) {
      ContinuationShortest(bs[1..]);
    }
  }

  /** Byte count: one, or one more than the number of base-128 digits of `value - limit`. */
  lemma Length(value: nat, prefixBits: nat, base: byte)
    requires 1 <= prefixBits <= 8
    ensures var n := |Encode(value, prefixBits, base)|; var limit := Limit(prefixBits);
      if value < limit then n == 1
      else n >= 2 && value - limit < Pow(128, n - 1) && (n > 2 ==> Pow(128, n - 2) <= value - limit)
  {
    if value >= Limit(prefixBits) { ContinuationLength(value - Limit(prefixBits)); }
  }

  lemma {:induction false} ContinuationLength(value: nat)
    ensures var n := |Continuation(value)|;
      value < Pow(128, n) && (n > 1 ==> Pow(128, n - 1) <= value)
  {
    assert Pow(128, 0) == 1 && Pow(128, 1) == 128;
    if value >= 128 {
      ContinuationLength(value / 128);
      var n := |Continuation(value / 128)|;
      assert value == 128 * (value / 128) + value % 128;
      assert 128 * (value / 128 + 1) <= 128 * Pow(128, n);
    }
  }
}
