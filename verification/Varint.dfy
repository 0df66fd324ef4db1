/**
 QUIC variable-length integers (section 16 of RFC 9000): the probe's hand-written encoder
 against a decoder written from the RFC.
 */
module Varint {
  import opened Bits
  import opened Options
  import opened LexOrder

  const LIMIT_1: nat := 64
  const LIMIT_2: nat := 16384
  const LIMIT_4: nat := 1073741824
  const LIMIT_8: nat := 0x4000_0000_0000_0000
  const LIMIT_64: nat := 0x1_0000_0000_0000_0000
  const TAG_2: nat := 0x4000
  const TAG_4: nat := 0x8000_0000
  const TAG_8: nat := 0xC000_0000_0000_0000

  /** `value | tag` followed by `to_bytes(n, "big")`, which raises when the result needs more bytes. */
  function ToBytes(value: nat, n: nat): Option<seq<byte>> {
    if value < Pow(256, n) then Some(BigEndian(value, n)) else None
  }

  /** `None` stands for the ValueError of `bytes([value])` and the OverflowError of `to_bytes`. */
  function EncodeVarint(value: int): Option<seq<byte>> {
    if value < LIMIT_1 then (if value < 0 then None else Some([value]))
    else if value < LIMIT_2 then ToBytes(Or(value, TAG_2), 2)
    else if value < LIMIT_4 then ToBytes(Or(value, TAG_4), 4)
    else ToBytes(Or(value, TAG_8), 8)
  }

  datatype Decoded = Decoded(value: nat, rest: seq<byte>)

  /** The two most significant bits of the first byte give the base-2 logarithm of the length. */
  function LengthOf(first: byte): nat {
    match first / 64 case 0 => 1 case 1 => 2 case 2 => 4 case _ => 8
  }

  function DecodeVarint(bs: seq<byte>): (r: Option<Decoded>)
    ensures r.Some? ==> |r.value.rest| < |bs|
  {
    if bs == [] || |bs| < LengthOf(bs[0]) then None
    else
      var n := LengthOf(bs[0]);
      Some(Decoded(FoldBigEndian(bs[0] % 64, bs[1..n]), bs[n..]))
  }

  /** The tag (0 to 3) that goes into the two top bits, and the byte count that goes with it. */
  function TagOf(value: nat): nat {
    if value < LIMIT_1 then 0 else if value < LIMIT_2 then 1 else if value < LIMIT_4 then 2 else 3
  }

  function SizeOf(tag: nat): nat {
    match tag case 0 => 1 case 1 => 2 case 2 => 4 case _ => 8
  }

  /** Values representable with a tag: 64, 2^14, 2^30 and 2^62. */
  function CapacityOf(tag: nat): nat { 64 * Pow(256, SizeOf(tag) - 1) }

  lemma Capacities()
    ensures CapacityOf(0) == LIMIT_1 && CapacityOf(1) == LIMIT_2
    ensures CapacityOf(2) == LIMIT_4 && CapacityOf(3) == LIMIT_8
    ensures LIMIT_8 == 0x40000000 * 0x1_0000_0000
  {
    Pow256();
  }

  lemma Pow256()
    ensures Pow(256, 0) == 1 && Pow(256, 1) == 256 && Pow(256, 2) == 0x1_0000
    ensures Pow(256, 3) == 0x100_0000 && Pow(256, 4) == 0x1_0000_0000
    ensures Pow(256, 5) == 0x100_0000_0000 && Pow(256, 6) == 0x1_0000_0000_0000
    ensures Pow(256, 7) == 0x100_0000_0000_0000 && Pow(256, 8) == LIMIT_64
  {
  }

  lemma Pow2()
    ensures Pow(2, 14) == LIMIT_2 && Pow(2, 30) == LIMIT_4 && Pow(2, 62) == LIMIT_8 && Pow(2, 64) == LIMIT_64
  {
    assert Pow(2, 14) == 16384;
    assert Pow(2, 22) == 4194304;
    assert Pow(2, 30) == 1073741824;
    assert Pow(2, 38) == 0x40_0000_0000;
    assert Pow(2, 46) == 0x4000_0000_0000;
    assert Pow(2, 54) == 0x40_0000_0000_0000;
    assert Pow(2, 62) == LIMIT_8;
  }

  lemma FormFits(value: nat)
    requires value < LIMIT_8
    ensures var t := TagOf(value); value < CapacityOf(t) && t * CapacityOf(t) + value < Pow(256, SizeOf(t))
  {
    Capacities();
    Pow256();
  }

  lemma OneByte(value: byte)
    ensures value < Pow(256, 1) && BigEndian(value, 1) == [value]
  {
    assert Pow(256, 0) == 1;
    assert BigEndian(value, 1) == [value / Pow(256, 0)] + BigEndian(value % Pow(256, 0), 0);
  }

  lemma TaggedOr(value: nat, t: nat, bits: nat)
    requires value < CapacityOf(t) == Pow(2, bits)
    ensures Or(value, t * CapacityOf(t)) == t * CapacityOf(t) + value
  {
    OrDisjoint(value, t * CapacityOf(t), bits, t);
  }

  /** The one form all four branches share: the value, with its tag in the top two bits. */
  lemma EncodedForm(value: nat)
    requires value < LIMIT_8
    ensures var t := TagOf(value);
      value < CapacityOf(t) && t * CapacityOf(t) + value < Pow(256, SizeOf(t)) &&
      EncodeVarint(value) == Some(BigEndian(t * CapacityOf(t) + value, SizeOf(t)))
  {
    var t := TagOf(value);
    FormFits(value);
    if t == 0 {
      OneByte(value);
    } else {
      ByBranch(value);
      OrOfTag(value, t);
    }
  }

  /** The constant that the source combines with a value of this tag. */
  function TagConstant(t: nat): nat { if t == 1 then TAG_2 else if t == 2 then TAG_4 else TAG_8 }

  lemma TagInBits(t: nat)
    requires 1 <= t <= 3
    ensures CapacityOf(t) == Pow(2, if t == 1 then 14 else if t == 2 then 30 else 62)
    ensures TagConstant(t) == t * CapacityOf(t)
  {
    Capacities();
    Pow2();
    if t == 1 {
      assert CapacityOf(t) == LIMIT_2;
    } else if t == 2 {
      assert CapacityOf(t) == LIMIT_4;
    } else {
      assert CapacityOf(t) == LIMIT_8;
    }
  }

  lemma OrOfTag(value: nat, t: nat)
    requires 1 <= t <= 3 && value < CapacityOf(t)
    ensures Or(value, TagConstant(t)) == t * CapacityOf(t) + value
  {
    TagInBits(t);
    TaggedOr(value, t, if t == 1 then 14 else if t == 2 then 30 else 62);
  }

  lemma ByBranch(value: nat)
    requires LIMIT_1 <= value < LIMIT_8
    ensures var t := TagOf(value);
      EncodeVarint(value) == ToBytes(Or(value, TagConstant(t)), SizeOf(t))
  {
  }

  /** First byte and remaining bytes of a tagged big-endian integer. */
  lemma TaggedBytes(t: nat, value: nat)
    requires t < 4 && value < CapacityOf(t) && t * CapacityOf(t) + value < Pow(256, SizeOf(t))
    ensures var n := SizeOf(t); var p := Pow(256, n - 1); var e := BigEndian(t * CapacityOf(t) + value, n);
      value / p < 64 && value % p < p && e == [64 * t + value / p] + BigEndian(value % p, n - 1) &&
      LengthOf(e[0]) == n && e[0] % 64 == value / p && e[0] / 64 == t
  {
    var n := SizeOf(t);
    var p := Pow(256, n - 1);
    TagInFront(t, value, p);
    DivBound(value, p);
    FirstOfBigEndian(t * CapacityOf(t) + value, n);
    FirstByte(t, value / p);
  }

  lemma FirstOfBigEndian(whole: nat, n: nat)
    requires n > 0 && whole < Pow(256, n)
    ensures var p := Pow(256, n - 1);
      whole / p < 256 && whole % p < p && BigEndian(whole, n) == [whole / p] + BigEndian(whole % p, n - 1)
  {
    DivBound(whole, Pow(256, n - 1));
  }

  lemma FirstByte(t: nat, q: nat)
    requires t < 4 && q < 64
    ensures LengthOf(64 * t + q) == SizeOf(t) && (64 * t + q) % 64 == q && (64 * t + q) / 64 == t
  {
  }

  lemma TagInFront(t: nat, value: nat, p: nat)
    requires p > 0 && value < 64 * p
    ensures value / p < 64 && value % p < p
    ensures (t * (64 * p) + value) / p == 64 * t + value / p && (t * (64 * p) + value) % p == value % p
  {
    var q, r := value / p, value % p;
    assert value == q * p + r && r < p by { DivBound(value, p); }
    MulMonotone(64, q, p);
    assert t * (64 * p) + value == (64 * t + q) * p + r by { Tagged(t, q, p); }
    QuotientIsUnique(t * (64 * p) + value, p, 64 * t + q, r);
  }

  lemma Tagged(t: nat, q: nat, p: nat)
    ensures t * (64 * p) + q * p == (64 * t + q) * p
  {
  }

  lemma TaggedRoundTrip(t: nat, value: nat, rest: seq<byte>)
    requires t < 4 && value < CapacityOf(t) && t * CapacityOf(t) + value < Pow(256, SizeOf(t))
    ensures DecodeVarint(BigEndian(t * CapacityOf(t) + value, SizeOf(t)) + rest) == Some(Decoded(value, rest))
  {
    TaggedBytes(t, value);
    var n := SizeOf(t);
    var p := Pow(256, n - 1);
    var bs := BigEndian(t * CapacityOf(t) + value, n) + rest;
    assert bs[1..n] == BigEndian(value % p, n - 1) && bs[n..] == rest;
    DivBound(value, p);
    FoldOfBigEndian(value / p, value % p, n - 1);
  }

  /** Decoding gives the value back and leaves every following byte alone. */
  lemma RoundTrip(value: nat, rest: seq<byte>)
    requires value < LIMIT_8
    ensures EncodeVarint(value).Some?
    ensures DecodeVarint(EncodeVarint(value).value + rest) == Some(Decoded(value, rest))
  {
    EncodedForm(value);
    TaggedRoundTrip(TagOf(value), value, rest);
  }

  /**
   Between 2^62 and 2^64 the OR swallows the top two bits without an error, so the peer reads a
   different number; from 2^64 on, and below zero, the encoder raises.
   */
  lemma OversizedValue(value: nat)
    requires LIMIT_8 <= value < LIMIT_64
    ensures EncodeVarint(value).Some? && |EncodeVarint(value).value| == 8
    ensures DecodeVarint(EncodeVarint(value).value) == Some(Decoded(value % LIMIT_8, []))
    ensures forall rest :: DecodeVarint(EncodeVarint(value).value + rest) == Some(Decoded(value % LIMIT_8, rest))
  {
    Pow2();
    Pow256();
    Capacities();
    var high, low := value / LIMIT_8, value % LIMIT_8;
    assert 1 <= high <= 3;
    OrSplit(62, high, low, 3, value, TAG_8);
    assert Or(1, 3) == 3 && Or(2, 3) == 3 && Or(3, 3) == 3;
    assert Or(value, TAG_8) == 3 * CapacityOf(3) + low;
    TaggedBytes(3, low);
    var e := EncodeVarint(value).value;
    forall rest: seq<byte> ensures DecodeVarint(e + rest) == Some(Decoded(low, rest)) {
      TaggedRoundTrip(3, low, rest);
    }
    assert e + [] == e;
  }

  /** The encoder raises exactly outside [0, 2^64). */
  lemma RaisesExactly(value: int)
    ensures EncodeVarint(value).None? <==> value < 0 || LIMIT_64 <= value
  {
    if 0 <= value < LIMIT_8 {
      EncodedForm(value);
    } else if LIMIT_8 <= value < LIMIT_64 {
      OversizedValue(value);
    } else if value >= LIMIT_64 {
      Pow256();
      OrAtLeast(value, TAG_8);
    }
  }

  lemma {:induction false} OrAtLeast(a: nat, b: nat)
    ensures Or(a, b) >= a
    decreases a + b
  {
    if a != 0 || b != 0 { OrAtLeast(a / 2, b / 2); }
  }

  /** A peer reads back the number that was sent exactly when it is below 2^62. */
  lemma RoundTripExactly(value: int)
    ensures (EncodeVarint(value).Some? && value >= 0 &&
             DecodeVarint(EncodeVarint(value).value) == Some(Decoded(value, [])))
            <==> 0 <= value < LIMIT_8
  {
    RaisesExactly(value);
    if 0 <= value < LIMIT_8 {
      RoundTrip(value, []);
      assert EncodeVarint(value).value + [] == EncodeVarint(value).value;
    } else if LIMIT_8 <= value < LIMIT_64 {
      OversizedValue(value);
    }
  }

  /** The examples of appendix A.1 of RFC 9000. */
  lemma ExamplesOfTheRfc()
    ensures DecodeVarint([0x25]) == Some(Decoded(37, []))
    ensures DecodeVarint([0x40, 0x25]) == Some(Decoded(37, []))
    ensures DecodeVarint([0x7b, 0xbd]) == Some(Decoded(15293, []))
    ensures DecodeVarint([0x9d, 0x7f, 0x3e, 0x7d]) == Some(Decoded(494878333, []))
    ensures DecodeVarint([0xc2, 0x19, 0x7c, 0x5e, 0xff, 0x14, 0xe8, 0x8c]) == Some(Decoded(151288809941952652, []))
  {
    ReadsAs([0x25], 1, []);
    ReadsAs([0x40, 0x25], 2, [0x25]);
    ReadsAs([0x7b, 0xbd], 2, [0xbd]);
    ReadsAs([0x9d, 0x7f, 0x3e, 0x7d], 4, [0x7f, 0x3e, 0x7d]);
    ReadsAs([0xc2, 0x19, 0x7c, 0x5e, 0xff, 0x14, 0xe8, 0x8c], 8, [0x19, 0x7c, 0x5e, 0xff, 0x14, 0xe8, 0x8c]);
  }

  lemma ReadsAs(bs: seq<byte>, n: nat, tail: seq<byte>)
    requires bs != [] && |bs| == n == LengthOf(bs[0]) && tail == bs[1..]
    ensures DecodeVarint(bs) == Some(Decoded(FoldBigEndian(bs[0] % 64, tail), []))
  {
    assert bs[1..n] == tail && bs[n..] == [];
  }

  lemma DecodedBound(bs: seq<byte>)
    requires DecodeVarint(bs).Some?
    ensures var t := bs[0] / 64; DecodeVarint(bs).value.value < CapacityOf(t) && LengthOf(bs[0]) == SizeOf(t)
  {
    var n := LengthOf(bs[0]);
    FoldBound(bs[0] % 64, bs[1..n]);
    MulMonotone(bs[0] % 64 + 1, 64, Pow(256, n - 1));
  }

  /** No byte string that decodes to the value is shorter than the encoder's. */
  lemma Shortest(bs: seq<byte>)
    requires DecodeVarint(bs).Some?
    ensures var d := DecodeVarint(bs).value;
      EncodeVarint(d.value).Some? && |EncodeVarint(d.value).value| <= |bs| - |d.rest|
  {
    DecodedBound(bs);
    Capacities();
    EncodedForm(DecodeVarint(bs).value.value);
  }

  lemma {:induction false} BigEndianOrder(v: nat, w: nat, n: nat)
    requires v < w < Pow(256, n)
    ensures Less(BigEndian(v, n), BigEndian(w, n))
    decreases n
  {
    var p := Pow(256, n - 1);
    DivBound(v, p);
    DivBound(w, p);
    var a, b := v / p, w / p;
    MulMonotone(b + 1, a, p);
    assert (b + 1) * p == b * p + p;
    assert a <= b;
    if a == b {
      BigEndianOrder(v % p, w % p, n - 1);
      assert BigEndian(v, n)[1..] == BigEndian(v % p, n - 1);
      assert BigEndian(w, n)[1..] == BigEndian(w % p, n - 1);
    }
  }

  lemma TaggedOrder(s: nat, v: nat, t: nat, w: nat)
    requires v < w < LIMIT_8 && s == TagOf(v) && t == TagOf(w)
    ensures s * CapacityOf(s) + v < Pow(256, SizeOf(s)) && t * CapacityOf(t) + w < Pow(256, SizeOf(t))
    ensures Less(BigEndian(s * CapacityOf(s) + v, SizeOf(s)), BigEndian(t * CapacityOf(t) + w, SizeOf(t)))
  {
    FormFits(v);
    FormFits(w);
    if s == t {
      BigEndianOrder(s * CapacityOf(s) + v, t * CapacityOf(t) + w, SizeOf(s));
    } else {
      TaggedBytes(s, v);
      TaggedBytes(t, w);
    }
  }

  lemma OrderForward(v: nat, w: nat)
    requires v < w < LIMIT_8
    ensures EncodeVarint(v).Some? && EncodeVarint(w).Some?
    ensures Less(EncodeVarint(v).value, EncodeVarint(w).value)
  {
    var s, t := TagOf(v), TagOf(w);
    assert EncodeVarint(v) == Some(BigEndian(s * CapacityOf(s) + v, SizeOf(s))) by { EncodedForm(v); }
    assert EncodeVarint(w) == Some(BigEndian(t * CapacityOf(t) + w, SizeOf(t))) by { EncodedForm(w); }
    TaggedOrder(s, v, t, w);
  }

  /** Encodings sort as byte strings exactly as their values sort as numbers. */
  lemma OrderPreserved(v: nat, w: nat)
    requires v < LIMIT_8 && w < LIMIT_8
    ensures EncodeVarint(v).Some? && EncodeVarint(w).Some?
    ensures v < w <==> Less(EncodeVarint(v).value, EncodeVarint(w).value)
  {
    EncodedForm(v);
    EncodedForm(w);
    var a, b := EncodeVarint(v).value, EncodeVarint(w).value;
    Irreflexive(a);
    if v < w {
      OrderForward(v, w);
    } else if w < v {
      OrderForward(w, v);
      if Less(a, b) { Transitive(a, b, a); }
    }
  }
}
