/**
 QPACK literal field lines with literal names (section 4.5.6 of RFC 9204), the field-section
 prefix (section 4.5.1) and the HEADERS frame (sections 7.1 and 7.2.2 of RFC 9114): what the
 probe writes, and decoders written from the RFCs.
 */
module Qpack {
  import opened Bits
  import opened Sequences
  import opened Options
  import Decimal
  import Varint
  import PrefixedInt

  datatype Field = Field(name: seq<byte>, value: seq<byte>)

  predicate IsAscii(s: string) { forall i :: 0 <= i < |s| ==> s[i] < 128 as char }

  function Ascii(s: string): (r: seq<byte>)
    requires IsAscii(s)
    ensures |r| == |s| && forall i :: 0 <= i < |s| ==> r[i] == s[i] as int
  {
    seq(|s|, i requires 0 <= i < |s| => s[i] as int)
  }

  // ----- Encoder -----

  function Line(f: Field): seq<byte> {
    PrefixedInt.Encode(|f.name|, 3, 0x20) + f.name + PrefixedInt.Encode(|f.value|, 7, 0) + f.value
  }

  function Lines(fields: seq<Field>): seq<byte> {
    if fields == [] then [] else Line(fields[0]) + Lines(fields[1..])
  }

  /** Required Insert Count and Delta Base are zero: no dynamic table. */
  function Section(fields: seq<Field>): seq<byte> { [0, 0] + Lines(fields) }

  method QpackLiteralHeader(name: seq<byte>, value: seq<byte>) returns (encoded: seq<byte>)
    ensures encoded == Line(Field(name, value))
  {
    encoded := PrefixedInt.EncodePrefixedInt(|name|, 3, 0x20);
    encoded := encoded + name;
    var size := PrefixedInt.EncodePrefixedInt(|value|, 7, 0);
    encoded := encoded + size;
    encoded := encoded + value;
  }

  function PseudoHeaders(authority: seq<byte>): (r: seq<Field>)
    ensures |r| == 4
  {
    [Field(Ascii(":method"), Ascii("GET")),
     Field(Ascii(":scheme"), Ascii("https")),
     Field(Ascii(":authority"), authority),
     Field(Ascii(":path"), Ascii("/"))]
  }

  /** `f"x{index}".encode()` */
  function GeneratedName(index: nat): (r: seq<byte>)
    ensures |r| >= 2
  {
    Ascii("x" + Decimal.Digits(index))
  }

  function Generated(count: nat, value: seq<byte>): (r: seq<Field>)
    ensures |r| == count
    ensures forall i :: 0 <= i < count ==> r[i] == Field(GeneratedName(i), value)
  {
    if count == 0 then [] else Generated(count - 1, value) + [Field(GeneratedName(count - 1), value)]
  }

  /** Python's `range(n)` and `b"a" * n` are empty for a negative `n`. */
  function AtLeastZero(n: int): nat { if n < 0 then 0 else n }

  function Filler(valueBytes: int): seq<byte> { seq(AtLeastZero(valueBytes), _ => 97) }

  function OversizedFields(authority: seq<byte>, fieldCount: int, valueBytes: int): seq<Field> {
    PseudoHeaders(authority) + Generated(AtLeastZero(fieldCount), Filler(valueBytes))
  }

  lemma {:induction false} LinesAppend(fields: seq<Field>, f: Field)
    ensures Lines(fields + [f]) == Lines(fields) + Line(f)
    decreases |fields|
  {
    if fields == [] {
      assert Lines([f]) == Line(f) + Lines([]);
    } else {
      LinesAppend(fields[1..], f);
      assert (fields + [f])[1..] == fields[1..] + [f];
      Reassociate(Line(fields[0]), Lines(fields[1..]), Line(f));
    }
  }

  lemma SectionStep(fields: seq<Field>, more: seq<Field>, i: nat)
    requires i < |more|
    ensures Section(fields + more[..i + 1]) == Section(fields + more[..i]) + Line(more[i])
  {
    var before := fields + more[..i];
    assert fields + more[..i + 1] == before + [more[i]];
    SectionAppend(before, more[i]);
  }

  lemma SectionAppend(fields: seq<Field>, f: Field)
    ensures Section(fields + [f]) == Section(fields) + Line(f)
  {
    LinesAppend(fields, f);
    Reassociate([0, 0], Lines(fields), Line(f));
  }

  method AppendLines(block: seq<byte>, ghost before: seq<Field>, fields: seq<Field>) returns (encoded: seq<byte>)
    requires block == Section(before)
    ensures encoded == Section(before + fields)
  {
    encoded := block;
    assert before + fields[..0] == before;
    for i := 0 to |fields|
      invariant encoded == Section(before + fields[..i])
    {
      var line := QpackLiteralHeader(fields[i].name, fields[i].value);
      SectionStep(before, fields, i);
      encoded := encoded + line;
    }
    assert fields[..|fields|] == fields;
  }

  method OversizedHeaderBlock(authority: seq<byte>, fieldCount: int, valueBytes: int)
    returns (encoded: seq<byte>)
    ensures encoded == Section(OversizedFields(authority, fieldCount, valueBytes))
  {
    encoded := AppendLines([0, 0], [], PseudoHeaders(authority));
    assert [] + PseudoHeaders(authority) == PseudoHeaders(authority);
    var value := Filler(valueBytes);
    ghost var generated := Generated(AtLeastZero(fieldCount), value);
    assert PseudoHeaders(authority) + generated[..0] == PseudoHeaders(authority);
    for index := 0 to AtLeastZero(fieldCount)
      invariant encoded == Section(PseudoHeaders(authority) + generated[..index])
    {
      var line := QpackLiteralHeader(GeneratedName(index), value);
      SectionStep(PseudoHeaders(authority), generated, index);
      encoded := encoded + line;
    }
    assert generated[..AtLeastZero(fieldCount)] == generated;
  }

  // ----- Decoder -----

  datatype Taken = Taken(bytes: seq<byte>, rest: seq<byte>)

  datatype DecodedLine = DecodedLine(field: Field, rest: seq<byte>)

  /** A string literal whose length has an N-bit prefix; `flags` are the bits above that prefix. */
  function DecodeString(bs: seq<byte>, prefixBits: nat, flags: set<nat>): (r: Option<Taken>)
    requires 1 <= prefixBits <= 8
    ensures r.Some? ==> |r.value.rest| < |bs|
  {
    var size := PrefixedInt.Decode(bs, prefixBits);
    if size.None? || size.value.flags !in flags || |size.value.rest| < size.value.value then None
    else Some(Taken(size.value.rest[..size.value.value], size.value.rest[size.value.value..]))
  }

  /** Pattern 001, any never-index bit (0x10), no Huffman coding of the name or the value. */
  function DecodeLine(bs: seq<byte>): (r: Option<DecodedLine>)
    ensures r.Some? ==> |r.value.rest| < |bs|
  {
    var name := DecodeString(bs, 3, {0x20, 0x30});
    if name.None? then None
    else
      var value := DecodeString(name.value.rest, 7, {0});
      if value.None? then None
      else Some(DecodedLine(Field(name.value.bytes, value.value.bytes), value.value.rest))
  }

  function DecodeLines(bs: seq<byte>): Option<seq<Field>>
    decreases |bs|
  {
    if bs == [] then Some([])
    else
      var first := DecodeLine(bs);
      if first.None? then None
      else
        var others := DecodeLines(first.value.rest);
        if others.None? then None else Some([first.value.field] + others.value)
  }

  /** Only a Required Insert Count of zero is readable without a dynamic table. */
  function DecodeSection(bs: seq<byte>): Option<seq<Field>> {
    var insertCount := PrefixedInt.Decode(bs, 8);
    if insertCount.None? || insertCount.value.value != 0 then None
    else
      var base := PrefixedInt.Decode(insertCount.value.rest, 7);
      if base.None? then None else DecodeLines(base.value.rest)
  }

  datatype DecodedFrame = DecodedFrame(kind: nat, payload: seq<byte>, rest: seq<byte>)

  function DecodeFrame(bs: seq<byte>): Option<DecodedFrame> {
    var kind := Varint.DecodeVarint(bs);
    if kind.None? then None
    else
      var size := Varint.DecodeVarint(kind.value.rest);
      if size.None? || |size.value.rest| < size.value.value then None
      else Some(DecodedFrame(kind.value.value, size.value.rest[..size.value.value],
                             size.value.rest[size.value.value..]))
  }

  datatype Received = Received(fields: seq<Field>, rest: seq<byte>)

  const HEADERS: nat := 1

  function ReceiveHeaders(bs: seq<byte>): Option<Received> {
    var frame := DecodeFrame(bs);
    if frame.None? || frame.value.kind != 0x01 then None
    else
      var fields := DecodeSection(frame.value.payload);
      if fields.None? then None else Some(Received(fields.value, frame.value.rest))
  }

  /** The payload `raw_headers` sends; `None` when `encode_varint` raises. */
  function HeadersFrame(section: seq<byte>): Option<seq<byte>> {
    var kind := Varint.EncodeVarint(HEADERS);
    var size := Varint.EncodeVarint(|section|);
    if kind.None? || size.None? then None else Some(kind.value + size.value + section)
  }

  // ----- Round trips -----

  lemma StringRoundTrip(text: seq<byte>, prefixBits: nat, base: byte, flags: set<nat>, rest: seq<byte>)
    requires 1 <= prefixBits <= 8 && base % Pow(2, prefixBits) == 0 && base in flags
    ensures DecodeString(PrefixedInt.Encode(|text|, prefixBits, base) + text + rest, prefixBits, flags)
         == Some(Taken(text, rest))
  {
    var bs := PrefixedInt.Encode(|text|, prefixBits, base) + text + rest;
    PrefixedInt.RoundTrip(|text|, prefixBits, base, text + rest);
    assert bs == PrefixedInt.Encode(|text|, prefixBits, base) + (text + rest);
    assert (text + rest)[..|text|] == text && (text + rest)[|text|..] == rest;
  }

  lemma LineRoundTrip(f: Field, rest: seq<byte>)
    ensures DecodeLine(Line(f) + rest) == Some(DecodedLine(f, rest))
  {
    assert Pow(2, 3) == 8 && Pow(2, 7) == 128;
    var tail := PrefixedInt.Encode(|f.value|, 7, 0) + f.value + rest;
    StringRoundTrip(f.name, 3, 0x20, {0x20, 0x30}, tail);
    StringRoundTrip(f.value, 7, 0, {0}, rest);
    assert Line(f) + rest == PrefixedInt.Encode(|f.name|, 3, 0x20) + f.name + tail;
  }

  lemma {:induction false} LinesRoundTrip(fields: seq<Field>)
    ensures DecodeLines(Lines(fields)) == Some(fields)
    decreases |fields|
  {
    if fields != [] {
      LinesRoundTrip(fields[1..]);
      FirstLineRoundTrip(fields[0], Lines(fields[1..]), fields[1..]);
      assert fields == [fields[0]] + fields[1..];
    }
  }

  lemma FirstLineRoundTrip(f: Field, rest: seq<byte>, others: seq<Field>)
    requires DecodeLines(rest) == Some(others)
    ensures DecodeLines(Line(f) + rest) == Some([f] + others)
  {
    LineRoundTrip(f, rest);
    assert Line(f) + rest != [];
  }

  lemma PrefixBytes(insertCount: byte, base: byte, rest: seq<byte>)
    requires insertCount == 0 && base == 0
    ensures PrefixedInt.Decode([insertCount, base] + rest, 8) == Some(PrefixedInt.Decoded(0, 0, [base] + rest))
    ensures PrefixedInt.Decode([base] + rest, 7) == Some(PrefixedInt.Decoded(0, 0, rest))
  {
    assert Pow(2, 7) == 128 && Pow(2, 8) == 256;
    assert ([insertCount, base] + rest)[1..] == [base] + rest;
    assert ([base] + rest)[1..] == rest;
  }

  /** A section decodes to the fields it was built from, in order, names and values untouched. */
  lemma SectionRoundTrip(fields: seq<Field>)
    ensures DecodeSection(Section(fields)) == Some(fields)
  {
    PrefixBytes(0, 0, Lines(fields));
    LinesRoundTrip(fields);
  }

  /** Two field lists never share an encoding. */
  lemma SectionInjective(a: seq<Field>, b: seq<Field>)
    requires Section(a) == Section(b)
    ensures a == b
  {
    SectionRoundTrip(a);
    SectionRoundTrip(b);
  }

  lemma KindReads(more: seq<byte>)
    ensures Varint.EncodeVarint(HEADERS).Some?
    ensures Varint.DecodeVarint(Varint.EncodeVarint(HEADERS).value + more) == Some(Varint.Decoded(HEADERS, more))
  {
    Varint.RoundTrip(HEADERS, more);
  }

  lemma FrameParts(section: seq<byte>, rest: seq<byte>, size: nat, kind: seq<byte>, count: seq<byte>)
    requires size <= |section|
    requires Varint.DecodeVarint(kind + (count + (section + rest)))
          == Some(Varint.Decoded(HEADERS, count + (section + rest)))
    requires Varint.DecodeVarint(count + (section + rest)) == Some(Varint.Decoded(size, section + rest))
    ensures DecodeFrame(kind + count + section + rest)
         == Some(DecodedFrame(HEADERS, section[..size], section[size..] + rest))
  {
    var tail := section + rest;
    Reassociate3(kind, count, section, rest);
    FrameOf(kind + (count + tail), count + tail, tail, size);
    assert tail[..size] == section[..size] && tail[size..] == section[size..] + rest;
  }

  lemma Reassociate3(a: seq<byte>, b: seq<byte>, c: seq<byte>, d: seq<byte>)
    ensures a + b + c + d == a + (b + (c + d))
  {
  }

  lemma FrameOf(bs: seq<byte>, afterKind: seq<byte>, afterSize: seq<byte>, size: nat)
    requires Varint.DecodeVarint(bs) == Some(Varint.Decoded(HEADERS, afterKind))
    requires Varint.DecodeVarint(afterKind) == Some(Varint.Decoded(size, afterSize)) && size <= |afterSize|
    ensures DecodeFrame(bs) == Some(DecodedFrame(HEADERS, afterSize[..size], afterSize[size..]))
  {
  }

  lemma FrameReads(section: seq<byte>, rest: seq<byte>, size: nat)
    requires Varint.EncodeVarint(|section|).Some? && size <= |section|
    requires Varint.DecodeVarint(Varint.EncodeVarint(|section|).value + (section + rest))
          == Some(Varint.Decoded(size, section + rest))
    ensures HeadersFrame(section).Some?
    ensures DecodeFrame(HeadersFrame(section).value + rest)
         == Some(DecodedFrame(HEADERS, section[..size], section[size..] + rest))
  {
    KindReads(Varint.EncodeVarint(|section|).value + (section + rest));
    FrameParts(section, rest, size, Varint.EncodeVarint(HEADERS).value, Varint.EncodeVarint(|section|).value);
  }

  /** The frame of a section shorter than 2^62 is read as exactly that section. */
  lemma FrameRoundTrip(section: seq<byte>, rest: seq<byte>)
    requires |section| < Varint.LIMIT_8
    ensures HeadersFrame(section).Some?
    ensures DecodeFrame(HeadersFrame(section).value + rest) == Some(DecodedFrame(0x01, section, rest))
  {
    Varint.RoundTrip(|section|, section + rest);
    FrameReads(section, rest, |section|);
    assert section[..|section|] == section && section[|section|..] + rest == rest;
  }

  /** ... and only then: a longer one is refused by the encoder or read with the wrong length. */
  lemma FrameRoundTripExactly(section: seq<byte>, rest: seq<byte>)
    ensures (HeadersFrame(section).Some? &&
             DecodeFrame(HeadersFrame(section).value + rest) == Some(DecodedFrame(0x01, section, rest)))
            <==> |section| < Varint.LIMIT_8
  {
    if |section| < Varint.LIMIT_8 {
      FrameRoundTrip(section, rest);
    } else if |section| < Varint.LIMIT_64 {
      Varint.OversizedValue(|section|);
      var size := |section| % Varint.LIMIT_8;
      FrameReads(section, rest, size);
      assert |section[..size]| < |section|;
    } else {
      Varint.RaisesExactly(|section|);
    }
  }

  /** The fields of the block, one by one. */
  predicate IsOversizedList(fields: seq<Field>, authority: seq<byte>, fieldCount: int, valueBytes: int) {
    && |fields| == 4 + (if fieldCount > 0 then fieldCount else 0)
    && fields[0] == Field(Ascii(":method"), Ascii("GET"))
    && fields[1] == Field(Ascii(":scheme"), Ascii("https"))
    && fields[2] == Field(Ascii(":authority"), authority)
    && fields[3] == Field(Ascii(":path"), Ascii("/"))
    && forall i :: 4 <= i < |fields| ==>
         fields[i].name == Ascii("x" + Decimal.Digits(i - 4))
         && |fields[i].value| == (if valueBytes > 0 then valueBytes else 0)
         && forall k :: 0 <= k < |fields[i].value| ==> fields[i].value[k] == 'a' as int
  }

  lemma OversizedList(authority: seq<byte>, fieldCount: int, valueBytes: int)
    ensures IsOversizedList(OversizedFields(authority, fieldCount, valueBytes), authority, fieldCount, valueBytes)
  {
  }

  /**
   Whole frame: for every authority, field count and value size whose block stays below 2^62
   bytes, and whatever follows on the stream, the peer reads the four pseudo-headers and then
   x0, x1, ... with their values, and nothing of what follows.
   */
  lemma WholeFrameRoundTrip(authority: seq<byte>, fieldCount: int, valueBytes: int, rest: seq<byte>)
    requires |Section(OversizedFields(authority, fieldCount, valueBytes))| < Varint.LIMIT_8
    ensures var frame := HeadersFrame(Section(OversizedFields(authority, fieldCount, valueBytes)));
      frame.Some? && ReceiveHeaders(frame.value + rest).Some?
      && var received := ReceiveHeaders(frame.value + rest).value;
         IsOversizedList(received.fields, authority, fieldCount, valueBytes) && received.rest == rest
  {
    var fields := OversizedFields(authority, fieldCount, valueBytes);
    FrameRoundTrip(Section(fields), rest);
    SectionRoundTrip(fields);
    OversizedList(authority, fieldCount, valueBytes);
  }
}
