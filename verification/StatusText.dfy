/** Python's `int(b"...")`, which reads the `:status` value. */
module StatusText {
  import opened Bits
  import opened Options
  import opened Qpack
  import Decimal

  predicate IsSpace(b: byte) { b == 32 || 9 <= b <= 13 }

  predicate IsDigitByte(b: byte) { 48 <= b <= 57 }

  function DropLeading(bs: seq<byte>): seq<byte> {
    if bs != [] && IsSpace(bs[0]) then DropLeading(bs[1..]) else bs
  }

  function DropTrailing(bs: seq<byte>): seq<byte> {
    if bs != [] && IsSpace(bs[|bs| - 1]) then DropTrailing(bs[..|bs| - 1]) else bs
  }

  /** Digits, with single underscores allowed between two digits. */
  function Digits(bs: seq<byte>, value: nat, afterDigit: bool): Option<nat>
    decreases |bs|
  {
    if bs == [] then (if afterDigit then Some(value) else None)
    else if IsDigitByte(bs[0]) then Digits(bs[1..], value * 10 + (bs[0] - 48), true)
    else if bs[0] == '_' as int && afterDigit then Digits(bs[1..], value, false)
    else None
  }

  function Magnitude(bs: seq<byte>, sign: int): Option<int> {
    var m := Digits(bs, 0, false);
    if m.None? then None else Some(sign * m.value)
  }

  /** `None` stands for the ValueError. */
  function ParseInt(bs: seq<byte>): Option<int> {
    var text := DropTrailing(DropLeading(bs));
    if text != [] && text[0] == '-' as int then Magnitude(text[1..], -1)
    else if text != [] && text[0] == '+' as int then Magnitude(text[1..], 1)
    else Magnitude(text, 1)
  }

  lemma {:induction false} DigitsAppend(a: seq<byte>, b: byte, value: nat, afterDigit: bool)
    requires Digits(a, value, afterDigit).Some? && IsDigitByte(b)
    ensures Digits(a + [b], value, afterDigit) == Some(Digits(a, value, afterDigit).value * 10 + (b - 48))
    decreases |a|
  {
    if a == [] {
      assert Digits([b], value, afterDigit) == Digits([], value * 10 + (b - 48), true);
      assert a + [b] == [b];
    } else {
      assert (a + [b])[1..] == a[1..] + [b];
      if IsDigitByte(a[0]) {
        DigitsAppend(a[1..], b, value * 10 + (a[0] - 48), true);
      } else {
        DigitsAppend(a[1..], b, value, false);
      }
    }
  }

  lemma {:induction false} PrintedDigits(n: nat)
    ensures Digits(Ascii(Decimal.Digits(n)), 0, false) == Some(n)
  {
    var s := Decimal.Digits(n);
    if n < 10 {
      assert Ascii(s) == [48 + n];
      assert Digits([48 + n], 0, false) == Digits([], n, true);
    } else {
      PrintedDigits(n / 10);
      DigitsAppend(Ascii(Decimal.Digits(n / 10)), 48 + n % 10, 0, false);
      assert Ascii(s) == Ascii(Decimal.Digits(n / 10)) + [48 + n % 10];
    }
  }

  /** Reading back a printed integer. */
  lemma ParsePrinted(n: int)
    ensures Qpack.IsAscii(Decimal.Text(n)) && ParseInt(Ascii(Decimal.Text(n))) == Some(n)
  {
    if n < 0 {
      PrintedDigits(-n);
      ParseNegative(Ascii(Decimal.Digits(-n)), -n);
      assert Ascii(Decimal.Text(n)) == ['-' as int] + Ascii(Decimal.Digits(-n));
    } else {
      PrintedDigits(n);
      NoSpaces(Ascii(Decimal.Digits(n)));
    }
  }

  predicate IsBlank(b: byte) { b == 9 || b == 10 || b == 11 || b == 12 || b == 13 || b == 32 }

  lemma {:induction false} BlanksInFront(a: seq<byte>, rest: seq<byte>)
    requires (forall i :: 0 <= i < |a| ==> IsBlank(a[i])) && rest != [] && !IsSpace(rest[0])
    ensures DropLeading(a + rest) == rest
    decreases |a|
  {
    if a == [] {
      assert a + rest == rest;
    } else {
      assert (a + rest)[1..] == a[1..] + rest;
      BlanksInFront(a[1..], rest);
    }
  }

  lemma {:induction false} BlanksBehind(rest: seq<byte>, b: seq<byte>)
    requires (forall i :: 0 <= i < |b| ==> IsBlank(b[i])) && rest != [] && !IsSpace(rest[|rest| - 1])
    ensures DropTrailing(rest + b) == rest
    decreases |b|
  {
    if b == [] {
      assert rest + b == rest;
    } else {
      var s := rest + b;
      assert s[..|s| - 1] == rest + b[..|b| - 1];
      BlanksBehind(rest, b[..|b| - 1]);
    }
  }

  lemma Trimmed(a: seq<byte>, text: seq<byte>, b: seq<byte>)
    requires (forall i :: 0 <= i < |a| ==> IsBlank(a[i])) && (forall i :: 0 <= i < |b| ==> IsBlank(b[i]))
    requires text != [] && !IsSpace(text[0]) && !IsSpace(text[|text| - 1])
    ensures DropTrailing(DropLeading(a + (text + b))) == text
  {
    BlanksInFront(a, text + b);
    BlanksBehind(text, b);
  }

  /** Blanks around a printed integer do not matter. */
  lemma ParsePadded(a: seq<byte>, b: seq<byte>, n: int)
    requires (forall i :: 0 <= i < |a| ==> IsBlank(a[i])) && (forall i :: 0 <= i < |b| ==> IsBlank(b[i]))
    ensures Qpack.IsAscii(Decimal.Text(n)) && ParseInt(a + (Ascii(Decimal.Text(n)) + b)) == Some(n)
  {
    ParsePrinted(n);
    var text := Ascii(Decimal.Text(n));
    NoBlankEnds(n);
    Trimmed(a, text, b);
    NoSpaces(text);
  }

  lemma NoBlankEnds(n: int)
    ensures Qpack.IsAscii(Decimal.Text(n))
    ensures var text := Ascii(Decimal.Text(n)); text != [] && !IsSpace(text[0]) && !IsSpace(text[|text| - 1])
  {
    var s := Decimal.Text(n);
    assert s[|s| - 1] == Decimal.Digits(if n < 0 then -n else n)[|Decimal.Digits(if n < 0 then -n else n)| - 1];
    assert s[0] == '-' || Decimal.IsDigit(s[0]);
  }

  lemma ParseNegative(digits: seq<byte>, m: nat)
    requires digits != [] && forall i :: 0 <= i < |digits| ==> IsDigitByte(digits[i])
    requires Digits(digits, 0, false) == Some(m)
    ensures ParseInt(['-' as int] + digits) == Some(-1 * m)
  {
    var bs: seq<byte> := ['-' as int] + digits;
    NoSpaces(bs);
    assert bs[1..] == digits;
  }

  lemma NoSpaces(bs: seq<byte>)
    requires bs != [] && !IsSpace(bs[0]) && !IsSpace(bs[|bs| - 1])
    ensures DropTrailing(DropLeading(bs)) == bs
  {
  }
}
