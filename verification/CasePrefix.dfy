/** The prefixes of case ranges: which strings are accepted. */
module CasePrefix {
  import Decimal

  /** `[1-9][0-9]*(\.[1-9][0-9]*)*` */
  predicate IsPrefix(s: string) { s != [] && '1' <= s[0] <= '9' && IsPrefixRest(s[1..]) }

  predicate IsPrefixRest(s: string) {
    s == [] || ('0' <= s[0] <= '9' && IsPrefixRest(s[1..])) || (s[0] == '.' && IsPrefix(s[1..]))
  }

  /** Numbers with dots between them. */
  function Dotted(numbers: seq<nat>): string
    requires numbers != []
  {
    if |numbers| == 1 then Decimal.Digits(numbers[0]) else Decimal.Digits(numbers[0]) + "." + Dotted(numbers[1..])
  }

  predicate AllPositive(numbers: seq<nat>) { forall i :: 0 <= i < |numbers| ==> numbers[i] > 0 }

  lemma {:induction false} DigitsThenRest(digits: string, rest: string)
    requires Decimal.AllDigits(digits) && (rest == [] || (rest[0] == '.' && IsPrefix(rest[1..])))
    ensures IsPrefixRest(digits + rest)
    decreases |digits|
  {
    if digits == [] {
      assert digits + rest == rest;
    } else {
      assert Decimal.IsDigit(digits[0]);
      assert (digits + rest)[1..] == digits[1..] + rest;
      DigitsThenRest(digits[1..], rest);
    }
  }

  lemma {:induction false} DottedIsPrefix(numbers: seq<nat>)
    requires numbers != [] && AllPositive(numbers)
    ensures IsPrefix(Dotted(numbers))
    decreases |numbers|
  {
    if |numbers| == 1 {
      NumberThenRest(numbers[0], "");
      assert Decimal.Digits(numbers[0]) + "" == Dotted(numbers);
    } else {
      var rest := "." + Dotted(numbers[1..]);
      assert rest[1..] == Dotted(numbers[1..]);
      DottedIsPrefix(numbers[1..]);
      NumberThenRest(numbers[0], rest);
      assert Decimal.Digits(numbers[0]) + rest == Dotted(numbers);
    }
  }

  lemma NumberThenRest(n: nat, rest: string)
    requires n > 0 && (rest == [] || (rest[0] == '.' && IsPrefix(rest[1..])))
    ensures IsPrefix(Decimal.Digits(n) + rest)
  {
    var digits := Decimal.Digits(n);
    assert Decimal.IsDigit(digits[0]) && digits[0] != '0';
    DigitsThenRest(digits[1..], rest);
    assert (digits + rest)[1..] == digits[1..] + rest;
  }

  lemma {:induction false} PrefixRestParts(s: string) returns (digits: string, rest: string)
    requires IsPrefixRest(s)
    ensures s == digits + rest && Decimal.AllDigits(digits)
    ensures rest == [] || (rest[0] == '.' && IsPrefix(rest[1..]))
    decreases |s|
  {
    if s == [] || s[0] == '.' {
      digits, rest := [], s;
    } else {
      digits, rest := PrefixRestParts(s[1..]);
      digits := [s[0]] + digits;
    }
  }

  lemma LastNumber(n: nat, rest: string)
    requires n > 0 && rest == []
    ensures AllPositive([n]) && Dotted([n]) == Decimal.Digits(n) + rest
  {
    assert Decimal.Digits(n) + rest == Decimal.Digits(n);
  }

  lemma MoreNumbers(n: nat, more: seq<nat>, rest: string)
    requires n > 0 && more != [] && AllPositive(more)
    requires rest != [] && rest[0] == '.' && rest[1..] == Dotted(more)
    ensures AllPositive([n] + more) && Dotted([n] + more) == Decimal.Digits(n) + rest
  {
    assert ([n] + more)[1..] == more;
    assert rest == "." + Dotted(more);
    assert Decimal.Digits(n) + "." + Dotted(more) == Decimal.Digits(n) + ("." + Dotted(more));
  }

  lemma {:induction false} PrefixNumbers(s: string) returns (numbers: seq<nat>)
    requires IsPrefix(s)
    ensures numbers != [] && AllPositive(numbers) && s == Dotted(numbers)
    decreases |s|
  {
    var number, rest := FirstNumber(s);
    if rest == [] {
      numbers := [number];
      LastNumber(number, rest);
    } else {
      var more := PrefixNumbers(rest[1..]);
      numbers := [number] + more;
      MoreNumbers(number, more, rest);
    }
  }

  lemma FirstNumber(s: string) returns (number: nat, rest: string)
    requires IsPrefix(s)
    ensures number > 0 && s == Decimal.Digits(number) + rest && |rest| < |s|
    ensures rest == [] || (rest[0] == '.' && IsPrefix(rest[1..]))
  {
    var digits;
    digits, rest := PrefixRestParts(s[1..]);
    var first := [s[0]] + digits;
    Decimal.DigitsOfValue(first);
    number := Decimal.Value(first);
    assert s == [s[0]] + s[1..];
    assert s == first + rest;
  }

  /** The accepted prefixes are exactly the dotted lists of positive numbers. */
  lemma PrefixPattern(s: string)
    ensures IsPrefix(s) <==> exists numbers :: numbers != [] && AllPositive(numbers) && s == Dotted(numbers)
  {
    if IsPrefix(s) {
      var numbers := PrefixNumbers(s);
    }
    if numbers :| numbers != [] && AllPositive(numbers) && s == Dotted(numbers) {
      DottedIsPrefix(numbers);
    }
  }
}
