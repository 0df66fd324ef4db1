/** The Autobahn baseline: reading it, expanding its case ranges, and counting its outcomes. */
module CaseRanges {
  import opened Options
  import opened Json
  import opened CasePrefix
  import Decimal

  datatype Outcome = Outcome(behavior: string, behaviorClose: string)

  datatype Totals = Totals(total: nat, ok: nat, informational: nat)

  datatype Range = Range(prefix: string, first: nat, last: nat)

  datatype Baseline = Baseline(cases: map<string, Outcome>, totals: Totals)

  datatype LoadError =
    | BadDocument
    | BadTotals
    | BadOutcome
    | BadRange
    | RepeatedCase(id: string)
    | BadOverride
    | WrongSize
    | WrongCounts

  datatype Result<T> = Ok(value: T) | Err(error: LoadError)

  // ----- Readers -----

  predicate IsClassification(s: string) { s == "OK" || s == "INFORMATIONAL" }

  function ReadClassification(v: Value): Option<string> {
    if v.Text? && IsClassification(v.s) then Some(v.s) else None
  }

  function ReadOutcome(v: Value): Option<Outcome> {
    var behavior := ReadClassification(Property(v, "behavior"));
    var close := ReadClassification(Property(v, "behaviorClose"));
    if !v.Record? || behavior.None? || close.None? then None
    else Some(Outcome(behavior.value, close.value))
  }

  function ReadTotals(v: Value): Option<Totals> {
    var total := PositiveInteger(Property(v, "total"));
    var ok := NonnegativeInteger(Property(v, "ok"));
    var informational := NonnegativeInteger(Property(v, "informational"));
    if !v.Record? || total.None? || ok.None? || informational.None? then None
    else if ok.value + informational.value != total.value then None
    else Some(Totals(total.value, ok.value, informational.value))
  }

  function ReadRange(v: Value): Option<Range> {
    var prefix := Property(v, "prefix");
    var first := PositiveInteger(Property(v, "first"));
    var last := PositiveInteger(Property(v, "last"));
    if !v.Record? || !prefix.Text? || !IsPrefix(prefix.s) || first.None? || last.None? then None
    else if last.value < first.value then None
    else Some(Range(prefix.s, first.value, last.value))
  }

  // ----- Expanding the ranges -----

  function CaseId(prefix: string, number: nat): string { prefix + "." + Decimal.Digits(number) }

  function AddNumbers(cases: map<string, Outcome>, prefix: string, number: nat, last: nat, o: Outcome)
    : Result<map<string, Outcome>>
    decreases last + 1 - number
  {
    if number > last then Ok(cases)
    else if CaseId(prefix, number) in cases then Err(RepeatedCase(CaseId(prefix, number)))
    else AddNumbers(cases[CaseId(prefix, number) := o], prefix, number + 1, last, o)
  }

  /** One entry of `case_ranges`. */
  function AddEntry(cases: map<string, Outcome>, v: Value, o: Outcome): Result<map<string, Outcome>> {
    var range := ReadRange(v);
    if range.None? then Err(BadRange)
    else AddNumbers(cases, range.value.prefix, range.value.first, range.value.last, o)
  }

  /** The first `n` entries of `case_ranges`. */
  function Expand(values: seq<Value>, n: nat, o: Outcome): Result<map<string, Outcome>>
    requires n <= |values|
  {
    if n == 0 then Ok(map[])
    else
      var before := Expand(values, n - 1, o);
      if before.Err? then before else AddEntry(before.value, values[n - 1], o)
  }

  method ExpandRanges(values: seq<Value>, o: Outcome) returns (r: Result<map<string, Outcome>>)
    ensures r == Expand(values, |values|, o)
  {
    var cases: map<string, Outcome> := map[];
    for n := 0 to |values|
      invariant Expand(values, n, o) == Ok(cases)
    {
      var next := AddRange(cases, values[n], o);
      if next.Err? {
        FailureStays(values, n + 1, |values|, o);
        return next;
      }
      cases := next.value;
    }
    r := Ok(cases);
  }

  method AddRange(start: map<string, Outcome>, v: Value, o: Outcome) returns (r: Result<map<string, Outcome>>)
    ensures r == AddEntry(start, v, o)
  {
    var range := ReadRange(v);
    if range.None? {
      return Err(BadRange);
    }
    var prefix, last := range.value.prefix, range.value.last;
    var cases, number: nat := start, range.value.first;
    while number <= last
      invariant AddNumbers(cases, prefix, number, last, o) == AddEntry(start, v, o)
      decreases last + 1 - number
    {
      var id := CaseId(prefix, number);
      if id in cases {
        return Err(RepeatedCase(id));
      }
      cases := cases[id := o];
      number := number + 1;
    }
    r := Ok(cases);
  }

  lemma {:induction false} FailureStays(values: seq<Value>, m: nat, n: nat, o: Outcome)
    requires m <= n <= |values| && Expand(values, m, o).Err?
    ensures Expand(values, n, o) == Expand(values, m, o)
    decreases n - m
  {
    if m < n { FailureStays(values, m, n - 1, o); }
  }

  /** The printed identifier determines prefix and number. */
  lemma CaseIdInjective(p: string, m: nat, q: string, n: nat)
    requires CaseId(p, m) == CaseId(q, n)
    ensures p == q && m == n
  {
    var a, b := Decimal.Digits(m), Decimal.Digits(n);
    assert '.' !in a && '.' !in b by {
      assert forall i :: 0 <= i < |a| ==> Decimal.IsDigit(a[i]);
      assert forall i :: 0 <= i < |b| ==> Decimal.IsDigit(b[i]);
    }
    Decimal.LastCutIsUnique(p, q, a, b, '.');
    Decimal.ValueOfDigits(m);
    Decimal.ValueOfDigits(n);
  }

  ghost predicate InRange(id: string, r: Range) {
    exists k: nat :: r.first <= k <= r.last && id == CaseId(r.prefix, k)
  }

  ghost predicate Overlap(r: Range, s: Range) {
    r.prefix == s.prefix && r.first <= s.last && s.first <= r.last
  }

  /** Two ranges share a case exactly when they have one prefix and overlapping numbers. */
  lemma SharedCase(r: Range, s: Range)
    requires r.first <= r.last && s.first <= s.last
    ensures Overlap(r, s) <==> exists id :: InRange(id, r) && InRange(id, s)
  {
    if Overlap(r, s) {
      var k := if r.first < s.first then s.first else r.first;
      assert InRange(CaseId(r.prefix, k), r) && InRange(CaseId(r.prefix, k), s);
    }
    if id :| InRange(id, r) && InRange(id, s) {
      var k: nat :| r.first <= k <= r.last && id == CaseId(r.prefix, k);
      var j: nat :| s.first <= j <= s.last && id == CaseId(s.prefix, j);
      CaseIdInjective(r.prefix, k, s.prefix, j);
    }
  }

  lemma {:induction false} NumbersAdded(cases: map<string, Outcome>, prefix: string, number: nat, last: nat, o: Outcome)
    requires number <= last + 1
    ensures var r := AddNumbers(cases, prefix, number, last, o); var range := Range(prefix, number, last);
      (r.Err? <==> exists id :: id in cases && InRange(id, range))
      && (r.Err? ==> r.error.RepeatedCase?)
      && (r.Ok? ==> |r.value| == |cases| + (last + 1 - number))
      && (r.Ok? ==> forall id :: id in r.value <==> id in cases || InRange(id, range))
      && (r.Ok? ==> forall id :: id in r.value ==> r.value[id] == if id in cases then cases[id] else o)
    decreases last + 1 - number
  {
    var range := Range(prefix, number, last);
    if number <= last {
      var id := CaseId(prefix, number);
      var rest := Range(prefix, number + 1, last);
      assert InRange(id, range);
      assert forall x :: InRange(x, range) <==> x == id || InRange(x, rest) by { FirstOfRange(prefix, number, last); }
      assert !InRange(id, rest) by { FirstIsNew(prefix, number, last); }
      if id !in cases {
        NumbersAdded(cases[id := o], prefix, number + 1, last, o);
      }
    }
  }

  lemma FirstOfRange(prefix: string, number: nat, last: nat)
    requires number <= last
    ensures forall x :: InRange(x, Range(prefix, number, last))
              <==> x == CaseId(prefix, number) || InRange(x, Range(prefix, number + 1, last))
  {
    forall x
      ensures InRange(x, Range(prefix, number, last))
         <==> x == CaseId(prefix, number) || InRange(x, Range(prefix, number + 1, last))
    {
      if InRange(x, Range(prefix, number, last)) {
        var k: nat :| number <= k <= last && x == CaseId(prefix, k);
        if k != number { assert InRange(x, Range(prefix, number + 1, last)); }
      }
    }
  }

  lemma FirstIsNew(prefix: string, number: nat, last: nat)
    ensures !InRange(CaseId(prefix, number), Range(prefix, number + 1, last))
  {
    if InRange(CaseId(prefix, number), Range(prefix, number + 1, last)) {
      var k: nat :| number + 1 <= k <= last && CaseId(prefix, number) == CaseId(prefix, k);
      CaseIdInjective(prefix, number, prefix, k);
    }
  }

  /** The first `n` ranges are well formed, and these are they. */
  ghost predicate AreRanges(values: seq<Value>, n: nat, ranges: seq<Range>) {
    |ranges| == n <= |values| && forall i :: 0 <= i < n ==> ReadRange(values[i]) == Some(ranges[i])
  }

  ghost predicate Disjoint(ranges: seq<Range>) {
    forall i, j :: 0 <= i < j < |ranges| ==> !Overlap(ranges[i], ranges[j])
  }

  function Width(ranges: seq<Range>): int {
    if ranges == [] then 0
    else
      var last := ranges[|ranges| - 1];
      Width(ranges[..|ranges| - 1]) + last.last + 1 - last.first
  }

  ghost predicate InSome(id: string, ranges: seq<Range>) {
    exists i :: 0 <= i < |ranges| && InRange(id, ranges[i])
  }

  ghost predicate OverlapsSome(r: Range, ranges: seq<Range>) {
    exists i :: 0 <= i < |ranges| && Overlap(ranges[i], r)
  }

  lemma FrontAndLast(ranges: seq<Range>, id: string)
    requires ranges != []
    ensures var front, last := ranges[..|ranges| - 1], ranges[|ranges| - 1];
      (InSome(id, ranges) <==> InSome(id, front) || InRange(id, last))
      && (Disjoint(ranges) <==> Disjoint(front) && !OverlapsSome(last, front))
  {
    var front, last := ranges[..|ranges| - 1], ranges[|ranges| - 1];
    assert forall i :: 0 <= i < |front| ==> front[i] == ranges[i];
    if InSome(id, front) {
      var i :| 0 <= i < |front| && InRange(id, front[i]);
      assert InRange(id, ranges[i]);
    }
    if Disjoint(ranges) {
      assert Disjoint(front);
    }
  }

  lemma LastRangeFits(front: seq<Range>, last: Range, cases: map<string, Outcome>)
    requires last.first <= last.last && forall i :: 0 <= i < |front| ==> front[i].first <= front[i].last
    requires forall id :: id in cases <==> InSome(id, front)
    ensures (exists id :: id in cases && InRange(id, last)) <==> OverlapsSome(last, front)
  {
    if OverlapsSome(last, front) {
      var i :| 0 <= i < |front| && Overlap(front[i], last);
      SharedCase(front[i], last);
      var id :| InRange(id, front[i]) && InRange(id, last);
      assert id in cases;
    }
    if id :| id in cases && InRange(id, last) {
      var i :| 0 <= i < |front| && InRange(id, front[i]);
      SharedCase(front[i], last);
    }
  }

  ghost predicate ExpandsTo(ranges: seq<Range>, r: Result<map<string, Outcome>>, o: Outcome) {
    && (r.Ok? <==> Disjoint(ranges))
    && (r.Err? ==> r.error.RepeatedCase?)
    && (r.Ok? ==> |r.value| == Width(ranges))
    && (r.Ok? ==> forall id :: id in r.value <==> InSome(id, ranges))
    && (r.Ok? ==> forall id :: id in r.value ==> r.value[id] == o)
  }

  /**
   Well-formed ranges are reported as a repeat exactly when two of them have one prefix and overlap;
   otherwise the expansion has exactly the cases of the ranges, as many as the sum of their widths.
   */
  lemma {:induction false} ExpansionExact(values: seq<Value>, n: nat, ranges: seq<Range>, o: Outcome)
    requires AreRanges(values, n, ranges)
    ensures ExpandsTo(ranges, Expand(values, n, o), o)
    decreases n
  {
    if n > 0 {
      var front := ranges[..n - 1];
      assert AreRanges(values, n - 1, front);
      ExpansionExact(values, n - 1, front, o);
      forall i | 0 <= i < n ensures ranges[i].first <= ranges[i].last {
        assert ReadRange(values[i]) == Some(ranges[i]);
      }
      ExpansionStep(values, n, ranges, o);
    }
  }

  /** What expands consists of well-formed ranges. */
  lemma {:induction false} ExpandedAreRanges(values: seq<Value>, n: nat, o: Outcome) returns (ranges: seq<Range>)
    requires n <= |values| && Expand(values, n, o).Ok?
    ensures AreRanges(values, n, ranges)
    decreases n
  {
    if n == 0 {
      ranges := [];
    } else {
      ranges := ExpandedAreRanges(values, n - 1, o);
      ranges := ranges + [ReadRange(values[n - 1]).value];
    }
  }

  lemma ExpandUnfolds(values: seq<Value>, n: nat, o: Outcome, last: Range)
    requires 0 < n <= |values| && ReadRange(values[n - 1]) == Some(last)
    ensures var before := Expand(values, n - 1, o);
      Expand(values, n, o)
        == if before.Err? then before else AddNumbers(before.value, last.prefix, last.first, last.last, o)
  {
  }

  lemma ExpansionStep(values: seq<Value>, n: nat, ranges: seq<Range>, o: Outcome)
    requires n > 0 && AreRanges(values, n, ranges)
    requires forall i :: 0 <= i < n ==> ranges[i].first <= ranges[i].last
    requires ExpandsTo(ranges[..n - 1], Expand(values, n - 1, o), o)
    ensures ExpandsTo(ranges, Expand(values, n, o), o)
  {
    var last := ranges[n - 1];
    var before := Expand(values, n - 1, o);
    ExpandUnfolds(values, n, o, last);
    FrontAndLast(ranges, "");
    if before.Ok? {
      NumbersAdded(before.value, last.prefix, last.first, last.last, o);
      assert Range(last.prefix, last.first, last.last) == last;
      OneMoreRange(ranges, before.value, AddNumbers(before.value, last.prefix, last.first, last.last, o), o);
    }
  }

  /** The last of the ranges, added to the cases of those before it. */
  lemma OneMoreRange(ranges: seq<Range>, cases: map<string, Outcome>, r: Result<map<string, Outcome>>, o: Outcome)
    requires ranges != [] && forall i :: 0 <= i < |ranges| ==> ranges[i].first <= ranges[i].last
    requires var front := ranges[..|ranges| - 1];
      Disjoint(front) && |cases| == Width(front)
      && (forall id :: id in cases <==> InSome(id, front)) && (forall id :: id in cases ==> cases[id] == o)
    requires var last := ranges[|ranges| - 1];
      (r.Err? <==> exists id :: id in cases && InRange(id, last))
      && (r.Ok? ==> |r.value| == |cases| + (last.last + 1 - last.first))
      && (r.Ok? ==> forall id :: id in r.value <==> id in cases || InRange(id, last))
      && (r.Ok? ==> forall id :: id in r.value ==> r.value[id] == if id in cases then cases[id] else o)
    ensures r.Ok? <==> Disjoint(ranges)
    ensures r.Ok? ==> |r.value| == Width(ranges)
    ensures r.Ok? ==> forall id :: id in r.value <==> InSome(id, ranges)
    ensures r.Ok? ==> forall id :: id in r.value ==> r.value[id] == o
  {
    var front, last := ranges[..|ranges| - 1], ranges[|ranges| - 1];
    LastRangeFits(front, last, cases);
    FrontAndLast(ranges, "");
    if r.Ok? {
      forall id ensures id in r.value <==> InSome(id, ranges) {
        FrontAndLast(ranges, id);
      }
    }
  }
}
