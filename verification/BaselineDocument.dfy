/**
 What a baseline document says, without regard to how it is read: the reference that the loader is
 compared with.
 */
module BaselineDocument {
  import opened Options
  import opened Json
  import opened CasePrefix
  import opened CaseRanges
  import opened BaselineGate
  import Decimal

  /** The object has this property. */
  predicate Says(v: Value, name: string, x: Value) { v.Record? && name in v.fields && v.fields[name] == x }

  predicate IsCount(n: nat) { n <= 9007199254740991 }

  lemma CountExactly(v: Value, n: nat)
    ensures NonnegativeInteger(v) == Some(n) <==> v == Number(n as real) && IsCount(n)
    ensures PositiveInteger(v) == Some(n) <==> v == Number(n as real) && IsCount(n) && n > 0
  {
    assert (n as real).Floor == n;
  }

  // ----- Outcomes -----

  predicate IsOutcome(v: Value, o: Outcome) {
    && Says(v, "behavior", Text(o.behavior)) && (o.behavior == "OK" || o.behavior == "INFORMATIONAL")
    && Says(v, "behaviorClose", Text(o.behaviorClose))
    && (o.behaviorClose == "OK" || o.behaviorClose == "INFORMATIONAL")
  }

  lemma OutcomeExactly(v: Value, o: Outcome)
    ensures ReadOutcome(v) == Some(o) <==> IsOutcome(v, o)
  {
  }

  // ----- Ranges -----

  ghost predicate IsRange(v: Value, r: Range) {
    && Says(v, "prefix", Text(r.prefix))
    && (exists numbers :: numbers != [] && AllPositive(numbers) && r.prefix == Dotted(numbers))
    && Says(v, "first", Number(r.first as real)) && Says(v, "last", Number(r.last as real))
    && 1 <= r.first <= r.last <= 9007199254740991
  }

  lemma RangeExactly(v: Value, r: Range)
    ensures ReadRange(v) == Some(r) <==> IsRange(v, r)
  {
    PrefixPattern(r.prefix);
    CountExactly(Property(v, "first"), r.first);
    CountExactly(Property(v, "last"), r.last);
  }

  /** A number in decimal, without a leading zero. */
  predicate IsNumeral(d: string) { d != "" && Decimal.AllDigits(d) && d[0] != '0' }

  /** The identifier is the prefix, a dot, and a number of the range in decimal. */
  ghost predicate IsCaseOf(id: string, r: Range) {
    exists d :: IsNumeral(d) && id == r.prefix + "." + d && r.first <= Decimal.Value(d) <= r.last
  }

  lemma CaseOfExactly(id: string, r: Range)
    requires r.first >= 1
    ensures InRange(id, r) <==> IsCaseOf(id, r)
  {
    if InRange(id, r) {
      var k: nat :| r.first <= k <= r.last && id == CaseId(r.prefix, k);
      Decimal.ValueOfDigits(k);
      assert IsNumeral(Decimal.Digits(k));
    }
    if d :| IsNumeral(d) && id == r.prefix + "." + d && r.first <= Decimal.Value(d) <= r.last {
      Decimal.DigitsOfValue(d);
      assert id == CaseId(r.prefix, Decimal.Value(d));
    }
  }

  ghost predicate AreRangesOf(items: seq<Value>, ranges: seq<Range>) {
    |ranges| == |items| && forall i :: 0 <= i < |items| ==> IsRange(items[i], ranges[i])
  }

  lemma RangesExactly(items: seq<Value>, ranges: seq<Range>)
    ensures AreRangesOf(items, ranges) <==> AreRanges(items, |items|, ranges)
  {
    if |ranges| == |items| {
      forall i | 0 <= i < |items| ensures IsRange(items[i], ranges[i]) <==> ReadRange(items[i]) == Some(ranges[i]) {
        RangeExactly(items[i], ranges[i]);
      }
    }
  }

  ghost predicate IsCaseOfSome(id: string, ranges: seq<Range>) {
    exists i :: 0 <= i < |ranges| && IsCaseOf(id, ranges[i])
  }

  lemma CasesExactly(id: string, ranges: seq<Range>)
    requires forall i :: 0 <= i < |ranges| ==> ranges[i].first >= 1
    ensures InSome(id, ranges) <==> IsCaseOfSome(id, ranges)
  {
    forall i | 0 <= i < |ranges| ensures InRange(id, ranges[i]) <==> IsCaseOf(id, ranges[i]) {
      CaseOfExactly(id, ranges[i]);
    }
  }

  // ----- The document -----

  predicate AreTotals(v: Value, t: Totals) {
    && Says(v, "total", Number(t.total as real)) && 1 <= t.total <= 9007199254740991
    && Says(v, "ok", Number(t.ok as real)) && Says(v, "informational", Number(t.informational as real))
    && t.ok + t.informational == t.total
  }

  lemma TotalsExactly(v: Value, t: Totals)
    ensures ReadTotals(v) == Some(t) <==> AreTotals(v, t)
  {
    CountExactly(Property(v, "total"), t.total);
    CountExactly(Property(v, "ok"), t.ok);
    CountExactly(Property(v, "informational"), t.informational);
  }

  /** The head of the document; `items` are its ranges. */
  predicate IsHead(document: Value, image: string, h: Header) {
    && Says(document, "schema_version", Number(1.0))
    && document.Record? && "suite" in document.fields && Says(document.fields["suite"], "image", Text(image))
    && "totals" in document.fields && AreTotals(document.fields["totals"], h.totals)
    && "default_outcome" in document.fields && IsOutcome(document.fields["default_outcome"], h.defaultOutcome)
    && Says(document, "outcome_overrides", Record(h.overrides))
    && Says(document, "case_ranges", List(h.ranges))
  }

  lemma HeadExactly(document: Value, image: string, h: Header)
    ensures ReadHeader(document, image) == Ok(h) <==> IsHead(document, image, h)
  {
    TotalsExactly(Property(document, "totals"), h.totals);
    OutcomeExactly(Property(document, "default_outcome"), h.defaultOutcome);
    assert !AreTotals(Undefined, h.totals) && !IsOutcome(Undefined, h.defaultOutcome);
  }

  // ----- What the loader accepts -----

  predicate CountsAre(cases: map<string, Outcome>, t: Totals) {
    && |cases| == t.total
    && |set id | id in cases && cases[id].behavior == "OK"| == t.ok
    && |set id | id in cases && cases[id].behavior == "INFORMATIONAL"| == t.informational
    && |set id | id in cases && cases[id].behaviorClose == "OK"| == t.ok
    && |set id | id in cases && cases[id].behaviorClose == "INFORMATIONAL"| == t.informational
  }

  /** The overrides name cases, and every other case has the default outcome. */
  ghost predicate OutcomesAre(cases: map<string, Outcome>, h: Header) {
    && (forall id :: id in h.overrides ==> id in cases)
    && forall id :: id in cases ==>
         if id in h.overrides then IsOutcome(h.overrides[id], cases[id]) else cases[id] == h.defaultOutcome
  }

  /** The document, with this head and these ranges, describes this baseline. */
  ghost predicate Describes(document: Value, image: string, h: Header, ranges: seq<Range>, b: Baseline) {
    && IsHead(document, image, h) && AreRangesOf(h.ranges, ranges) && Disjoint(ranges)
    && (forall id :: id in b.cases <==> IsCaseOfSome(id, ranges))
    && OutcomesAre(b.cases, h) && b.totals == h.totals && CountsAre(b.cases, b.totals)
  }

  lemma CountOfCases(cases: map<string, Outcome>, c: string)
    ensures Count(Values(cases), Behavior, c) == |set id | id in cases && cases[id].behavior == c|
    ensures Count(Values(cases), BehaviorClose, c) == |set id | id in cases && cases[id].behaviorClose == c|
  {
    var values := Values(cases);
    forall id | id in cases
      ensures ClassOf(values[id], Behavior) == Some(cases[id].behavior)
      ensures ClassOf(values[id], BehaviorClose) == Some(cases[id].behaviorClose)
    {
      ClassOfOutcome(values[id], cases[id], Behavior);
      ClassOfOutcome(values[id], cases[id], BehaviorClose);
    }
    assert IdsOf(values, Behavior, c) == set id | id in cases && cases[id].behavior == c;
    assert IdsOf(values, BehaviorClose, c) == set id | id in cases && cases[id].behaviorClose == c;
  }

  ghost predicate AreClassified(cases: map<string, Outcome>) {
    forall id :: id in cases ==>
      IsClassification(cases[id].behavior) && IsClassification(cases[id].behaviorClose)
  }

  lemma MatchesExactly(cases: map<string, Outcome>, t: Totals)
    requires AreClassified(cases)
    ensures |cases| == t.total && Matches(Values(cases), Behavior, t) && Matches(Values(cases), BehaviorClose, t)
       <==> CountsAre(cases, t)
  {
    CountOfCases(cases, "OK");
    CountOfCases(cases, "INFORMATIONAL");
    forall id | id in cases ensures ClassOf(Values(cases)[id], Behavior) == Some(cases[id].behavior)
      && ClassOf(Values(cases)[id], BehaviorClose) == Some(cases[id].behaviorClose)
    {
      ClassOfOutcome(Values(cases)[id], cases[id], Behavior);
      ClassOfOutcome(Values(cases)[id], cases[id], BehaviorClose);
    }
  }

  lemma OutcomesAreClassified(v: Value, h: Header, cases: map<string, Outcome>)
    requires IsOutcome(v, h.defaultOutcome) && OutcomesAre(cases, h)
    ensures AreClassified(cases)
  {
  }

  /** The expansion before and after the overrides. */
  lemma OverriddenExactly(expanded: map<string, Outcome>, h: Header, cases: map<string, Outcome>)
    requires expanded.Keys == cases.Keys && forall id :: id in expanded ==> expanded[id] == h.defaultOutcome
    ensures Overridable(expanded, h.overrides) && Overridden(expanded, h.overrides) == cases
       <==> OutcomesAre(cases, h)
  {
    forall id | id in cases && id in h.overrides
      ensures ReadOutcome(h.overrides[id]) == Some(cases[id]) <==> IsOutcome(h.overrides[id], cases[id])
    {
      OutcomeExactly(h.overrides[id], cases[id]);
    }
  }

  lemma AcceptCasesExactly(v: Value, expanded: map<string, Outcome>, h: Header, b: Baseline)
    requires IsOutcome(v, h.defaultOutcome) && forall id :: id in expanded ==> expanded[id] == h.defaultOutcome
    ensures AcceptCases(expanded, h) == Ok(b)
       <==> expanded.Keys == b.cases.Keys && OutcomesAre(b.cases, h) && b.totals == h.totals
            && CountsAre(b.cases, b.totals)
  {
    if expanded.Keys == b.cases.Keys {
      OverriddenExactly(expanded, h, b.cases);
      if OutcomesAre(b.cases, h) {
        OutcomesAreClassified(v, h, b.cases);
        MatchesExactly(b.cases, h.totals);
      }
    }
  }

  lemma AcceptExactly(v: Value, h: Header, ranges: seq<Range>, b: Baseline)
    requires IsOutcome(v, h.defaultOutcome) && AreRangesOf(h.ranges, ranges)
    ensures Accept(h) == Ok(b)
       <==> Disjoint(ranges) && (forall id :: id in b.cases <==> IsCaseOfSome(id, ranges))
            && OutcomesAre(b.cases, h) && b.totals == h.totals && CountsAre(b.cases, b.totals)
  {
    RangesExactly(h.ranges, ranges);
    ExpansionExact(h.ranges, |h.ranges|, ranges, h.defaultOutcome);
    CasesOfRanges(h.ranges, ranges, b.cases);
    var cases := Expand(h.ranges, |h.ranges|, h.defaultOutcome);
    if cases.Ok? {
      AcceptCasesExactly(v, cases.value, h, b);
      SameKeys(cases.value, b.cases, ranges);
    }
  }

  lemma SameKeys(expanded: map<string, Outcome>, cases: map<string, Outcome>, ranges: seq<Range>)
    requires forall id :: id in expanded <==> InSome(id, ranges)
    ensures expanded.Keys == cases.Keys <==> forall id :: id in cases <==> InSome(id, ranges)
  {
    if forall id :: id in cases <==> InSome(id, ranges) {
      assert forall id :: id in expanded.Keys <==> id in cases.Keys;
    } else {
      assert forall id :: id in expanded.Keys <==> InSome(id, ranges);
    }
  }

  lemma AcceptedAreRanges(h: Header) returns (ranges: seq<Range>)
    requires Accept(h).Ok?
    ensures AreRangesOf(h.ranges, ranges)
  {
    ranges := ExpandedAreRanges(h.ranges, |h.ranges|, h.defaultOutcome);
    RangesExactly(h.ranges, ranges);
  }

  lemma LoadedIsDescribed(document: Value, image: string, b: Baseline) returns (h: Header, ranges: seq<Range>)
    requires Load(document, image) == Ok(b)
    ensures Describes(document, image, h, ranges, b)
  {
    h := ReadHeader(document, image).value;
    HeadExactly(document, image, h);
    ranges := AcceptedAreRanges(h);
    AcceptExactly(document.fields["default_outcome"], h, ranges, b);
  }

  lemma CasesOfRanges(items: seq<Value>, ranges: seq<Range>, cases: map<string, Outcome>)
    requires AreRangesOf(items, ranges)
    ensures (forall id :: id in cases <==> InSome(id, ranges))
       <==> (forall id :: id in cases <==> IsCaseOfSome(id, ranges))
  {
    forall i | 0 <= i < |ranges| ensures ranges[i].first >= 1 {
      assert IsRange(items[i], ranges[i]);
    }
    forall id ensures InSome(id, ranges) <==> IsCaseOfSome(id, ranges) { CasesExactly(id, ranges); }
  }

  lemma DescribedIsLoaded(document: Value, image: string, h: Header, ranges: seq<Range>, b: Baseline)
    requires Describes(document, image, h, ranges, b)
    ensures Load(document, image) == Ok(b)
  {
    HeadExactly(document, image, h);
    AcceptExactly(document.fields["default_outcome"], h, ranges, b);
  }

  /** `load_baseline` returns a baseline if and only if it is the one the document describes. */
  lemma LoadExactly(document: Value, image: string, b: Baseline)
    ensures Load(document, image) == Ok(b) <==> exists h, ranges :: Describes(document, image, h, ranges, b)
  {
    if Load(document, image) == Ok(b) {
      var h, ranges := LoadedIsDescribed(document, image, b);
    }
    if h, ranges :| Describes(document, image, h, ranges, b) {
      DescribedIsLoaded(document, image, h, ranges, b);
    }
  }
}
