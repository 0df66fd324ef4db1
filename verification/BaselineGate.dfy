/** Counting classifications, accepting a baseline, and comparing a report with it. */
module BaselineGate {
  import opened Options
  import opened Json
  import opened CaseRanges

  // ----- Counting -----

  datatype Field = Behavior | BehaviorClose

  function FieldName(f: Field): string { if f.Behavior? then "behavior" else "behaviorClose" }

  /** `None` stands for the Error of a malformed outcome. */
  function ClassOf(v: Value, f: Field): Option<string> {
    if Property(v, FieldName(f)).Text? then Some(Property(v, FieldName(f)).s) else None
  }

  function IdsOf(results: map<string, Value>, f: Field, c: string): set<string> {
    set id | id in results && ClassOf(results[id], f) == Some(c)
  }

  function Count(results: map<string, Value>, f: Field, c: string): nat { |IdsOf(results, f, c)| }

  function Get(counts: map<string, nat>, c: string): nat { if c in counts then counts[c] else 0 }

  /** `classification_counts`; the outcomes come in any order. */
  method ClassificationCounts(results: map<string, Value>, f: Field) returns (r: Option<map<string, nat>>)
    ensures r.None? <==> exists id :: id in results && ClassOf(results[id], f).None?
    ensures r.Some? ==> forall c :: Get(r.value, c) == Count(results, f, c)
    ensures r.Some? ==> forall c :: c in r.value ==> r.value[c] > 0
  {
    var counts: map<string, nat> := map[];
    var left := results.Keys;
    ghost var done: map<string, Value> := map[];
    while left != {}
      invariant left <= results.Keys && done.Keys == results.Keys - left
      invariant forall id :: id in done ==> done[id] == results[id] && ClassOf(done[id], f).Some?
      invariant forall c :: Get(counts, c) == Count(done, f, c)
      invariant forall c :: c in counts ==> counts[c] > 0
      decreases left
    {
      var id :| id in left;
      var c := ClassOf(results[id], f);
      if c.None? {
        return None;
      }
      OneMore(done, id, results[id], f);
      counts := counts[c.value := Get(counts, c.value) + 1];
      done := done[id := results[id]];
      left := left - {id};
    }
    assert done == results;
    r := Some(counts);
  }

  lemma OneMore(done: map<string, Value>, id: string, v: Value, f: Field)
    requires id !in done && ClassOf(v, f).Some?
    ensures forall c ::
      Count(done[id := v], f, c) == Count(done, f, c) + (if ClassOf(v, f) == Some(c) then 1 else 0)
  {
    forall c
      ensures Count(done[id := v], f, c) == Count(done, f, c) + (if ClassOf(v, f) == Some(c) then 1 else 0)
    {
      OneMoreOf(done, id, v, f, c);
    }
  }

  lemma OneMoreOf(done: map<string, Value>, id: string, v: Value, f: Field, c: string)
    requires id !in done
    ensures Count(done[id := v], f, c) == Count(done, f, c) + (if ClassOf(v, f) == Some(c) then 1 else 0)
  {
    var before, after := IdsOf(done, f, c), IdsOf(done[id := v], f, c);
    assert after == if ClassOf(v, f) == Some(c) then before + {id} else before;
  }

  /** `verify_classifications`: whether it returns. */
  method VerifyClassifications(counts: map<string, nat>, totals: Totals) returns (ok: bool)
    ensures ok <==> Get(counts, "OK") == totals.ok && Get(counts, "INFORMATIONAL") == totals.informational
                    && forall c :: c in counts && !IsClassification(c) ==> counts[c] == 0
  {
    var other := 0;
    var left := set c | c in counts && !IsClassification(c);
    while left != {}
      invariant left <= counts.Keys && forall c :: c in left ==> !IsClassification(c)
      invariant other == 0 <==> forall c :: c in counts && !IsClassification(c) && c !in left ==> counts[c] == 0
      invariant other >= 0
      decreases left
    {
      var c :| c in left;
      other := other + counts[c];
      left := left - {c};
    }
    ok := Get(counts, "OK") == totals.ok && Get(counts, "INFORMATIONAL") == totals.informational && other == 0;
  }

  /** The outcomes carry the declared totals, and no other classification. */
  predicate Matches(results: map<string, Value>, f: Field, totals: Totals) {
    && Count(results, f, "OK") == totals.ok
    && Count(results, f, "INFORMATIONAL") == totals.informational
    && forall id :: id in results ==> ClassOf(results[id], f).Some? && IsClassification(ClassOf(results[id], f).value)
  }

  /** Both steps together: count, then compare with the totals. */
  method CheckCounts(results: map<string, Value>, f: Field, totals: Totals) returns (ok: bool)
    ensures ok <==> Matches(results, f, totals)
  {
    var counts := ClassificationCounts(results, f);
    if counts.None? {
      return false;
    }
    ok := VerifyClassifications(counts.value, totals);
    forall id | id in results
      ensures ClassOf(results[id], f).value in counts.value
    {
      var c := ClassOf(results[id], f).value;
      assert id in IdsOf(results, f, c);
      assert Get(counts.value, c) == Count(results, f, c) > 0;
    }
    forall c | c in counts.value ensures exists id :: id in results && ClassOf(results[id], f) == Some(c) {
      assert Get(counts.value, c) == |IdsOf(results, f, c)|;
      assert IdsOf(results, f, c) != {};
      var id :| id in IdsOf(results, f, c);
    }
  }

  // ----- Accepting a baseline -----

  function AsValue(o: Outcome): Value {
    Record(map["behavior" := Text(o.behavior), "behaviorClose" := Text(o.behaviorClose)])
  }

  function Values(cases: map<string, Outcome>): map<string, Value> { map id | id in cases :: AsValue(cases[id]) }

  function Part(o: Outcome, f: Field): string { if f.Behavior? then o.behavior else o.behaviorClose }

  predicate Overridable(cases: map<string, Outcome>, overrides: map<string, Value>) {
    forall id :: id in overrides ==> id in cases && ReadOutcome(overrides[id]).Some?
  }

  function Overridden(cases: map<string, Outcome>, overrides: map<string, Value>): map<string, Outcome>
    requires Overridable(cases, overrides)
  {
    map id | id in cases :: if id in overrides then ReadOutcome(overrides[id]).value else cases[id]
  }

  method ApplyOverrides(cases: map<string, Outcome>, overrides: map<string, Value>)
    returns (r: Option<map<string, Outcome>>)
    ensures r.Some? <==> Overridable(cases, overrides)
    ensures r.Some? ==> r.value == Overridden(cases, overrides)
  {
    var result := cases;
    var left := overrides.Keys;
    while left != {}
      invariant left <= overrides.Keys && result.Keys == cases.Keys
      invariant forall id :: id in overrides && id !in left ==> id in cases && ReadOutcome(overrides[id]).Some?
      invariant forall id :: id in cases ==>
        result[id] == if id in overrides && id !in left then ReadOutcome(overrides[id]).value else cases[id]
      decreases left
    {
      var id :| id in left;
      if id !in result || ReadOutcome(overrides[id]).None? {
        return None;
      }
      result := result[id := ReadOutcome(overrides[id]).value];
      left := left - {id};
    }
    r := Some(result);
  }

  /** The parts of the document that are read before the ranges are expanded. */
  datatype Header = Header(totals: Totals, defaultOutcome: Outcome, overrides: map<string, Value>, ranges: seq<Value>)

  function ReadHeader(document: Value, image: string): Result<Header> {
    var totals := ReadTotals(Property(document, "totals"));
    var o := ReadOutcome(Property(document, "default_outcome"));
    var overrides := Property(document, "outcome_overrides");
    var ranges := Property(document, "case_ranges");
    if Property(document, "schema_version") != Number(1.0) then Err(BadDocument)
    else if Property(Property(document, "suite"), "image") != Text(image) then Err(BadDocument)
    else if totals.None? then Err(BadTotals)
    else if o.None? then Err(BadOutcome)
    else if !overrides.Record? then Err(BadOverride)
    else if !ranges.List? then Err(BadRange)
    else Ok(Header(totals.value, o.value, overrides.fields, ranges.items))
  }

  /** What follows the header: the ranges, the overrides and the counts. */
  function Accept(h: Header): Result<Baseline> {
    var cases := Expand(h.ranges, |h.ranges|, h.defaultOutcome);
    if cases.Err? then Err(cases.error) else AcceptCases(cases.value, h)
  }

  function AcceptCases(expanded: map<string, Outcome>, h: Header): Result<Baseline> {
    if !Overridable(expanded, h.overrides) then Err(BadOverride)
    else
      var all := Overridden(expanded, h.overrides);
      if |all| != h.totals.total then Err(WrongSize)
      else if !Matches(Values(all), Behavior, h.totals) || !Matches(Values(all), BehaviorClose, h.totals) then
        Err(WrongCounts)
      else Ok(Baseline(all, h.totals))
  }

  /** `load_baseline` as a function of the document. */
  function Load(document: Value, image: string): Result<Baseline> {
    var header := ReadHeader(document, image);
    if header.Err? then Err(header.error) else Accept(header.value)
  }

  method LoadBaseline(document: Value, image: string) returns (r: Result<Baseline>)
    ensures r == Load(document, image)
  {
    var header := ReadHeader(document, image);
    if header.Err? {
      return Err(header.error);
    }
    var cases := ExpandRanges(header.value.ranges, header.value.defaultOutcome);
    if cases.Err? {
      return Err(cases.error);
    }
    var all := ApplyOverrides(cases.value, header.value.overrides);
    if all.None? {
      return Err(BadOverride);
    }
    if |all.value| != header.value.totals.total {
      return Err(WrongSize);
    }
    var protocol := CheckCounts(Values(all.value), Behavior, header.value.totals);
    if !protocol {
      return Err(WrongCounts);
    }
    var close := CheckCounts(Values(all.value), BehaviorClose, header.value.totals);
    if !close {
      return Err(WrongCounts);
    }
    r := Ok(Baseline(all.value, header.value.totals));
  }

  /** What acceptance by `load_baseline` guarantees to its users. */
  ghost predicate Sound(b: Baseline) {
    && Matches(Values(b.cases), Behavior, b.totals)
    && Matches(Values(b.cases), BehaviorClose, b.totals)
    && |b.cases| == b.totals.total == b.totals.ok + b.totals.informational
  }

  /**
   An accepted baseline: its ranges are well formed and disjoint, its cases are exactly theirs, as
   many as the sum of their widths and as `ok + informational`, overrides included.
   */
  lemma LoadConservesCounts(document: Value, image: string) returns (ranges: seq<Range>)
    requires Load(document, image).Ok?
    ensures var b := Load(document, image).value;
      RangesOf(document, image, ranges)
      && Sound(b) && Disjoint(ranges) && |b.cases| == Width(ranges)
      && (forall id :: id in b.cases <==> InSome(id, ranges))
      && forall f: Field ::
           Count(Values(b.cases), f, "OK") + Count(Values(b.cases), f, "INFORMATIONAL") == Width(ranges)
  {
    var h := ReadHeader(document, image).value;
    ranges := ExpandedAreRanges(h.ranges, |h.ranges|, h.defaultOutcome);
    TotalsAddUp(document, image);
    LoadedCases(document, image, ranges);
    CountsAddUp(Load(document, image).value);
  }

  /** The document's `case_ranges` are well formed, and these are they. */
  ghost predicate RangesOf(document: Value, image: string, ranges: seq<Range>) {
    var header := ReadHeader(document, image);
    header.Ok? && AreRanges(header.value.ranges, |header.value.ranges|, ranges)
  }

  lemma LoadedCases(document: Value, image: string, ranges: seq<Range>)
    requires Load(document, image).Ok? && RangesOf(document, image, ranges)
    ensures var b := Load(document, image).value;
      Disjoint(ranges) && |b.cases| == Width(ranges) && forall id :: id in b.cases <==> InSome(id, ranges)
  {
    var h := ReadHeader(document, image).value;
    ExpansionExact(h.ranges, |h.ranges|, ranges, h.defaultOutcome);
    var cases := Expand(h.ranges, |h.ranges|, h.defaultOutcome).value;
    SameSize(Load(document, image).value.cases, cases);
  }

  lemma SameSize(a: map<string, Outcome>, b: map<string, Outcome>)
    requires a.Keys == b.Keys
    ensures |a| == |b|
  {
    assert |a| == |a.Keys| && |b| == |b.Keys|;
  }

  lemma CountsAddUp(b: Baseline)
    requires Sound(b)
    ensures forall f: Field ::
      Count(Values(b.cases), f, "OK") + Count(Values(b.cases), f, "INFORMATIONAL") == |b.cases|
  {
    forall f: Field
      ensures Count(Values(b.cases), f, "OK") + Count(Values(b.cases), f, "INFORMATIONAL") == |b.cases|
    {
      SumOf(Values(b.cases), f, b.totals);
    }
  }

  lemma SumOf(results: map<string, Value>, f: Field, totals: Totals)
    requires Matches(results, f, totals)
    ensures Count(results, f, "OK") + Count(results, f, "INFORMATIONAL") == totals.ok + totals.informational
  {
  }

  lemma TotalsAddUp(document: Value, image: string)
    requires Load(document, image).Ok?
    ensures Sound(Load(document, image).value)
  {
    var totals := Property(document, "totals");
    assert ReadTotals(totals).Some?;
  }

  /** With a readable header and well-formed ranges, a repeat is reported exactly when two ranges overlap. */
  lemma RepeatIsOverlap(document: Value, image: string, ranges: seq<Range>)
    requires RangesOf(document, image, ranges)
    ensures Load(document, image).Err? && Load(document, image).error.RepeatedCase? <==> !Disjoint(ranges)
  {
    var h := ReadHeader(document, image).value;
    ExpansionExact(h.ranges, |h.ranges|, ranges, h.defaultOutcome);
  }

  // ----- The gate -----

  datatype GateError = CaseSetMismatch | MalformedOutcome | OutcomeMismatch | CountMismatch

  predicate SameOutcome(actual: Value, expected: Outcome) {
    && Property(actual, "behavior") == Text(expected.behavior)
    && Property(actual, "behaviorClose") == Text(expected.behaviorClose)
  }

  /** The report has the baseline's cases, and on each of them the baseline's two classifications. */
  ghost predicate Exact(report: map<string, Value>, cases: map<string, Outcome>) {
    && report.Keys == cases.Keys
    && forall id :: id in cases ==> report[id].Record? && SameOutcome(report[id], cases[id])
  }

  lemma ClassOfOutcome(actual: Value, o: Outcome, f: Field)
    ensures ClassOf(AsValue(o), f) == Some(Part(o, f))
    ensures SameOutcome(actual, o) ==> ClassOf(actual, f) == Some(Part(o, f))
  {
    if f.Behavior? {
      assert Property(AsValue(o), "behavior") == Text(o.behavior);
    } else {
      assert Property(AsValue(o), "behaviorClose") == Text(o.behaviorClose);
    }
  }

  /** An exact report has the baseline's counts. */
  lemma ExactMatches(report: map<string, Value>, b: Baseline, f: Field)
    requires Exact(report, b.cases) && Matches(Values(b.cases), f, b.totals)
    ensures Matches(report, f, b.totals)
  {
    var values := Values(b.cases);
    forall id | id in report ensures ClassOf(report[id], f) == ClassOf(values[id], f) {
      ClassOfOutcome(report[id], b.cases[id], f);
    }
    SameClasses(report, values, f, b.totals);
  }

  lemma SameClasses(a: map<string, Value>, b: map<string, Value>, f: Field, totals: Totals)
    requires a.Keys == b.Keys && forall id :: id in a ==> ClassOf(a[id], f) == ClassOf(b[id], f)
    requires Matches(b, f, totals)
    ensures Matches(a, f, totals)
  {
    SameCount(a, b, f, "OK");
    SameCount(a, b, f, "INFORMATIONAL");
  }

  lemma SameCount(a: map<string, Value>, b: map<string, Value>, f: Field, c: string)
    requires a.Keys == b.Keys && forall id :: id in a ==> ClassOf(a[id], f) == ClassOf(b[id], f)
    ensures Count(a, f, c) == Count(b, f, c)
  {
    assert IdsOf(a, f, c) == IdsOf(b, f, c);
  }

  /**
   `verify_baseline`: it returns exactly for an exact report. Which error it throws is determined
   too, and the two closing count checks never throw.
   */
  method VerifyBaseline(report: map<string, Value>, b: Baseline) returns (error: Option<GateError>)
    requires Sound(b)
    ensures error.None? <==> Exact(report, b.cases)
    ensures error == Some(CaseSetMismatch) <==> report.Keys != b.cases.Keys
    ensures error == Some(MalformedOutcome)
       <==> report.Keys == b.cases.Keys && exists id :: id in report && !report[id].Record?
    ensures error != Some(CountMismatch)
  {
    var missing := set id | id in b.cases && id !in report;
    var extra := set id | id in report && id !in b.cases;
    if missing != {} || extra != {} {
      assert forall id :: id in missing + extra ==> !(id in report <==> id in b.cases);
      return Some(CaseSetMismatch);
    }
    assert report.Keys == b.cases.Keys by {
      forall id ensures id in report <==> id in b.cases {
        assert id !in missing && id !in extra;
      }
    }
    var mismatches := 0;
    var left := b.cases.Keys;
    while left != {}
      invariant left <= b.cases.Keys && mismatches >= 0
      invariant forall id :: id in b.cases && id !in left ==> report[id].Record?
      invariant mismatches == 0 <==> forall id :: id in b.cases && id !in left ==> SameOutcome(report[id], b.cases[id])
      decreases left
    {
      var id :| id in left;
      if !report[id].Record? {
        return Some(MalformedOutcome);
      }
      var found := Mismatches(report[id], b.cases[id]);
      mismatches := mismatches + found;
      left := left - {id};
    }
    if mismatches != 0 {
      return Some(OutcomeMismatch);
    }
    ExactMatches(report, b, Behavior);
    ExactMatches(report, b, BehaviorClose);
    var protocol := CheckCounts(report, Behavior, b.totals);
    if !protocol {
      return Some(CountMismatch);
    }
    var close := CheckCounts(report, BehaviorClose, b.totals);
    if !close {
      return Some(CountMismatch);
    }
    error := None;
  }

  method Mismatches(actual: Value, expected: Outcome) returns (n: nat)
    ensures n == 0 <==> SameOutcome(actual, expected)
  {
    n := 0;
    if Property(actual, FieldName(Behavior)) != Text(Part(expected, Behavior)) {
      n := n + 1;
    }
    if Property(actual, FieldName(BehaviorClose)) != Text(Part(expected, BehaviorClose)) {
      n := n + 1;
    }
  }
}
