/** The median gate of the record creator, over real-valued rates. */
module Median {

  predicate Sorted(s: seq<real>) { forall i, j :: 0 <= i < j < |s| ==> s[i] <= s[j] }

  function Insert(x: real, s: seq<real>): (r: seq<real>)
    ensures |r| == |s| + 1
  {
    if s == [] || x <= s[0] then [x] + s else [s[0]] + Insert(x, s[1..])
  }

  /** `sorted(rates)` */
  function Sort(s: seq<real>): (r: seq<real>)
    ensures |r| == |s|
  {
    if s == [] then [] else Insert(s[0], Sort(s[1..]))
  }

  function CountAtLeast(s: seq<real>, t: real): (n: nat)
    ensures n <= |s|
  {
    if s == [] then 0 else (if s[0] >= t then 1 else 0) + CountAtLeast(s[1..], t)
  }

  lemma {:induction false} InsertSorted(x: real, s: seq<real>)
    requires Sorted(s)
    ensures Sorted(Insert(x, s))
    ensures forall y :: y in Insert(x, s) ==> y == x || y in s
    decreases |s|
  {
    if s != [] && x > s[0] {
      var t := Insert(x, s[1..]);
      InsertSorted(x, s[1..]);
      forall j | 0 <= j < |t| ensures s[0] <= t[j] {
        assert t[j] in t;
      }
    }
  }

  lemma {:induction false} SortSorts(s: seq<real>)
    ensures Sorted(Sort(s))
    decreases |s|
  {
    if s != [] {
      SortSorts(s[1..]);
      InsertSorted(s[0], Sort(s[1..]));
    }
  }

  lemma {:induction false} InsertCounts(x: real, s: seq<real>, t: real)
    ensures CountAtLeast(Insert(x, s), t) == CountAtLeast(s, t) + (if x >= t then 1 else 0)
    decreases |s|
  {
    var r := Insert(x, s);
    if s == [] || x <= s[0] {
      assert r[1..] == s;
    } else {
      assert r[1..] == Insert(x, s[1..]);
      InsertCounts(x, s[1..], t);
    }
  }

  lemma {:induction false} SortCounts(s: seq<real>, t: real)
    ensures CountAtLeast(Sort(s), t) == CountAtLeast(s, t)
    decreases |s|
  {
    if s != [] {
      SortCounts(s[1..], t);
      InsertCounts(s[0], Sort(s[1..]), t);
    }
  }

  lemma {:induction false} CountsBelowAndAbove(s: seq<real>, t: real, k: nat)
    requires Sorted(s) && k < |s|
    ensures s[k] >= t <==> CountAtLeast(s, t) >= |s| - k
    decreases |s|
  {
    if s[0] >= t {
      AllCount(s, t);
    } else if k > 0 {
      CountsBelowAndAbove(s[1..], t, k - 1);
    }
  }

  lemma {:induction false} AllCount(s: seq<real>, t: real)
    requires Sorted(s) && (s != [] ==> s[0] >= t)
    ensures CountAtLeast(s, t) == |s|
    decreases |s|
  {
    if s != [] { AllCount(s[1..], t); }
  }

  // ----- The gate -----

  /** `sorted(rates)[n // 2]` */
  function MedianOf(rates: seq<real>): real
    requires rates != []
  {
    Sort(rates)[|rates| / 2]
  }

  predicate Passes(candidate: seq<real>, baseline: seq<real>, minimumRatio: real)
    requires candidate != [] && baseline != []
  {
    MedianOf(candidate) >= MedianOf(baseline) * minimumRatio
  }

  /** For an odd sample count, a threshold is met by the median exactly when most samples meet it. */
  lemma MedianIsMajority(rates: seq<real>, t: real)
    requires |rates| % 2 == 1
    ensures MedianOf(rates) >= t <==> CountAtLeast(rates, t) >= (|rates| + 1) / 2
  {
    SortSorts(rates);
    SortCounts(rates, t);
    CountsBelowAndAbove(Sort(rates), t, |rates| / 2);
  }

  /** The gate passes exactly when at least (n+1)/2 candidate samples reach the threshold. */
  lemma GateIsMajority(candidate: seq<real>, baseline: seq<real>, minimumRatio: real)
    requires |candidate| % 2 == 1 && baseline != []
    ensures Passes(candidate, baseline, minimumRatio)
       <==> CountAtLeast(candidate, MedianOf(baseline) * minimumRatio) >= (|candidate| + 1) / 2
  {
    MedianIsMajority(candidate, MedianOf(baseline) * minimumRatio);
  }

  lemma {:induction false} CountSplit(a: seq<real>, b: seq<real>, t: real)
    ensures CountAtLeast(a + b, t) == CountAtLeast(a, t) + CountAtLeast(b, t)
    decreases |a|
  {
    if a == [] {
      assert a + b == b;
    } else {
      assert (a + b)[1..] == a[1..] + b;
      CountSplit(a[1..], b, t);
    }
  }

  lemma Cancel(x: real, a: multiset<real>, b: multiset<real>, c: multiset<real>)
    requires multiset{x} + a == b + (multiset{x} + c)
    ensures a == b + c
  {
    assert a == (multiset{x} + a) - multiset{x};
    assert b + c == (b + (multiset{x} + c)) - multiset{x};
  }

  lemma {:induction false} CountOfPermutation(a: seq<real>, b: seq<real>, t: real)
    requires multiset(a) == multiset(b)
    ensures CountAtLeast(a, t) == CountAtLeast(b, t)
    decreases |a|
  {
    assert |multiset(a)| == |a| && |multiset(b)| == |b|;
    if a != [] {
      assert a[0] in multiset(b);
      var i :| 0 <= i < |b| && b[i] == a[0];
      var rest := b[..i] + b[i + 1..];
      assert a == [a[0]] + a[1..] && b == b[..i] + ([b[i]] + b[i + 1..]);
      assert multiset(a) == multiset{a[0]} + multiset(a[1..]);
      assert multiset(b) == multiset(b[..i]) + (multiset{b[i]} + multiset(b[i + 1..]));
      Cancel(a[0], multiset(a[1..]), multiset(b[..i]), multiset(b[i + 1..]));
      CountOfPermutation(a[1..], rest, t);
      CountSplit(b[..i], [b[i]] + b[i + 1..], t);
      CountSplit(b[..i], b[i + 1..], t);
      assert ([b[i]] + b[i + 1..])[1..] == b[i + 1..];
    }
  }

  lemma MedianOfPermutation(a: seq<real>, b: seq<real>)
    requires multiset(a) == multiset(b) && |a| % 2 == 1
    ensures b != [] && MedianOf(a) == MedianOf(b)
  {
    assert |multiset(a)| == |a| && |multiset(b)| == |b|;
    SameMajority(a, b, MedianOf(a));
    SameMajority(a, b, MedianOf(b));
  }

  lemma SameMajority(a: seq<real>, b: seq<real>, t: real)
    requires multiset(a) == multiset(b) && |a| == |b| && |a| % 2 == 1
    ensures MedianOf(a) >= t <==> MedianOf(b) >= t
  {
    CountOfPermutation(a, b, t);
    MedianIsMajority(a, t);
    MedianIsMajority(b, t);
  }

  /** The order of the samples plays no part, on either side. */
  lemma GateIgnoresOrder(c: seq<real>, c': seq<real>, b: seq<real>, b': seq<real>, minimumRatio: real)
    requires multiset(c) == multiset(c') && multiset(b) == multiset(b')
    requires |c| % 2 == 1 && |b| % 2 == 1
    ensures c' != [] && b' != [] && (Passes(c, b, minimumRatio) <==> Passes(c', b', minimumRatio))
  {
    MedianOfPermutation(c, c');
    MedianOfPermutation(b, b');
  }

  lemma {:induction false} CountIsMonotone(a: seq<real>, b: seq<real>, t: real)
    requires |a| == |b| && forall i :: 0 <= i < |a| ==> a[i] <= b[i]
    ensures CountAtLeast(a, t) <= CountAtLeast(b, t)
    decreases |a|
  {
    if a != [] { CountIsMonotone(a[1..], b[1..], t); }
  }

  lemma MedianIsMonotone(a: seq<real>, b: seq<real>)
    requires |a| == |b| && |a| % 2 == 1 && forall i :: 0 <= i < |a| ==> a[i] <= b[i]
    ensures MedianOf(a) <= MedianOf(b)
  {
    CountIsMonotone(a, b, MedianOf(a));
    MedianIsMajority(a, MedianOf(a));
    MedianIsMajority(b, MedianOf(a));
  }

  /** Faster candidate samples and slower baseline samples never turn a pass into a failure. */
  lemma GateIsMonotone(c: seq<real>, c': seq<real>, b: seq<real>, b': seq<real>, minimumRatio: real)
    requires |c| == |c'| && |c| % 2 == 1 && forall i :: 0 <= i < |c| ==> c[i] <= c'[i]
    requires |b| == |b'| && |b| % 2 == 1 && forall i :: 0 <= i < |b| ==> b'[i] <= b[i]
    requires minimumRatio > 0.0 && Passes(c, b, minimumRatio)
    ensures Passes(c', b', minimumRatio)
  {
    MedianIsMonotone(c, c');
    MedianIsMonotone(b', b);
    assert MedianOf(b') * minimumRatio <= MedianOf(b) * minimumRatio;
  }

  lemma {:induction false} SortKeepsPositive(s: seq<real>)
    requires forall i :: 0 <= i < |s| ==> s[i] > 0.0
    ensures forall i :: 0 <= i < |s| ==> Sort(s)[i] > 0.0
    decreases |s|
  {
    if s != [] {
      var t := Sort(s[1..]);
      SortKeepsPositive(s[1..]);
      SortSorts(s[1..]);
      InsertSorted(s[0], t);
      forall i | 0 <= i < |s| ensures Sort(s)[i] > 0.0 {
        assert Sort(s)[i] in Insert(s[0], t);
      }
    }
  }

  /** A control run, candidate equal to baseline, always passes. */
  lemma ControlRunPasses(rates: seq<real>, minimumRatio: real)
    requires rates != [] && forall i :: 0 <= i < |rates| ==> rates[i] > 0.0
    requires 0.0 < minimumRatio <= 1.0
    ensures Passes(rates, rates, minimumRatio)
  {
    SortKeepsPositive(rates);
    var m := MedianOf(rates);
    assert m * minimumRatio <= m * 1.0;
  }
}
