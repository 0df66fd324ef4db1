/** Lexicographic order of byte strings and of text by code point, as Python compares them. */
module LexOrder {
  predicate Less(a: seq<int>, b: seq<int>)
    decreases |a|
  {
    b != [] && (a == [] || a[0] < b[0] || (a[0] == b[0] && Less(a[1..], b[1..])))
  }

  lemma {:induction false} Irreflexive(a: seq<int>)
    ensures !Less(a, a)
    decreases |a|
  {
    if a != [] { Irreflexive(a[1..]); }
  }

  lemma {:induction false} Transitive(a: seq<int>, b: seq<int>, c: seq<int>)
    requires Less(a, b) && Less(b, c)
    ensures Less(a, c)
    decreases |a|
  {
    if a != [] && a[0] == b[0] && b[0] == c[0] { Transitive(a[1..], b[1..], c[1..]); }
  }

  lemma {:induction false} Total(a: seq<int>, b: seq<int>)
    ensures a == b || Less(a, b) || Less(b, a)
    decreases |a|
  {
    if a != [] && b != [] && a[0] == b[0] {
      Total(a[1..], b[1..]);
      assert a == [a[0]] + a[1..] && b == [b[0]] + b[1..];
    }
  }

  function Codes(s: string): (r: seq<int>)
    ensures |r| == |s| && forall i :: 0 <= i < |s| ==> r[i] == s[i] as int
  {
    seq(|s|, i requires 0 <= i < |s| => s[i] as int)
  }

  lemma CodesInjective(s: string, t: string)
    requires Codes(s) == Codes(t)
    ensures s == t
  {
    forall i | 0 <= i < |s| ensures s[i] == t[i] {
      assert Codes(s)[i] == Codes(t)[i];
    }
  }

  predicate TextLess(s: string, t: string) { Less(Codes(s), Codes(t)) }

  /** Spelled out: equal up to position `k`, and there smaller, or at its end while the other goes on. */
  predicate SmallerAt(s: string, t: string, k: nat) {
    k <= |s| && k < |t| && s[..k] == t[..k] && (k == |s| || s[k] < t[k])
  }

  lemma {:induction false} LessFrom(s: string, t: string, k: nat)
    requires k <= |s| && k <= |t| && s[..k] == t[..k]
    ensures Less(Codes(s)[k..], Codes(t)[k..]) ==> exists n :: SmallerAt(s, t, n)
    decreases |s| - k
  {
    var a, b := Codes(s)[k..], Codes(t)[k..];
    if Less(a, b) {
      if k < |s| && s[k] == t[k] {
        assert a[1..] == Codes(s)[k + 1..] && b[1..] == Codes(t)[k + 1..];
        assert s[..k + 1] == s[..k] + [s[k]] && t[..k + 1] == t[..k] + [t[k]];
        LessFrom(s, t, k + 1);
      } else {
        assert SmallerAt(s, t, k);
      }
    }
  }

  lemma {:induction false} LessOnto(s: string, t: string, n: nat, k: nat)
    requires SmallerAt(s, t, n) && k <= n
    ensures Less(Codes(s)[k..], Codes(t)[k..])
    decreases n - k
  {
    var a, b := Codes(s)[k..], Codes(t)[k..];
    if k < n {
      assert s[..n][k] == s[k] && t[..n][k] == t[k];
      assert a[1..] == Codes(s)[k + 1..] && b[1..] == Codes(t)[k + 1..];
      LessOnto(s, t, n, k + 1);
    }
  }

  /** Text order is the order by the first difference. */
  lemma TextLessExactly(s: string, t: string)
    ensures TextLess(s, t) <==> exists n :: SmallerAt(s, t, n)
  {
    assert Codes(s)[0..] == Codes(s) && Codes(t)[0..] == Codes(t);
    LessFrom(s, t, 0);
    if n :| SmallerAt(s, t, n) { LessOnto(s, t, n, 0); }
  }
}
