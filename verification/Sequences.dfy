/** Sequence facts that several proofs share. */
module Sequences {
  lemma Reassociate<T>(a: seq<T>, b: seq<T>, c: seq<T>)
    ensures a + b + c == a + (b + c)
  {
  }

  lemma OneMoreSecond<T>(s: seq<T>, x: T)
    requires s != []
    ensures multiset([s[0], x] + s[1..]) == multiset(s) + multiset{x}
  {
    assert s == [s[0]] + s[1..];
    assert [s[0], x] + s[1..] == [s[0]] + [x] + s[1..];
  }

  lemma LastTwo<T>(s: seq<T>)
    requires |s| == 5
    ensures multiset([s[0], s[1], s[2], s[4], s[3]]) == multiset(s)
  {
    assert s == s[..3] + ([s[3]] + [s[4]]);
    assert [s[0], s[1], s[2], s[4], s[3]] == s[..3] + ([s[4]] + [s[3]]);
  }
}
