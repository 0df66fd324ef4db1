/** The order of `index.json`: newest first, by time and then by identifier. */
module IndexOrder {
  import opened Records
  import LexOrder

  /** Comparison of the keys `(recorded_at, record_id)`. */
  predicate KeyLess(a: Entry, b: Entry) {
    LexOrder.TextLess(a.recordedAt, b.recordedAt) ||
    (a.recordedAt == b.recordedAt && LexOrder.TextLess(a.recordId, b.recordId))
  }

  lemma KeyLessIsStrictTotal(a: Entry, b: Entry, c: Entry)
    ensures !KeyLess(a, a)
    ensures KeyLess(a, b) && KeyLess(b, c) ==> KeyLess(a, c)
    ensures KeyLess(a, b) || KeyLess(b, a) || (a.recordedAt == b.recordedAt && a.recordId == b.recordId)
    ensures !(KeyLess(a, b) && KeyLess(b, a))
  {
    TextOrder(a.recordedAt, b.recordedAt, c.recordedAt);
    TextOrder(a.recordId, b.recordId, c.recordId);
    TextOrder(a.recordedAt, b.recordedAt, a.recordedAt);
    TextOrder(a.recordId, b.recordId, a.recordId);
  }

  lemma TextOrder(s: string, t: string, u: string)
    ensures !LexOrder.TextLess(s, s)
    ensures LexOrder.TextLess(s, t) && LexOrder.TextLess(t, u) ==> LexOrder.TextLess(s, u)
    ensures LexOrder.TextLess(s, t) || LexOrder.TextLess(t, s) || s == t
  {
    var a, b, c := LexOrder.Codes(s), LexOrder.Codes(t), LexOrder.Codes(u);
    LexOrder.Irreflexive(a);
    LexOrder.Total(a, b);
    if a == b { LexOrder.CodesInjective(s, t); }
    if LexOrder.Less(a, b) && LexOrder.Less(b, c) { LexOrder.Transitive(a, b, c); }
  }

  /** The later of two texts, spelled out on the characters. */
  ghost predicate IsLater(s: string, t: string) { exists n :: LexOrder.SmallerAt(t, s, n) }

  /** `a` is newer than `b`: a later time, or the same time and a larger identifier. */
  ghost predicate IsNewer(a: Entry, b: Entry) {
    IsLater(a.recordedAt, b.recordedAt) || (a.recordedAt == b.recordedAt && IsLater(a.recordId, b.recordId))
  }

  lemma NewerExactly(a: Entry, b: Entry)
    ensures KeyLess(b, a) <==> IsNewer(a, b)
  {
    LexOrder.TextLessExactly(b.recordedAt, a.recordedAt);
    LexOrder.TextLessExactly(b.recordId, a.recordId);
  }

  /** Newest first. */
  ghost predicate NewestFirst(s: seq<Entry>) { forall i, j :: 0 <= i < j < |s| ==> IsNewer(s[i], s[j]) }

  lemma NewestFirstExactly(s: seq<Entry>)
    ensures NewestFirst(s) <==> StrictlyDescending(s)
  {
    forall i, j | 0 <= i < j < |s| ensures IsNewer(s[i], s[j]) <==> KeyLess(s[j], s[i]) {
      NewerExactly(s[i], s[j]);
    }
  }

  /** No entry before one with a larger key. */
  ghost predicate Descending(s: seq<Entry>) {
    forall i, j :: 0 <= i < j < |s| ==> !KeyLess(s[i], s[j])
  }

  ghost predicate StrictlyDescending(s: seq<Entry>) {
    forall i, j :: 0 <= i < j < |s| ==> KeyLess(s[j], s[i])
  }

  ghost predicate UniqueIds(s: seq<Entry>) {
    forall i, j :: 0 <= i < j < |s| ==> s[i].recordId != s[j].recordId
  }

  /** Behind every entry that is not smaller: among equal keys the earlier entry stays first. */
  function Insert(e: Entry, s: seq<Entry>): seq<Entry> {
    if s == [] then [e] else if KeyLess(s[0], e) then [e] + s else [s[0]] + Insert(e, s[1..])
  }

  /** `sort(key=..., reverse=True)`, which is stable. */
  function SortDescending(s: seq<Entry>): seq<Entry> {
    if s == [] then [] else Insert(s[|s| - 1], SortDescending(s[..|s| - 1]))
  }

  lemma {:induction false} InsertElements(e: Entry, s: seq<Entry>)
    ensures multiset(Insert(e, s)) == multiset(s) + multiset{e}
    decreases |s|
  {
    if s != [] && !KeyLess(s[0], e) {
      InsertElements(e, s[1..]);
      assert s == [s[0]] + s[1..];
    }
  }

  /** Sorting neither loses nor adds an entry. */
  lemma {:induction false} SortElements(s: seq<Entry>)
    ensures multiset(SortDescending(s)) == multiset(s)
    decreases |s|
  {
    if s != [] {
      SortElements(s[..|s| - 1]);
      InsertElements(s[|s| - 1], SortDescending(s[..|s| - 1]));
      FrontAndLast(s);
    }
  }

  lemma InMultiset(s: seq<Entry>, x: Entry)
    ensures x in s <==> x in multiset(s)
  {
  }

  /** What an insertion holds. */
  lemma InsertHolds(e: Entry, s: seq<Entry>)
    ensures forall x :: x in Insert(e, s) <==> x == e || x in s
  {
    InsertElements(e, s);
    forall x ensures x in Insert(e, s) <==> x == e || x in s {
      InMultiset(Insert(e, s), x);
      InMultiset(s, x);
    }
  }

  function Without(s: seq<Entry>, id: string): (r: seq<Entry>)
    ensures forall e :: e in r <==> e in s && e.recordId != id
  {
    if s == [] then []
    else (if s[0].recordId != id then [s[0]] else []) + Without(s[1..], id)
  }

  /** Replace the entry of that identifier, or add it, and sort. */
  function Merge(s: seq<Entry>, e: Entry): seq<Entry> {
    SortDescending(Without(s, e.recordId) + [e])
  }

  lemma SameElements(a: seq<Entry>, b: seq<Entry>)
    requires multiset(a) == multiset(b)
    ensures |a| == |b| && forall e :: e in a <==> e in b
  {
    assert |multiset(a)| == |a| && |multiset(b)| == |b|;
    assert forall e :: (e in a <==> e in multiset(a)) && (e in b <==> e in multiset(b));
  }

  lemma {:induction false} InsertKeepsDescending(e: Entry, s: seq<Entry>)
    requires Descending(s)
    ensures Descending(Insert(e, s))
    decreases |s|
  {
    if s != [] {
      var r := Insert(e, s);
      if KeyLess(s[0], e) {
        forall j | 0 <= j < |s| ensures !KeyLess(e, s[j]) {
          KeyLessIsStrictTotal(s[0], e, s[j]);
        }
      } else {
        InsertKeepsDescending(e, s[1..]);
        var t := Insert(e, s[1..]);
        InsertHolds(e, s[1..]);
        forall j | 0 <= j < |t| ensures !KeyLess(s[0], t[j]) {
          assert t[j] in t;
        }
      }
    }
  }

  lemma {:induction false} SortIsDescending(s: seq<Entry>)
    ensures Descending(SortDescending(s))
    decreases |s|
  {
    if s != [] {
      SortIsDescending(s[..|s| - 1]);
      InsertKeepsDescending(s[|s| - 1], SortDescending(s[..|s| - 1]));
    }
  }

  lemma {:induction false} InsertAtEnd(e: Entry, s: seq<Entry>)
    requires forall i :: 0 <= i < |s| ==> !KeyLess(s[i], e)
    ensures Insert(e, s) == s + [e]
    decreases |s|
  {
    if s != [] { InsertAtEnd(e, s[1..]); }
  }

  lemma FrontAndLast(s: seq<Entry>)
    requires s != []
    ensures s == s[..|s| - 1] + [s[|s| - 1]]
  {
  }

  lemma {:induction false} SortFixesDescending(s: seq<Entry>)
    requires Descending(s)
    ensures SortDescending(s) == s
    decreases |s|
  {
    if s != [] {
      var front, last := s[..|s| - 1], s[|s| - 1];
      FrontAndLast(s);
      SortFixesDescending(front);
      InsertAtEnd(last, front);
    }
  }

  /** Unique identifiers make the order strict. */
  lemma DescendingIsStrict(s: seq<Entry>)
    requires Descending(s) && UniqueIds(s)
    ensures StrictlyDescending(s)
  {
    forall i, j | 0 <= i < j < |s| ensures KeyLess(s[j], s[i]) {
      KeyLessIsStrictTotal(s[i], s[j], s[j]);
    }
  }

  lemma {:induction false} WithoutKeepsUnique(s: seq<Entry>, id: string)
    requires UniqueIds(s)
    ensures UniqueIds(Without(s, id))
    decreases |s|
  {
    if s != [] {
      var t := Without(s[1..], id);
      WithoutKeepsUnique(s[1..], id);
      forall j | 0 <= j < |t| ensures t[j].recordId != s[0].recordId {
        assert t[j] in t;
        var k :| 1 <= k < |s| && s[k] == t[j];
      }
    }
  }

  lemma {:induction false} InsertKeepsUnique(e: Entry, s: seq<Entry>)
    requires UniqueIds(s) && forall x :: x in s ==> x.recordId != e.recordId
    ensures UniqueIds(Insert(e, s))
    decreases |s|
  {
    if s != [] {
      if !KeyLess(s[0], e) {
        var t := Insert(e, s[1..]);
        InsertKeepsUnique(e, s[1..]);
        InsertHolds(e, s[1..]);
        forall j | 0 <= j < |t| ensures t[j].recordId != s[0].recordId {
          assert t[j] in t;
        }
      }
    }
  }

  lemma {:induction false} SortKeepsUnique(s: seq<Entry>)
    requires UniqueIds(s)
    ensures UniqueIds(SortDescending(s))
    decreases |s|
  {
    if s != [] {
      var front := s[..|s| - 1];
      SortKeepsUnique(front);
      SortElements(front);
      SameElements(SortDescending(front), front);
      InsertKeepsUnique(s[|s| - 1], SortDescending(front));
    }
  }

  /** What a merge makes of a well-ordered index: still well ordered, that entry replaced or added. */
  lemma MergeIsOrdered(s: seq<Entry>, e: Entry)
    requires UniqueIds(s)
    ensures var r := Merge(s, e);
      StrictlyDescending(r) && NewestFirst(r) && UniqueIds(r) &&
      forall x :: x in r <==> x == e || (x in s && x.recordId != e.recordId)
  {
    var t := Without(s, e.recordId) + [e];
    WithoutKeepsUnique(s, e.recordId);
    assert UniqueIds(t) by {
      assert forall i :: 0 <= i < |t| - 1 ==> t[i] in Without(s, e.recordId);
    }
    SortKeepsUnique(t);
    SortIsDescending(t);
    DescendingIsStrict(SortDescending(t));
    SortElements(t);
    SameElements(SortDescending(t), t);
    NewestFirstExactly(SortDescending(t));
  }

  lemma {:induction false} WithoutInsert(e: Entry, s: seq<Entry>)
    requires forall x :: x in s ==> x.recordId != e.recordId
    ensures Without(Insert(e, s), e.recordId) == s
    decreases |s|
  {
    if s == [] {
      assert [e][1..] == [];
    } else if KeyLess(s[0], e) {
      assert ([e] + s)[1..] == s;
      WithoutOther(s, e.recordId);
    } else {
      var t := Insert(e, s[1..]);
      assert ([s[0]] + t)[1..] == t;
      WithoutInsert(e, s[1..]);
    }
  }

  lemma {:induction false} WithoutOther(s: seq<Entry>, id: string)
    requires forall x :: x in s ==> x.recordId != id
    ensures Without(s, id) == s
    decreases |s|
  {
    if s != [] { WithoutOther(s[1..], id); }
  }

  /** Merging an entry twice is merging it once, whatever the index held before. */
  lemma MergeTwice(s: seq<Entry>, e: Entry)
    ensures Merge(Merge(s, e), e) == Merge(s, e)
  {
    var others := Without(s, e.recordId);
    var sorted := SortDescending(others);
    assert (others + [e])[..|others|] == others;
    assert Merge(s, e) == Insert(e, sorted);
    SortElements(others);
    SameElements(sorted, others);
    WithoutInsert(e, sorted);
    SortIsDescending(others);
    SortFixesDescending(sorted);
    assert (sorted + [e])[..|sorted|] == sorted;
  }

  /** A strictly descending sequence is determined by the set of its entries. */
  lemma {:induction false} DeterminedBySet(a: seq<Entry>, b: seq<Entry>)
    requires StrictlyDescending(a) && StrictlyDescending(b)
    requires forall e :: e in a <==> e in b
    ensures a == b
    decreases |a|
  {
    if a == [] {
      assert forall i :: 0 <= i < |b| ==> b[i] in b;
      assert |b| == 0;
    } else {
      assert a[0] in a;
      assert b != [];
      assert b[0] in b;
      KeyLessIsStrictTotal(a[0], b[0], a[0]);
      assert a[0] == b[0];
      forall e ensures e in a[1..] <==> e in b[1..] {
        TailIsRest(a, e);
        TailIsRest(b, e);
      }
      DeterminedBySet(a[1..], b[1..]);
    }
  }

  lemma TailIsRest(s: seq<Entry>, e: Entry)
    requires s != [] && StrictlyDescending(s)
    ensures e in s[1..] <==> e in s && e != s[0]
  {
    KeyLessIsStrictTotal(s[0], s[0], s[0]);
    if e in s && e != s[0] {
      var i :| 0 <= i < |s| && s[i] == e;
      assert s[1..][i - 1] == e;
    }
  }
}
