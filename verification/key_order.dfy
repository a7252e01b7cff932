/**
 * Ordering of dict members by key, as `sorted()` orders Python strings:
 * lexicographically by code point.
 */
module KeyOrder {

  /** Strict lexicographic order on strings by code point. */
  predicate StrLt(a: string, b: string) {
    if a == [] then b != []
    else if b == [] then false
    else if a[0] != b[0] then a[0] < b[0]
    else StrLt(a[1..], b[1..])
  }

  lemma {:induction false} StrLtIrreflexive(a: string)
    ensures !StrLt(a, a)
  {
    if a != [] {
      StrLtIrreflexive(a[1..]);
    }
  }

  lemma {:induction false} StrLtTransitive(a: string, b: string, c: string)
    requires StrLt(a, b) && StrLt(b, c)
    ensures StrLt(a, c)
  {
    if a != [] && b != [] && c != [] && a[0] == b[0] && b[0] == c[0] {
      StrLtTransitive(a[1..], b[1..], c[1..]);
    }
  }

  /** Any two distinct strings are ordered one way or the other. */
  lemma {:induction false} StrLtTotal(a: string, b: string)
    requires a != b
    ensures StrLt(a, b) || StrLt(b, a)
  {
    if a != [] && b != [] && a[0] == b[0] {
      assert a == [a[0]] + a[1..] && b == [b[0]] + b[1..];
      StrLtTotal(a[1..], b[1..]);
    }
  }

  lemma StrLtAsymmetric(a: string, b: string)
    requires StrLt(a, b)
    ensures !StrLt(b, a)
  {
    if StrLt(b, a) {
      StrLtTransitive(a, b, a);
      StrLtIrreflexive(a);
    }
  }

  predicate DistinctKeys<V>(s: seq<(string, V)>) {
    forall i, j :: 0 <= i < j < |s| ==> s[i].0 != s[j].0
  }

  predicate SortedByKey<V>(s: seq<(string, V)>) {
    forall i, j :: 0 <= i < j < |s| ==> StrLt(s[i].0, s[j].0)
  }

  /** Inserts a member before the first member with a larger key. */
  function Insert<V>(p: (string, V), s: seq<(string, V)>): (r: seq<(string, V)>)
    ensures multiset(r) == multiset(s) + multiset{p}
  {
    if s == [] then [p]
    else if StrLt(p.0, s[0].0) then [p] + s
    else
      assert s == [s[0]] + s[1..];
      [s[0]] + Insert(p, s[1..])
  }

  /** Insertion sort by key. */
  function SortByKey<V>(s: seq<(string, V)>): (r: seq<(string, V)>)
    ensures multiset(r) == multiset(s)
  {
    if s == [] then []
    else
      assert s == [s[0]] + s[1..];
      Insert(s[0], SortByKey(s[1..]))
  }

  lemma {:induction false} InsertSorted<V>(p: (string, V), s: seq<(string, V)>)
    requires SortedByKey(s)
    requires forall i :: 0 <= i < |s| ==> s[i].0 != p.0
    ensures SortedByKey(Insert(p, s))
  {
    if s != [] && !StrLt(p.0, s[0].0) {
      StrLtTotal(p.0, s[0].0);
      InsertSorted(p, s[1..]);
      var r := Insert(p, s);
      var t := Insert(p, s[1..]);
      assert r == [s[0]] + t;
      forall j | 0 < j < |r|
        ensures StrLt(s[0].0, r[j].0)
      {
        assert r[j] in multiset(t);
        assert r[j] in multiset(s[1..]) + multiset{p};
        if r[j] != p {
          assert r[j] in s[1..];
        }
      }
    } else if s != [] {
      forall j | 0 < j < |s|
        ensures StrLt(p.0, s[j].0)
      {
        StrLtTransitive(p.0, s[0].0, s[j].0);
      }
    }
  }

  /** With distinct keys, sorting yields members in strictly ascending key order. */
  lemma {:induction false} SortByKeySorted<V>(s: seq<(string, V)>)
    requires DistinctKeys(s)
    ensures SortedByKey(SortByKey(s))
    ensures DistinctKeys(SortByKey(s))
  {
    if s != [] {
      var t := SortByKey(s[1..]);
      SortByKeySorted(s[1..]);
      forall i | 0 <= i < |t|
        ensures t[i].0 != s[0].0
      {
        assert t[i] in multiset(s[1..]);
        var k :| 0 <= k < |s[1..]| && s[1..][k] == t[i];
        assert s[k + 1] == t[i];
      }
      InsertSorted(s[0], t);
    }
    var r := SortByKey(s);
    forall i, j | 0 <= i < j < |r|
      ensures r[i].0 != r[j].0
    {
      StrLtIrreflexive(r[i].0);
    }
  }

  /** Sorting keeps exactly the members it was given. */
  lemma SortByKeyMembers<V>(s: seq<(string, V)>)
    ensures forall x :: x in SortByKey(s) <==> x in s
  {
    var r := SortByKey(s);
    forall x
      ensures x in r <==> x in s
    {
      assert x in r <==> x in multiset(r);
      assert x in s <==> x in multiset(s);
    }
  }

  /** With distinct keys, the sorted order depends only on which members there are. */
  lemma SortByKeyDeterminedBySet<V>(a: seq<(string, V)>, b: seq<(string, V)>)
    requires DistinctKeys(a) && DistinctKeys(b)
    requires forall x :: x in a <==> x in b
    ensures SortByKey(a) == SortByKey(b)
  {
    SortByKeySorted(a);
    SortByKeySorted(b);
    SortByKeyMembers(a);
    SortByKeyMembers(b);
    SortedUnique(SortByKey(a), SortByKey(b));
  }

  /** Two key-sorted sequences holding the same members are the same sequence. */
  lemma {:induction false} SortedUnique<V>(a: seq<(string, V)>, b: seq<(string, V)>)
    requires SortedByKey(a) && SortedByKey(b)
    requires forall x :: x in a <==> x in b
    ensures a == b
  {
    assert a != [] ==> a[0] in b;
    assert b != [] ==> b[0] in a;
    if a != [] && b != [] {
      assert a[0] in b;
      assert b[0] in a;
      var j :| 0 <= j < |b| && b[j] == a[0];
      var k :| 0 <= k < |a| && a[k] == b[0];
      if j > 0 {
        if k > 0 {
          StrLtTransitive(a[0].0, a[k].0, a[0].0);
        }
        StrLtIrreflexive(a[0].0);
      }
      assert a[0] == b[0];
      forall x
        ensures x in a[1..] <==> x in b[1..]
      {
        if x in a[1..] {
          var i :| 0 <= i < |a[1..]| && a[1..][i] == x;
          assert StrLt(a[0].0, a[i + 1].0);
          StrLtIrreflexive(x.0);
          assert x != b[0];
          assert x in b;
        }
        if x in b[1..] {
          var i :| 0 <= i < |b[1..]| && b[1..][i] == x;
          assert StrLt(b[0].0, b[i + 1].0);
          StrLtIrreflexive(x.0);
          assert x != a[0];
          assert x in a;
        }
      }
      SortedUnique(a[1..], b[1..]);
      assert a == [a[0]] + a[1..] && b == [b[0]] + b[1..];
    }
  }

  /** Two members already in key order sort to themselves. */
  lemma SortTwo<V>(e: (string, V), s: (string, V))
    requires StrLt(e.0, s.0)
    ensures SortByKey([e, s]) == [e, s]
  {
    assert [e, s][1..] == [s];
    assert [s][1..] == [];
    assert SortByKey([s]) == Insert(s, []) == [s];
    assert SortByKey([e, s]) == Insert(e, [s]);
  }

  /** A member whose key is below neither of two others is inserted after both. */
  lemma InsertLast<V>(t: (string, V), e: (string, V), s: (string, V))
    requires !StrLt(t.0, e.0) && !StrLt(t.0, s.0)
    ensures Insert(t, [e, s]) == [e, s, t]
  {
    assert [e, s][1..] == [s];
    assert [s][1..] == [];
    assert Insert(t, []) == [t];
    assert Insert(t, [s]) == [s] + [t];
    assert Insert(t, [e, s]) == [e] + Insert(t, [s]);
  }

  /** Three members inserted with keys in the order k1, k2, k3, where k2 < k3 < k1, sort to k2, k3, k1. */
  lemma SortInsertionOrder<V>(t: (string, V), e: (string, V), s: (string, V))
    requires StrLt(e.0, s.0) && StrLt(s.0, t.0)
    ensures SortByKey([t, e, s]) == [e, s, t]
  {
    StrLtAsymmetric(s.0, t.0);
    StrLtTransitive(e.0, s.0, t.0);
    StrLtAsymmetric(e.0, t.0);
    SortTwo(e, s);
    assert [t, e, s][1..] == [e, s];
    assert SortByKey([t, e, s]) == Insert(t, SortByKey([e, s]));
    InsertLast(t, e, s);
  }
}
