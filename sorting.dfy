/** The meaning of an SQL `ORDER BY`: a rearrangement of the selected rows
    in which no row is placed after a row it is strictly ahead of. The
    database leaves the relative order of rows with equal sort keys open;
    the model fixes one, keeping them in table order. */
module Sorting {

  /** `ahead` is a strict order: irreflexive and transitive. Every sort key
      the application uses (a descending timestamp, a descending score with
      an ascending name) is one. */
  ghost predicate StrictOrder<T(!new)>(ahead: (T, T) -> bool)
  {
    && (forall a :: !ahead(a, a))
    && (forall a, b, c :: ahead(a, b) && ahead(b, c) ==> ahead(a, c))
  }

  /** No element is strictly ahead of an element placed before it. */
  ghost predicate Ordered<T>(s: seq<T>, ahead: (T, T) -> bool)
  {
    forall i, j :: 0 <= i < j < |s| ==> !ahead(s[j], s[i])
  }

  /** Places `x` before the first element it is strictly ahead of. */
  function Insert<T>(x: T, s: seq<T>, ahead: (T, T) -> bool): (r: seq<T>)
    ensures multiset(r) == multiset(s) + multiset{x}
    ensures |r| == |s| + 1
  {
    if s == [] then [x]
    else if ahead(x, s[0]) then [x] + s
    else
      assert s == [s[0]] + s[1..];
      [s[0]] + Insert(x, s[1..], ahead)
  }

  /** Stable insertion sort: the rows in `ORDER BY` order. */
  function Sort<T>(s: seq<T>, ahead: (T, T) -> bool): (r: seq<T>)
    ensures multiset(r) == multiset(s)
    ensures |r| == |s|
  {
    if s == [] then []
    else
      assert s == s[..|s| - 1] + [s[|s| - 1]];
      Insert(s[|s| - 1], Sort(s[..|s| - 1], ahead), ahead)
  }

  lemma {:induction false} InsertOrdered<T(!new)>(x: T, s: seq<T>, ahead: (T, T) -> bool)
    requires StrictOrder(ahead)
    requires Ordered(s, ahead)
    ensures Ordered(Insert(x, s, ahead), ahead)
  {
    if s == [] {
    } else if ahead(x, s[0]) {
      assert Insert(x, s, ahead) == [x] + s;
    } else {
      var t := Insert(x, s[1..], ahead);
      InsertOrdered(x, s[1..], ahead);
      var r := [s[0]] + t;
      assert multiset(t) == multiset(s[1..]) + multiset{x};
      forall i, j | 0 <= i < j < |r|
        ensures !ahead(r[j], r[i])
      {
        if i == 0 {
          assert r[j] in multiset(t);
          assert r[j] == x || r[j] in multiset(s[1..]);
          if r[j] != x {
            var k :| 0 <= k < |s[1..]| && s[1..][k] == r[j];
            assert s[k + 1] == r[j];
          }
        }
      }
    }
  }

  /** The sorted rows are in order: no row follows one it is ahead of. */
  lemma {:induction false} SortOrdered<T(!new)>(s: seq<T>, ahead: (T, T) -> bool)
    requires StrictOrder(ahead)
    ensures Ordered(Sort(s, ahead), ahead)
  {
    if s != [] {
      SortOrdered(s[..|s| - 1], ahead);
      InsertOrdered(s[|s| - 1], Sort(s[..|s| - 1], ahead), ahead);
    }
  }

  /** When no element is ahead of another the table order is kept. */
  lemma {:induction false} SortAllTied<T>(s: seq<T>, ahead: (T, T) -> bool)
    requires forall i, j :: 0 <= i < |s| && 0 <= j < |s| ==> !ahead(s[i], s[j])
    ensures Sort(s, ahead) == s
  {
    if s != [] {
      var p := s[..|s| - 1];
      var x := s[|s| - 1];
      assert s == p + [x];
      assert forall i :: 0 <= i < |p| ==> p[i] == s[i];
      SortAllTied(p, ahead);
      InsertAtEnd(x, p, ahead);
    }
  }

  lemma {:induction false} InsertAtEnd<T>(x: T, s: seq<T>, ahead: (T, T) -> bool)
    requires forall i :: 0 <= i < |s| ==> !ahead(x, s[i])
    ensures Insert(x, s, ahead) == s + [x]
  {
    if s != [] {
      InsertAtEnd(x, s[1..], ahead);
      assert [s[0]] + (s[1..] + [x]) == s + [x];
    }
  }

  /** No two elements share a key. */
  ghost predicate DistinctBy<T, K>(s: seq<T>, key: T -> K)
  {
    forall i, j :: 0 <= i < |s| && 0 <= j < |s| && key(s[i]) == key(s[j]) ==> i == j
  }

  /** An element of `Insert(x, s)` is `x` or an element of `s`. */
  lemma InsertMember<T>(x: T, s: seq<T>, ahead: (T, T) -> bool, k: nat)
    requires k < |Insert(x, s, ahead)|
    ensures Insert(x, s, ahead)[k] == x || Insert(x, s, ahead)[k] in s
  {
    var r := Insert(x, s, ahead);
    assert r[k] in multiset(r);
  }

  lemma {:induction false} InsertDistinct<T, K>(x: T, s: seq<T>, ahead: (T, T) -> bool, key: T -> K)
    requires DistinctBy(s, key)
    requires forall i :: 0 <= i < |s| ==> key(s[i]) != key(x)
    ensures DistinctBy(Insert(x, s, ahead), key)
  {
    if s == [] || ahead(x, s[0]) {
      ConsDistinct(x, s, key);
    } else {
      var t := Insert(x, s[1..], ahead);
      InsertDistinct(x, s[1..], ahead, key);
      forall k | 0 <= k < |t|
        ensures key(t[k]) != key(s[0])
      {
        InsertMember(x, s[1..], ahead, k);
        if t[k] != x {
          var m :| 0 <= m < |s[1..]| && s[1..][m] == t[k];
          assert s[m + 1] == t[k];
        }
      }
      ConsDistinct(s[0], t, key);
    }
  }

  /** Putting in front an element whose key is new keeps keys distinct. */
  lemma ConsDistinct<T, K>(x: T, s: seq<T>, key: T -> K)
    requires DistinctBy(s, key)
    requires forall i :: 0 <= i < |s| ==> key(s[i]) != key(x)
    ensures DistinctBy([x] + s, key)
  {
    var r := [x] + s;
    forall i, j | 0 <= i < |r| && 0 <= j < |r| && key(r[i]) == key(r[j])
      ensures i == j
    {
      if i > 0 && j > 0 {
        assert r[i] == s[i - 1] && r[j] == s[j - 1];
      }
    }
  }

  /** Sorting keeps keys distinct: a row appears once in the ordering. */
  lemma {:induction false} SortDistinct<T, K>(s: seq<T>, ahead: (T, T) -> bool, key: T -> K)
    requires DistinctBy(s, key)
    ensures DistinctBy(Sort(s, ahead), key)
  {
    if s != [] {
      var p := s[..|s| - 1];
      var x := s[|s| - 1];
      var t := Sort(p, ahead);
      assert DistinctBy(p, key);
      SortDistinct(p, ahead, key);
      forall k | 0 <= k < |t|
        ensures key(t[k]) != key(x)
      {
        assert t[k] in multiset(p);
        var m :| 0 <= m < |p| && p[m] == t[k];
        assert s[m] == t[k];
      }
      InsertDistinct(x, t, ahead, key);
    }
  }
}
