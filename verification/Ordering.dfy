/** Sorting and selecting finite tables: what an SQL `where ... order by` answers. */
module Ordering {

  ghost predicate TotalPreorder<T(!new)>(le: (T, T) -> bool) {
    && (forall x, y :: le(x, y) || le(y, x))
    && (forall x, y, z :: le(x, y) && le(y, z) ==> le(x, z))
  }

  ghost predicate SortedBy<T(!new)>(le: (T, T) -> bool, s: seq<T>) {
    forall i, j | 0 <= i < j < |s| :: le(s[i], s[j])
  }

  /** The elements of `s` that satisfy `p`, in their order in `s`. */
  function Select<T(!new)>(p: T -> bool, s: seq<T>): (r: seq<T>)
    ensures forall x :: x in r <==> x in s && p(x)
  {
    if s == [] then []
    else if p(s[0]) then [s[0]] + Select(p, s[1..])
    else Select(p, s[1..])
  }

  lemma {:induction false} SelectMultiset<T(!new)>(p: T -> bool, s: seq<T>, x: T)
    ensures multiset(Select(p, s))[x] == if p(x) then multiset(s)[x] else 0
  {
    if s != [] {
      assert s == [s[0]] + s[1..];
      SelectMultiset(p, s[1..], x);
    }
  }

  function Insert<T(!new)>(le: (T, T) -> bool, x: T, s: seq<T>): (r: seq<T>)
    ensures multiset(r) == multiset(s) + multiset{x}
  {
    if s == [] then [x]
    else if le(x, s[0]) then [x] + s
    else
      assert s == [s[0]] + s[1..];
      [s[0]] + Insert(le, x, s[1..])
  }

  function Sort<T(!new)>(le: (T, T) -> bool, s: seq<T>): (r: seq<T>)
    ensures multiset(r) == multiset(s)
  {
    if s == [] then []
    else
      assert s == [s[0]] + s[1..];
      Insert(le, s[0], Sort(le, s[1..]))
  }

  lemma {:induction false} InsertSorted<T(!new)>(le: (T, T) -> bool, x: T, s: seq<T>)
    requires TotalPreorder(le) && SortedBy(le, s)
    ensures SortedBy(le, Insert(le, x, s))
  {
    if s != [] && !le(x, s[0]) {
      var rest := Insert(le, x, s[1..]);
      InsertSorted(le, x, s[1..]);
      forall y | y in rest
        ensures le(s[0], y)
      {
        assert y in multiset(rest);
        assert y == x || y in s[1..];
      }
    }
  }

  lemma {:induction false} SortSorted<T(!new)>(le: (T, T) -> bool, s: seq<T>)
    requires TotalPreorder(le)
    ensures SortedBy(le, Sort(le, s))
  {
    if s != [] {
      SortSorted(le, s[1..]);
      InsertSorted(le, s[0], Sort(le, s[1..]));
    }
  }

  lemma SortMembers<T(!new)>(le: (T, T) -> bool, s: seq<T>)
    ensures forall x :: x in Sort(le, s) <==> x in s
    ensures |Sort(le, s)| == |s|
  {
    var r := Sort(le, s);
    forall x
      ensures x in r <==> x in s
    {
      assert x in multiset(r) <==> x in multiset(s);
    }
    assert |multiset(r)| == |multiset(s)|;
  }

  ghost predicate NoRepeats<T(!new)>(s: seq<T>) {
    forall i, j | 0 <= i < j < |s| :: s[i] != s[j]
  }

  lemma {:induction false} NoRepeatsCounts<T(!new)>(s: seq<T>)
    ensures NoRepeats(s) <==> forall x :: multiset(s)[x] <= 1
  {
    if s != [] {
      var rest := s[1..];
      assert s == [s[0]] + rest;
      NoRepeatsCounts(rest);
      assert multiset(s) == multiset{s[0]} + multiset(rest);
      if NoRepeats(s) {
        assert NoRepeats(rest) by {
          forall i, j | 0 <= i < j < |rest| ensures rest[i] != rest[j] {
            assert s[i + 1] != s[j + 1];
          }
        }
        assert s[0] !in rest;
        forall x ensures multiset(s)[x] <= 1 {}
      }
      if forall x :: multiset(s)[x] <= 1 {
        forall x ensures multiset(rest)[x] <= 1 {
          assert multiset(s)[x] <= 1;
        }
        assert multiset(s)[s[0]] <= 1;
        assert s[0] !in rest;
      }
    }
  }

  /** Sorting a selection of a table without repeats has no repeats. */
  lemma SortSelectNoRepeats<T(!new)>(le: (T, T) -> bool, p: T -> bool, s: seq<T>)
    requires NoRepeats(s)
    ensures NoRepeats(Sort(le, Select(p, s)))
  {
    NoRepeatsCounts(s);
    var r := Sort(le, Select(p, s));
    forall x
      ensures multiset(r)[x] <= 1
    {
      SelectMultiset(p, s, x);
    }
    NoRepeatsCounts(r);
  }

  ghost predicate Strict<T(!new)>(lt: (T, T) -> bool, s: seq<T>) {
    forall i, j | 0 <= i < j < |s| :: lt(s[i], s[j])
  }

  /** An ordered listing of a set of elements is unique. */
  lemma {:induction false} StrictUnique<T(!new)>(lt: (T, T) -> bool, a: seq<T>, b: seq<T>)
    requires forall x, y :: !(lt(x, y) && lt(y, x))
    requires Strict(lt, a) && Strict(lt, b)
    requires forall x :: x in a <==> x in b
    ensures a == b
  {
    assert |b| > 0 ==> b[0] in a;
    if a != [] {
      assert a[0] in b;
      var i :| 0 <= i < |a| && a[i] == b[0];
      var j :| 0 <= j < |b| && b[j] == a[0];
      assert forall k | 0 < k < |a| :: lt(a[0], a[k]);
      assert forall k | 0 < k < |b| :: lt(b[0], b[k]);
      assert a[0] == b[0];
      forall x
        ensures x in a[1..] <==> x in b[1..]
      {
        if x in a[1..] {
          var k :| 1 <= k < |a| && a[k] == x;
          assert lt(a[0], a[k]);
          assert x in b && x != b[0];
        }
        if x in b[1..] {
          var k :| 1 <= k < |b| && b[k] == x;
          assert lt(b[0], b[k]);
          assert x in a && x != a[0];
        }
      }
      StrictUnique(lt, a[1..], b[1..]);
      assert a == [a[0]] + a[1..] && b == [b[0]] + b[1..];
    }
  }
}
