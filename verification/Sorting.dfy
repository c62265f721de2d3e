/** The stable sort that Python's `sorted` performs, for any strict weak order. */
module Sorting {

  ghost predicate StrictWeakOrder<T(!new)>(less: (T, T) -> bool) {
    && (forall a, b :: less(a, b) ==> !less(b, a))
    && forall a, b, c :: less(a, c) ==> less(a, b) || less(b, c)
  }

  ghost predicate InOrder<T>(s: seq<T>, less: (T, T) -> bool) {
    forall i, j | 0 <= i < j < |s| :: !less(s[j], s[i])
  }

  function Insert<T>(x: T, s: seq<T>, less: (T, T) -> bool): (r: seq<T>)
    ensures multiset(r) == multiset([x]) + multiset(s)
  {
    if |s| == 0 || less(x, s[0]) then [x] + s else
      assert s == [s[0]] + s[1..];
      [s[0]] + Insert(x, s[1..], less)
  }

  /** Equal elements keep their order. */
  function Sort<T>(s: seq<T>, less: (T, T) -> bool): (r: seq<T>)
    ensures multiset(r) == multiset(s)
    ensures |r| == |s|
  {
    if |s| == 0 then [] else
      assert s == s[..|s| - 1] + [s[|s| - 1]];
      var r := Insert(s[|s| - 1], Sort(s[..|s| - 1], less), less);
      assert |r| == |multiset(r)| == |multiset(s)| == |s|;
      r
  }

  lemma {:induction false} SortInOrder<T(!new)>(s: seq<T>, less: (T, T) -> bool)
    requires StrictWeakOrder(less)
    ensures InOrder(Sort(s, less), less)
  {
    if |s| > 0 {
      SortInOrder(s[..|s| - 1], less);
      InsertInOrder(s[|s| - 1], Sort(s[..|s| - 1], less), less);
    }
  }

  lemma {:induction false} InsertInOrder<T(!new)>(x: T, s: seq<T>, less: (T, T) -> bool)
    requires StrictWeakOrder(less) && InOrder(s, less)
    ensures InOrder(Insert(x, s, less), less)
  {
    if |s| == 0 {
    } else if less(x, s[0]) {
      forall j | 0 <= j < |s| ensures !less(s[j], x) {
        assert less(s[j], s[0]) || less(s[0], x) || !less(s[j], x);
      }
    } else {
      InsertInOrder(x, s[1..], less);
      var r := Insert(x, s[1..], less);
      forall j | 0 <= j < |r| ensures !less(r[j], s[0]) {
        assert r[j] in multiset(r);
        if r[j] in multiset(s[1..]) { assert r[j] in s[1..]; } else { assert r[j] in multiset([x]); }
      }
    }
  }

  lemma SortMembers<T>(s: seq<T>, less: (T, T) -> bool)
    ensures forall x :: x in Sort(s, less) <==> x in s
  {
    Rearranged(Sort(s, less), s);
  }

  lemma Rearranged<T>(s: seq<T>, r: seq<T>)
    requires multiset(s) == multiset(r)
    ensures forall x :: x in s <==> x in r
  {
    forall x ensures x in s <==> x in r {
      assert x in s <==> x in multiset(s);
      assert x in r <==> x in multiset(r);
    }
  }

  /** Sorting leaves an ordered list as it is. */
  lemma {:induction false} SortOrdered<T>(s: seq<T>, less: (T, T) -> bool)
    requires InOrder(s, less)
    ensures Sort(s, less) == s
  {
    if |s| > 0 {
      var init, last := s[..|s| - 1], s[|s| - 1];
      assert s == init + [last];
      SortLast(s, less);
      InOrderButLast(s, less);
      hide *;
      SortOrdered(init, less);
      InsertLast(last, init, less);
    }
  }

  lemma SortLast<T>(s: seq<T>, less: (T, T) -> bool)
    requires |s| > 0
    ensures Sort(s, less) == Insert(s[|s| - 1], Sort(s[..|s| - 1], less), less)
  {
    hide Insert;
  }

  lemma InOrderButLast<T>(s: seq<T>, less: (T, T) -> bool)
    requires |s| > 0 && InOrder(s, less)
    ensures InOrder(s[..|s| - 1], less)
    ensures var init := s[..|s| - 1]; forall i | 0 <= i < |init| :: !less(s[|s| - 1], init[i])
  {
    var init := s[..|s| - 1];
    forall i, j | 0 <= i < j < |init| ensures !less(init[j], init[i]) {
      assert init[i] == s[i] && init[j] == s[j];
    }
    forall i | 0 <= i < |init| ensures !less(s[|s| - 1], init[i]) {
      assert init[i] == s[i];
    }
  }

  lemma {:induction false} InsertLast<T>(x: T, s: seq<T>, less: (T, T) -> bool)
    requires forall i | 0 <= i < |s| :: !less(x, s[i])
    ensures Insert(x, s, less) == s + [x]
  {
    if |s| > 0 {
      InsertLast(x, s[1..], less);
      assert s == [s[0]] + s[1..];
    }
  }

  /** The order tells apart any two different elements of the list. */
  ghost predicate Decides<T>(s: seq<T>, less: (T, T) -> bool) {
    forall i, j | 0 <= i < |s| && 0 <= j < |s| && s[i] != s[j] :: less(s[i], s[j]) || less(s[j], s[i])
  }

  /** Sorting gives two lists the same form exactly when one is a rearrangement of the other. */
  lemma SortCanonical<T(!new)>(s: seq<T>, r: seq<T>, less: (T, T) -> bool)
    requires StrictWeakOrder(less) && Decides(s, less)
    ensures Sort(s, less) == Sort(r, less) <==> multiset(s) == multiset(r)
  {
    if multiset(s) == multiset(r) {
      SortInOrder(s, less);
      SortInOrder(r, less);
      Rearranged(s, Sort(s, less));
      var a := Sort(s, less);
      forall i, j | 0 <= i < |a| && 0 <= j < |a| && a[i] != a[j] ensures less(a[i], a[j]) || less(a[j], a[i]) {
        assert a[i] in s && a[j] in s;
      }
      OneOrder(a, Sort(r, less), less);
    }
  }

  lemma {:induction false} OneOrder<T>(a: seq<T>, b: seq<T>, less: (T, T) -> bool)
    requires multiset(a) == multiset(b) && Decides(a, less) && InOrder(a, less) && InOrder(b, less)
    ensures a == b
  {
    assert |a| == |multiset(a)| == |multiset(b)| == |b|;
    if |a| > 0 {
      SameFirst(a, b, less);
      RestRearranged(a);
      RestRearranged(b);
      OneOrder(a[1..], b[1..], less);
    }
  }

  lemma RestRearranged<T>(a: seq<T>)
    requires |a| > 0
    ensures a == [a[0]] + a[1..] && multiset(a[1..]) == multiset(a) - multiset([a[0]])
  {
    assert a == [a[0]] + a[1..];
  }

  lemma SameFirst<T>(a: seq<T>, b: seq<T>, less: (T, T) -> bool)
    requires multiset(a) == multiset(b) && Decides(a, less) && InOrder(a, less) && InOrder(b, less)
    requires |a| > 0 && |b| > 0
    ensures a[0] == b[0]
  {
    Rearranged(a, b);
    assert a[0] in b && b[0] in a;
    var i :| 0 <= i < |b| && b[i] == a[0];
    var j :| 0 <= j < |a| && a[j] == b[0];
  }

  /** A rearrangement of distinct elements has distinct elements. */
  lemma {:induction false} DistinctRearranged<T>(s: seq<T>, r: seq<T>)
    requires multiset(s) == multiset(r) && forall i, j | 0 <= i < j < |s| :: s[i] != s[j]
    ensures forall i, j | 0 <= i < j < |r| :: r[i] != r[j]
  {
    forall i, j | 0 <= i < j < |r| ensures r[i] != r[j] {
      if r[i] == r[j] {
        assert r == r[..j] + r[j..] && r[i] in r[..j] && r[j] in r[j..];
        assert multiset(r)[r[i]] >= 2;
        OnceEach(s, r[i]);
      }
    }
  }

  lemma {:induction false} OnceEach<T>(s: seq<T>, x: T)
    requires forall i, j | 0 <= i < j < |s| :: s[i] != s[j]
    ensures multiset(s)[x] <= 1
  {
    if |s| > 0 {
      assert s == [s[0]] + s[1..];
      OnceEach(s[1..], x);
    }
  }
}
