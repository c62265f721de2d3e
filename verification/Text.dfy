/** Code-point order of strings, and sorting by a string key. */
module Text {
  import opened Sorting

  predicate Before(a: string, b: string) {
    |b| > 0 && (|a| == 0 || a[0] < b[0] || (a[0] == b[0] && Before(a[1..], b[1..])))
  }

  predicate AtMost(a: string, b: string) {
    a == b || Before(a, b)
  }

  lemma {:induction false} BeforeIrreflexive(a: string)
    ensures !Before(a, a)
  {
    if |a| > 0 { BeforeIrreflexive(a[1..]); }
  }

  lemma {:induction false} BeforeTransitive(a: string, b: string, c: string)
    requires Before(a, b) && Before(b, c)
    ensures Before(a, c)
  {
    if |a| > 0 && a[0] == b[0] && b[0] == c[0] {
      BeforeTransitive(a[1..], b[1..], c[1..]);
    }
  }

  lemma {:induction false} BeforeTotal(a: string, b: string)
    ensures a == b || Before(a, b) || Before(b, a)
  {
    if |a| > 0 && |b| > 0 && a[0] == b[0] {
      BeforeTotal(a[1..], b[1..]);
      assert a == [a[0]] + a[1..] && b == [b[0]] + b[1..];
    }
  }

  lemma AtMostTransitive(a: string, b: string, c: string)
    requires AtMost(a, b) && AtMost(b, c)
    ensures AtMost(a, c)
  {
    if a != b && b != c { BeforeTransitive(a, b, c); }
  }

  /** Strings that first differ at position k are ordered by their characters there. */
  lemma {:induction false} BeforeAt(a: string, b: string, k: nat)
    requires k < |a| && k < |b| && a[..k] == b[..k] && a[k] < b[k]
    ensures Before(a, b)
  {
    if k > 0 {
      assert a[0] == a[..k][0] == b[..k][0] == b[0];
      assert a[1..][..k - 1] == a[..k][1..] == b[..k][1..] == b[1..][..k - 1];
      BeforeAt(a[1..], b[1..], k - 1);
    }
  }

  /** A common prefix does not change the order. */
  lemma {:induction false} BeforePrefixed(p: string, a: string, b: string)
    ensures Before(p + a, p + b) <==> Before(a, b)
  {
    if |p| == 0 {
      assert p + a == a && p + b == b;
    } else {
      assert (p + a)[1..] == p[1..] + a && (p + b)[1..] == p[1..] + b;
      BeforePrefixed(p[1..], a, b);
    }
  }

  lemma NotBefore(a: string, b: string)
    requires AtMost(a, b)
    ensures !Before(b, a)
  {
    BeforeIrreflexive(a);
    if a != b && Before(b, a) { BeforeTransitive(a, b, a); }
  }

  lemma BeforeIsOrder()
    ensures StrictWeakOrder(Before)
  {
    forall a, b | Before(a, b) ensures !Before(b, a) { NotBefore(a, b); }
    forall a, b, c | Before(a, c) ensures Before(a, b) || Before(b, c) {
      BeforeTotal(a, b);
      BeforeTotal(b, c);
      if !Before(a, b) && !Before(b, c) {
        AtMostTransitive(c, b, a);
        NotBefore(c, a);
      }
    }
  }

  function ByKey<T>(key: T -> string): (T, T) -> bool {
    (a, b) => Before(key(a), key(b))
  }

  lemma ByKeyIsOrder<T(!new)>(key: T -> string)
    ensures StrictWeakOrder(ByKey(key))
  {
    BeforeIsOrder();
    hide Before;
  }

  ghost predicate Ordered<T>(s: seq<T>, key: T -> string) {
    forall i, j | 0 <= i < j < |s| :: AtMost(key(s[i]), key(s[j]))
  }

  /** `sorted(s, key=key)`. */
  function SortBy<T(!new)>(s: seq<T>, key: T -> string): (r: seq<T>)
    ensures multiset(r) == multiset(s)
    ensures |r| == |s|
    ensures Ordered(r, key)
  {
    var r := Sort(s, ByKey(key));
    SortedByKey(s, r, key);
    r
  }

  lemma SortedByKey<T(!new)>(s: seq<T>, r: seq<T>, key: T -> string)
    requires r == Sort(s, ByKey(key))
    ensures Ordered(r, key)
  {
    ByKeyIsOrder(key);
    SortInOrder(s, ByKey(key));
    forall i, j | 0 <= i < j < |r| ensures AtMost(key(r[i]), key(r[j])) { BeforeTotal(key(r[i]), key(r[j])); }
  }

  /** Sorting leaves an ordered list as it is. */
  lemma SortByOrdered<T(!new)>(s: seq<T>, key: T -> string)
    requires Ordered(s, key)
    ensures SortBy(s, key) == s
  {
    forall i, j | 0 <= i < j < |s| ensures !ByKey(key)(s[j], s[i]) { NotBefore(key(s[i]), key(s[j])); }
    SortOrdered(s, ByKey(key));
  }

  lemma SortByMembers<T(!new)>(s: seq<T>, key: T -> string)
    ensures forall x :: x in SortBy(s, key) <==> x in s
  {
    Rearranged(SortBy(s, key), s);
  }
}
