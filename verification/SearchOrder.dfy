/** The order in which a breadth-first search over sorted neighbour lists reports paths, and what a cap cuts off. */
module SearchOrder {
  import opened Common
  import opened PathSearch
  import opened Text

  predicate Whole<E>(t: Trail<E>) {
    |t.nodes| == |t.edges| + 1
  }

  /** The i-th step: the node reached and the label of the arc. */
  function StepAt<E>(t: Trail<E>, i: nat): (string, E)
    requires Whole(t) && i < |t.edges|
  {
    (t.nodes[i + 1], t.edges[i])
  }

  ghost predicate SameTo<E>(t: Trail<E>, u: Trail<E>, i: nat)
    requires Whole(t) && Whole(u) && i <= |t.edges| && i <= |u.edges|
  {
    t.nodes[..i + 1] == u.nodes[..i + 1] && t.edges[..i] == u.edges[..i]
  }

  /** Where the two part, the first takes the step that sorts first. */
  ghost predicate PartsFirst<E>(t: Trail<E>, u: Trail<E>, key: ((string, E)) -> string)
    requires Whole(t) && Whole(u) && |t.edges| == |u.edges|
  {
    forall i: nat | i < |t.edges| && SameTo(t, u, i) && StepAt(t, i) != StepAt(u, i) ::
      AtMost(key(StepAt(t, i)), key(StepAt(u, i)))
  }

  /** Shorter, or as long and first where they part. */
  ghost predicate NoLater<E>(t: Trail<E>, u: Trail<E>, key: ((string, E)) -> string) {
    && Whole(t) && Whole(u)
    && (|t.edges| < |u.edges| || (|t.edges| == |u.edges| && PartsFirst(t, u, key)))
  }

  ghost predicate InTurn<E>(ts: seq<Trail<E>>, key: ((string, E)) -> string) {
    forall i, j | 0 <= i < j < |ts| :: NoLater(ts[i], ts[j], key)
  }

  /**
   The reported paths are in order, and a path that is missing would have been found from a trail that comes after
   those the reported ones were found from.
  */
  ghost predicate OrderedSearch<E(!new)>(arcs: set<Arc<E>>, from: string, to: string, depth: int,
                                         hits: seq<Trail<E>>, key: ((string, E)) -> string) {
    && InTurn(hits, key)
    && forall t, h | SimplePath(arcs, from, to, t) && |t.edges| <= depth && t !in hits && h in hits ::
         NoLater(Parent(h), Parent(t), key)
  }

  // ---- The search keeps the order ----

  /** Queue and results are in order, and whatever was expanded comes before what is queued. */
  ghost predicate SearchOrdered<E>(queue: seq<Trail<E>>, hits: seq<Trail<E>>, key: ((string, E)) -> string) {
    && (forall t | t in queue :: Whole(t)) && (forall t | t in hits :: Whole(t))
    && InTurn(queue, key) && InTurn(hits, key)
    && (forall h | h in hits :: |h.edges| > 0)
    && (forall h, x | h in hits && x in queue :: NoLater(Parent(h), x, key) && Parent(h) != x)
    && (forall x, z | x in queue && z in queue && |x.edges| == |z.edges| + 1 ::
          NoLater(Parent(x), z, key) && Parent(x) != z)
  }

  lemma OrderStarts<E>(from: string, key: ((string, E)) -> string)
    ensures SearchOrdered([Trail([from], [])], [], key)
  {
  }

  lemma OrderDrops<E>(queue: seq<Trail<E>>, hits: seq<Trail<E>>, key: ((string, E)) -> string)
    requires |queue| > 0 && SearchOrdered(queue, hits, key)
    ensures SearchOrdered(queue[1..], hits, key)
  {
    hide NoLater, Whole, Parent;
    assert forall x | x in queue[1..] :: x in queue;
  }

  lemma ChildOfParent<E>(t: Trail<E>)
    requires Whole(t) && |t.edges| > 0
    ensures Whole(Parent(t)) && OneMore(Parent(t), t)
  {
  }

  /** Extensions of different trails are in the order of those trails. */
  lemma ChildrenInTurn<E>(p: Trail<E>, q: Trail<E>, x: Trail<E>, y: Trail<E>, key: ((string, E)) -> string)
    requires NoLater(p, q, key) && p != q && |p.edges| == |q.edges| && OneMore(p, x) && OneMore(q, y)
    ensures NoLater(x, y, key)
  {
    SameParents(p, q, x, y);
    forall i: nat | i < |p.edges| && SameTo(x, y, i) && StepAt(x, i) != StepAt(y, i)
      ensures AtMost(key(StepAt(x, i)), key(StepAt(y, i)))
    {
      PrefixSteps(p, x, i);
      PrefixSteps(q, y, i);
      assert SameTo(p, q, i);
    }
  }

  lemma SameParents<E>(p: Trail<E>, q: Trail<E>, x: Trail<E>, y: Trail<E>)
    requires Whole(p) && Whole(q) && |p.edges| == |q.edges| && OneMore(p, x) && OneMore(q, y)
    ensures Whole(x) && Whole(y) && (SameTo(x, y, |p.edges|) ==> p == q)
  {
    PrefixSteps(p, x, |p.edges|);
    PrefixSteps(q, y, |q.edges|);
  }

  lemma PrefixSteps<E>(p: Trail<E>, x: Trail<E>, i: nat)
    requires Whole(p) && OneMore(p, x) && i <= |p.edges|
    ensures Whole(x) && x.nodes[..i + 1] == p.nodes[..i + 1] && x.edges[..i] == p.edges[..i]
    ensures i < |p.edges| ==> StepAt(x, i) == StepAt(p, i)
    ensures p.nodes == p.nodes[..|p.edges| + 1] && p.edges == p.edges[..|p.edges|]
  {
  }

  lemma SiblingsInTurn<E>(q: Trail<E>, v: string, e: E, w: string, f: E, key: ((string, E)) -> string)
    requires Whole(q) && AtMost(key((v, e)), key((w, f)))
    ensures NoLater(Extend(q, e, v), Extend(q, f, w), key)
  {
    var x, y := Extend(q, e, v), Extend(q, f, w);
    forall i: nat | i < |q.edges| ensures StepAt(x, i) == StepAt(y, i) {
      assert StepAt(x, i) == StepAt(q, i) && StepAt(y, i) == StepAt(q, i);
    }
    assert StepAt(x, |q.edges|) == (v, e) && StepAt(y, |q.edges|) == (w, f);
  }

  lemma EarlierExtension<E>(q: Trail<E>, outs: seq<(string, E)>, to: string, t: Trail<E>, key: ((string, E)) -> string)
    requires Whole(q) && |outs| > 0 && Ordered(outs, key)
    requires t in Hits(q, outs[..|outs| - 1], to) || t in Pushes(q, outs[..|outs| - 1], to)
    ensures var (v, e) := outs[|outs| - 1]; NoLater(t, Extend(q, e, v), key)
  {
    var init := outs[..|outs| - 1];
    var (v, e) := outs[|outs| - 1];
    ExtensionMembers(q, init, to, t);
    var w, f := t.nodes[|t.nodes| - 1], t.edges[|t.edges| - 1];
    var k :| 0 <= k < |init| && init[k] == (w, f);
    assert outs[k] == (w, f);
    SiblingsInTurn(q, w, f, v, e, key);
  }

  /** Over a sorted neighbour list the extensions come in order. */
  lemma {:induction false} ExtensionsInTurn<E>(q: Trail<E>, outs: seq<(string, E)>, to: string,
                                               key: ((string, E)) -> string)
    requires Whole(q) && Ordered(outs, key)
    ensures InTurn(Hits(q, outs, to), key) && InTurn(Pushes(q, outs, to), key)
  {
    if |outs| > 0 {
      var init := outs[..|outs| - 1];
      var (v, e) := outs[|outs| - 1];
      ExtensionsInTurn(q, init, to, key);
      forall t | t in Hits(q, init, to) ensures NoLater(t, Extend(q, e, v), key) {
        EarlierExtension(q, outs, to, t, key);
      }
      forall t | t in Pushes(q, init, to) ensures NoLater(t, Extend(q, e, v), key) {
        EarlierExtension(q, outs, to, t, key);
      }
      AppendInTurn(Hits(q, init, to), [Extend(q, e, v)], key);
      AppendInTurn(Pushes(q, init, to), [Extend(q, e, v)], key);
      hide NoLater, Ordered, Extend;
      assert Hits(q, init, to) + [] == Hits(q, init, to) && Pushes(q, init, to) + [] == Pushes(q, init, to);
    }
  }

  lemma AppendInTurn<E>(a: seq<Trail<E>>, b: seq<Trail<E>>, key: ((string, E)) -> string)
    requires InTurn(a, key) && InTurn(b, key) && forall x, y | x in a && y in b :: NoLater(x, y, key)
    ensures InTurn(a + b, key)
  {
    hide NoLater;
  }

  /** A trail queued or reported before stands before an extension of the head. */
  lemma BeforeExtension<E>(p: Trail<E>, q: Trail<E>, x: Trail<E>, y: Trail<E>, key: ((string, E)) -> string)
    requires NoLater(p, q, key) && p != q && OneMore(p, x) && OneMore(q, y) && Whole(x)
    ensures NoLater(x, y, key)
  {
    if |p.edges| == |q.edges| { ChildrenInTurn(p, q, x, y, key); }
  }

  lemma QueueGrows<E>(queue: seq<Trail<E>>, pushes: seq<Trail<E>>, hits: seq<Trail<E>>, key: ((string, E)) -> string)
    requires |queue| > 0 && SearchOrdered(queue, hits, key) && Leveled(queue, hits) && NoDuplicates(queue)
    requires InTurn(pushes, key) && forall t | t in pushes :: OneMore(queue[0], t)
    ensures InTurn(queue[1..] + pushes, key)
  {
    var q, rest := queue[0], queue[1..];
    forall x, y | x in rest && y in pushes ensures NoLater(x, y, key) {
      assert x in queue && q in queue && OneMore(q, y);
      var i :| 0 < i < |queue| && queue[i] == x;
      if |x.edges| == |q.edges| + 1 {
        ChildOfParent(x);
        BeforeExtension(Parent(x), q, x, y, key);
      }
    }
    OrderDrops(queue, hits, key);
    AppendInTurn(rest, pushes, key);
  }

  lemma HitsGrow<E>(queue: seq<Trail<E>>, hits: seq<Trail<E>>, found: seq<Trail<E>>, key: ((string, E)) -> string)
    requires |queue| > 0 && SearchOrdered(queue, hits, key)
    requires InTurn(found, key) && forall t | t in found :: OneMore(queue[0], t)
    ensures InTurn(hits + found, key)
  {
    var q := queue[0];
    forall h, y | h in hits && y in found ensures NoLater(h, y, key) {
      assert q in queue;
      ChildOfParent(h);
      BeforeExtension(Parent(h), q, h, y, key);
    }
    AppendInTurn(hits, found, key);
  }

  lemma ExtensionParent<E>(q: Trail<E>, t: Trail<E>)
    requires Whole(q) && OneMore(q, t)
    ensures Parent(t) == q && Whole(t) && |t.edges| > 0
  {
  }

  lemma HeadBefore<E>(queue: seq<Trail<E>>, x: Trail<E>, key: ((string, E)) -> string)
    requires |queue| > 0 && InTurn(queue, key) && NoDuplicates(queue) && x in queue[1..]
    ensures NoLater(queue[0], x, key) && queue[0] != x
  {
    var i :| 0 <= i < |queue| - 1 && queue[1..][i] == x;
    assert queue[i + 1] == x;
  }

  /** What was expanded, the head now included, comes before what is queued then. */
  lemma ParentsBefore<E>(queue: seq<Trail<E>>, pushes: seq<Trail<E>>, hits: seq<Trail<E>>, found: seq<Trail<E>>,
                         h: Trail<E>, x: Trail<E>, key: ((string, E)) -> string)
    requires |queue| > 0 && SearchOrdered(queue, hits, key) && NoDuplicates(queue)
    requires forall t | t in pushes || t in found :: OneMore(queue[0], t)
    requires h in hits + found && x in queue[1..] + pushes
    ensures NoLater(Parent(h), x, key) && Parent(h) != x
  {
    var q := queue[0];
    assert q in queue;
    if h in found { ExtensionParent(q, h); } else { ChildOfParent(h); }
    if x in pushes {
      ExtensionParent(q, x);
      assert |Parent(h).edges| <= |q.edges| < |x.edges|;
    } else {
      HeadBefore(queue, x, key);
      assert x in queue;
    }
  }

  lemma LevelsBefore<E>(queue: seq<Trail<E>>, pushes: seq<Trail<E>>, hits: seq<Trail<E>>, x: Trail<E>, z: Trail<E>,
                        key: ((string, E)) -> string)
    requires |queue| > 0 && SearchOrdered(queue, hits, key) && NoDuplicates(queue) && Leveled(queue, hits)
    requires forall t | t in pushes :: OneMore(queue[0], t)
    requires x in queue[1..] + pushes && z in queue[1..] + pushes && |x.edges| == |z.edges| + 1
    ensures NoLater(Parent(x), z, key) && Parent(x) != z
  {
    var q := queue[0];
    assert q in queue;
    LevelsOf(queue, hits, x);
    LevelsOf(queue, hits, z);
    if x in pushes {
      ExtensionParent(q, x);
      assert z in queue[1..];
      HeadBefore(queue, z, key);
    } else {
      assert x in queue;
      assert z in queue;
    }
  }

  lemma LevelsOf<E>(queue: seq<Trail<E>>, hits: seq<Trail<E>>, x: Trail<E>)
    requires |queue| > 0 && Leveled(queue, hits)
    ensures x in queue[1..] ==> |queue[0].edges| <= |x.edges| <= |queue[0].edges| + 1
  {
  }

  /** Replacing the head by its extensions over a sorted neighbour list keeps the order. */
  lemma OrderExpands<E>(queue: seq<Trail<E>>, hits: seq<Trail<E>>, outs: seq<(string, E)>, to: string,
                        key: ((string, E)) -> string)
    requires |queue| > 0 && SearchOrdered(queue, hits, key) && Leveled(queue, hits) && NoDuplicates(queue)
    requires Ordered(outs, key)
    ensures SearchOrdered(queue[1..] + Pushes(queue[0], outs, to), hits + Hits(queue[0], outs, to), key)
  {
    var q := queue[0];
    assert q in queue;
    var pushes, found := Pushes(q, outs, to), Hits(q, outs, to);
    forall t | t in pushes ensures OneMore(q, t) && Whole(t) { ExtensionMembers(q, outs, to, t); }
    forall t | t in found ensures OneMore(q, t) && Whole(t) && |t.edges| > 0 { ExtensionMembers(q, outs, to, t); }
    ExtensionsInTurn(q, outs, to, key);
    QueueGrows(queue, pushes, hits, key);
    HitsGrow(queue, hits, found, key);
    forall h, x | h in hits + found && x in queue[1..] + pushes
      ensures NoLater(Parent(h), x, key) && Parent(h) != x
    {
      ParentsBefore(queue, pushes, hits, found, h, x, key);
    }
    forall x, z | x in queue[1..] + pushes && z in queue[1..] + pushes && |x.edges| == |z.edges| + 1
      ensures NoLater(Parent(x), z, key) && Parent(x) != z
    {
      LevelsBefore(queue, pushes, hits, x, z, key);
    }
    hide NoLater, InTurn, OneMore, Leveled, Parent, Ordered;
  }

  /** The search state gives what the step over the queue needs. */
  lemma StateLeveled<E(!new)>(arcs: set<Arc<E>>, from: string, to: string, depth: int, queue: seq<Trail<E>>,
                              hits: seq<Trail<E>>, done: set<Trail<E>>)
    requires SearchInv(arcs, from, to, depth, queue, hits, done)
    ensures Leveled(queue, hits) && NoDuplicates(queue)
  {
    forall i, j | 0 <= i < j < |queue| ensures queue[i] != queue[j] {
      assert Prefix(queue[j], queue[j]);
    }
  }

  lemma MissingAfter<E>(arcs: set<Arc<E>>, from: string, to: string, x: Trail<E>, t: Trail<E>, h: Trail<E>,
                        key: ((string, E)) -> string)
    requires Open(arcs, from, to, x) && SimplePath(arcs, from, to, t) && Prefix(x, t)
    requires NoLater(Parent(h), x, key)
    ensures NoLater(Parent(h), Parent(t), key)
  {
    assert x.nodes[|x.edges|] == t.nodes[|x.edges|] && |x.edges| < |t.edges|;
    ChildOfParent(t);
    var p := Parent(t);
    assert Prefix(x, p);
    if |x.edges| == |p.edges| { assert x == p; }
  }

  /** When the search stops, its results are ordered. */
  lemma OrderEnds<E(!new)>(arcs: set<Arc<E>>, from: string, to: string, depth: int, queue: seq<Trail<E>>,
                           hits: seq<Trail<E>>, done: set<Trail<E>>, key: ((string, E)) -> string)
    requires SearchInv(arcs, from, to, depth, queue, hits, done) && SearchOrdered(queue, hits, key)
    ensures OrderedSearch(arcs, from, to, depth, hits, key)
  {
    hide Leveled, Separate, Within, SimplePath, Open, Prefix, NoLater, Parent, Whole;
    forall t, h | SimplePath(arcs, from, to, t) && |t.edges| <= depth && t !in hits && h in hits
      ensures NoLater(Parent(h), Parent(t), key)
    {
      assert InQueue(queue, t);
      var x :| x in queue && Prefix(x, t);
      MissingAfter(arcs, from, to, x, t, h, key);
    }
  }

  /** The order depends on what the key says only. */
  lemma SameKeyOrder<E(!new)>(arcs: set<Arc<E>>, from: string, to: string, depth: int, hits: seq<Trail<E>>,
                              f: ((string, E)) -> string, g: ((string, E)) -> string)
    requires OrderedSearch(arcs, from, to, depth, hits, f) && forall x :: f(x) == g(x)
    ensures OrderedSearch(arcs, from, to, depth, hits, g)
  {
    forall t, u | NoLater(t, u, f) ensures NoLater(t, u, g) {}
    hide NoLater;
  }
}
