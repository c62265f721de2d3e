/**
 Trails over labelled arcs, and what one step of a queue-driven search for simple paths keeps.

 `InMemoryGraphRepository.paths` and the join-path search of the topology service both pop the
 oldest open trail, extend it over the neighbours of its last node, report the extensions that
 reach the goal and push the others. The search state here is the queue of open trails, the
 reported trails and the trails already popped.
*/
module PathSearch {
  import opened Common
  import Sorting
  import Text

  datatype Arc<E> = Arc(from: string, edge: E, to: string)

  datatype Trail<E> = Trail(nodes: seq<string>, edges: seq<E>)

  /** The trail visits its nodes along arcs. */
  ghost predicate Follows<E>(arcs: set<Arc<E>>, t: Trail<E>) {
    && |t.nodes| == |t.edges| + 1
    && forall i | 0 <= i < |t.edges| :: Arc(t.nodes[i], t.edges[i], t.nodes[i + 1]) in arcs
  }

  ghost predicate SimplePath<E>(arcs: set<Arc<E>>, from: string, to: string, t: Trail<E>) {
    && Follows(arcs, t)
    && NoDuplicates(t.nodes)
    && |t.edges| >= 1
    && t.nodes[0] == from
    && t.nodes[|t.edges|] == to
  }

  /**
   What a bounded search must report: distinct simple paths within the depth, shortest first, none
   of the omitted ones shorter than a reported one, and all of them when it did not stop early.
  */
  ghost predicate ExactSearch<E(!new)>(arcs: set<Arc<E>>, from: string, to: string, depth: int,
                                       found: seq<Trail<E>>, complete: bool) {
    && (forall t | t in found :: SimplePath(arcs, from, to, t) && |t.edges| <= depth)
    && NoDuplicates(found)
    && (forall i, j | 0 <= i < j < |found| :: |found[i].edges| <= |found[j].edges|)
    && (forall t | SimplePath(arcs, from, to, t) && |t.edges| <= depth && t !in found ::
          !complete && forall f | f in found :: |f.edges| <= |t.edges|)
  }

  // ---- Extending a trail ----

  function Extend<E>(t: Trail<E>, edge: E, to: string): Trail<E> {
    Trail(t.nodes + [to], t.edges + [edge])
  }

  ghost predicate Prefix<E>(q: Trail<E>, t: Trail<E>) {
    q.nodes <= t.nodes && q.edges <= t.edges
  }

  /** The extensions of q over a neighbour list that reach the goal, in list order. */
  function Hits<E>(q: Trail<E>, outs: seq<(string, E)>, to: string): seq<Trail<E>> {
    if |outs| == 0 then [] else
      var (v, e) := outs[|outs| - 1];
      Hits(q, outs[..|outs| - 1], to) + if v !in q.nodes && v == to then [Extend(q, e, v)] else []
  }

  /** The extensions of q over a neighbour list that stay open, in list order. */
  function Pushes<E>(q: Trail<E>, outs: seq<(string, E)>, to: string): seq<Trail<E>> {
    if |outs| == 0 then [] else
      var (v, e) := outs[|outs| - 1];
      Pushes(q, outs[..|outs| - 1], to) + if v !in q.nodes && v != to then [Extend(q, e, v)] else []
  }

  lemma NextOut<E>(q: Trail<E>, outs: seq<(string, E)>, to: string, i: nat)
    requires i < |outs|
    ensures var (v, e) := outs[i];
            && Hits(q, outs[..i + 1], to) ==
              Hits(q, outs[..i], to) + (if v !in q.nodes && v == to then [Extend(q, e, v)] else [])
            && Pushes(q, outs[..i + 1], to) ==
              Pushes(q, outs[..i], to) + (if v !in q.nodes && v != to then [Extend(q, e, v)] else [])
  {
    assert outs[..i + 1][..i] == outs[..i] && outs[..i + 1][i] == outs[i];
  }

  lemma ExtendFollows<E(!new)>(arcs: set<Arc<E>>, t: Trail<E>, outs: seq<(string, E)>, v: string, e: E)
    requires Follows(arcs, t) && NoDuplicates(t.nodes) && Lists(arcs, t.nodes[|t.edges|], outs)
    requires (v, e) in outs && v !in t.nodes
    ensures Follows(arcs, Extend(t, e, v)) && NoDuplicates(Extend(t, e, v).nodes)
  {
  }

  /** outs lists the arcs leaving u; only arcs back to u itself may be listed twice. */
  ghost predicate Lists<E(!new)>(arcs: set<Arc<E>>, u: string, outs: seq<(string, E)>) {
    && (forall v, e :: (v, e) in outs <==> Arc(u, e, v) in arcs)
    && (forall x | x in outs && x.0 != u :: multiset(outs)[x] == 1)
  }

  ghost predicate IsExtension<E>(q: Trail<E>, outs: seq<(string, E)>, t: Trail<E>) {
    && |t.nodes| > 0 && |t.edges| > 0
    && var v, e := t.nodes[|t.nodes| - 1], t.edges[|t.edges| - 1];
    && t == Extend(q, e, v)
    && (v, e) in outs
    && v !in q.nodes
  }

  lemma {:induction false} ExtensionMembers<E>(q: Trail<E>, outs: seq<(string, E)>, to: string, t: Trail<E>)
    ensures t in Hits(q, outs, to) <==> IsExtension(q, outs, t) && t.nodes[|t.nodes| - 1] == to
    ensures t in Pushes(q, outs, to) <==> IsExtension(q, outs, t) && t.nodes[|t.nodes| - 1] != to
  {
    if |outs| > 0 {
      var (v, e) := outs[|outs| - 1];
      ExtensionMembers(q, outs[..|outs| - 1], to, t);
      assert outs == outs[..|outs| - 1] + [(v, e)];
      var x := Extend(q, e, v);
      assert x.nodes[|x.nodes| - 1] == v && x.edges[|x.edges| - 1] == e;
    }
  }

  lemma {:induction false} ExtensionsDistinct<E>(q: Trail<E>, outs: seq<(string, E)>, to: string)
    requires forall x | x in outs && x.0 !in q.nodes :: multiset(outs)[x] == 1
    ensures NoDuplicates(Hits(q, outs, to)) && NoDuplicates(Pushes(q, outs, to))
  {
    if |outs| > 0 {
      var init := outs[..|outs| - 1];
      var (v, e) := outs[|outs| - 1];
      assert outs == init + [(v, e)];
      assert forall x | x in init :: multiset(init)[x] >= 1;
      ExtensionsDistinct(q, init, to);
      var x := Extend(q, e, v);
      assert x.nodes[|x.nodes| - 1] == v && x.edges[|x.edges| - 1] == e;
      ExtensionMembers(q, init, to, x);
    }
  }

  // ---- The search state ----

  /** An open trail: simple, starting at `from`, and not yet at the goal. */
  ghost predicate Open<E>(arcs: set<Arc<E>>, from: string, to: string, t: Trail<E>) {
    && Follows(arcs, t)
    && NoDuplicates(t.nodes)
    && t.nodes[0] == from
    && (to in t.nodes ==> to == from)
  }

  ghost predicate InQueue<E>(queue: seq<Trail<E>>, t: Trail<E>) {
    exists q | q in queue :: Prefix(q, t)
  }

  /** Every simple path within the depth is reported or still extends a queued trail. */
  ghost predicate Covered<E(!new)>(arcs: set<Arc<E>>, from: string, to: string, depth: int,
                                   queue: seq<Trail<E>>, hits: seq<Trail<E>>) {
    forall t | SimplePath(arcs, from, to, t) && |t.edges| <= depth :: t in hits || InQueue(queue, t)
  }

  /** Trails leave the queue shortest first, and differ in length by at most one. */
  ghost predicate Leveled<E>(queue: seq<Trail<E>>, hits: seq<Trail<E>>) {
    && (forall i, j | 0 <= i < j < |queue| :: |queue[i].edges| <= |queue[j].edges| <= |queue[i].edges| + 1)
    && (forall i, j | 0 <= i < j < |hits| :: |hits[i].edges| <= |hits[j].edges|)
    && (forall h, q | h in hits && q in queue :: |h.edges| <= |q.edges| + 1)
  }

  /** No queued trail is a prefix of another, of a reported one, or of one popped before. */
  ghost predicate Separate<E>(queue: seq<Trail<E>>, hits: seq<Trail<E>>, done: set<Trail<E>>) {
    && (forall i, j | 0 <= i < |queue| && 0 <= j < |queue| && i != j :: !Prefix(queue[i], queue[j]))
    && NoDuplicates(hits)
    && (forall q, h | q in queue && h in hits :: !Prefix(q, h))
    && (forall q, d | q in queue && d in done :: !Prefix(q, d))
  }

  ghost predicate SearchInv<E(!new)>(arcs: set<Arc<E>>, from: string, to: string, depth: int,
                                     queue: seq<Trail<E>>, hits: seq<Trail<E>>, done: set<Trail<E>>) {
    && (forall q | q in queue :: Open(arcs, from, to, q) && (|q.edges| <= depth || |q.edges| == 0))
    && (forall h | h in hits :: SimplePath(arcs, from, to, h) && |h.edges| <= depth)
    && Covered(arcs, from, to, depth, queue, hits)
    && Leveled(queue, hits)
    && Separate(queue, hits, done)
    && done <= Within(arcs, from, if depth < 0 then 0 else depth)
  }

  lemma SearchStarts<E(!new)>(arcs: set<Arc<E>>, from: string, to: string, depth: int)
    ensures SearchInv(arcs, from, to, depth, [Trail([from], [])], [], {})
  {
  }

  /** What the head of the queue is. */
  lemma SearchHead<E(!new)>(arcs: set<Arc<E>>, from: string, to: string, depth: int,
                            queue: seq<Trail<E>>, hits: seq<Trail<E>>, done: set<Trail<E>>)
    requires SearchInv(arcs, from, to, depth, queue, hits, done) && |queue| > 0
    ensures Open(arcs, from, to, queue[0]) && queue[0] !in done
    ensures queue[0] in Within(arcs, from, if depth < 0 then 0 else depth)
  {
    assert Prefix(queue[0], queue[0]) && queue[0] in queue;
    WithinMember(arcs, from, queue[0], if depth < 0 then 0 else depth);
  }

  /** A popped trail that is already at the depth has nothing left to reach. */
  lemma SearchDrops<E(!new)>(arcs: set<Arc<E>>, from: string, to: string, depth: int,
                             queue: seq<Trail<E>>, hits: seq<Trail<E>>, done: set<Trail<E>>)
    requires SearchInv(arcs, from, to, depth, queue, hits, done)
    requires |queue| > 0 && |queue[0].edges| >= depth
    ensures SearchInv(arcs, from, to, depth, queue[1..], hits, done + {queue[0]})
  {
    WithinMember(arcs, from, queue[0], if depth < 0 then 0 else depth);
    DropLeveled(queue, hits);
    DropCovers(arcs, from, to, depth, queue, hits);
    DropSeparate(queue, hits, done);
    hide Covered, Leveled, Separate, Open, SimplePath, Within;
  }

  lemma DropLeveled<E>(queue: seq<Trail<E>>, hits: seq<Trail<E>>)
    requires |queue| > 0 && Leveled(queue, hits)
    ensures Leveled(queue[1..], hits)
  {
  }

  lemma DropCovers<E(!new)>(arcs: set<Arc<E>>, from: string, to: string, depth: int, queue: seq<Trail<E>>,
                     hits: seq<Trail<E>>)
    requires |queue| > 0 && Covered(arcs, from, to, depth, queue, hits)
    requires Open(arcs, from, to, queue[0]) && |queue[0].edges| >= depth
    ensures Covered(arcs, from, to, depth, queue[1..], hits)
  {
    forall t | SimplePath(arcs, from, to, t) && |t.edges| <= depth && t !in hits ensures InQueue(queue[1..], t) {
      var p :| p in queue && Prefix(p, t);
      assert p == queue[0] || p in queue[1..];
    }
  }

  lemma DropSeparate<E>(queue: seq<Trail<E>>, hits: seq<Trail<E>>, done: set<Trail<E>>)
    requires |queue| > 0 && Separate(queue, hits, done)
    ensures Separate(queue[1..], hits, done + {queue[0]})
  {
    hide Prefix, NoDuplicates;
    var rest := queue[1..];
    assert forall i | 0 <= i < |rest| :: rest[i] == queue[i + 1] && !Prefix(queue[i + 1], queue[0]);
    assert forall x | x in rest :: x in queue;
  }

  /** A popped trail below the depth is replaced by its extensions. */
  lemma SearchExpands<E(!new)>(arcs: set<Arc<E>>, from: string, to: string, depth: int,
                               queue: seq<Trail<E>>, hits: seq<Trail<E>>, done: set<Trail<E>>, outs: seq<(string, E)>)
    requires SearchInv(arcs, from, to, depth, queue, hits, done)
    requires |queue| > 0 && |queue[0].edges| < depth
    requires Lists(arcs, queue[0].nodes[|queue[0].edges|], outs)
    ensures var q := queue[0];
            SearchInv(arcs, from, to, depth, queue[1..] + Pushes(q, outs, to), hits + Hits(q, outs, to), done + {q})
  {
    var q := queue[0];
    var pushes, found := Pushes(q, outs, to), Hits(q, outs, to);
    WithinMember(arcs, from, q, depth);
    ExtensionsOpen(arcs, from, to, q, outs);
    ExtensionsShape(arcs, q, outs, to);
    ExpandCovers(arcs, from, to, depth, queue, hits, outs);
    ExpandLeveled(queue, hits, pushes, found);
    ExpandSeparate(queue, hits, done, pushes, found);
  }

  lemma ExtensionsShape<E(!new)>(arcs: set<Arc<E>>, q: Trail<E>, outs: seq<(string, E)>, to: string)
    requires |q.nodes| == |q.edges| + 1 && Lists(arcs, q.nodes[|q.edges|], outs)
    ensures forall t | t in Pushes(q, outs, to) || t in Hits(q, outs, to) :: OneMore(q, t)
    ensures forall t | t in Pushes(q, outs, to) :: t !in Hits(q, outs, to)
    ensures NoDuplicates(Hits(q, outs, to)) && NoDuplicates(Pushes(q, outs, to))
  {
    ExtensionsDistinct(q, outs, to);
    forall t ensures t in Pushes(q, outs, to) || t in Hits(q, outs, to) ==> OneMore(q, t)
             ensures t in Pushes(q, outs, to) ==> t !in Hits(q, outs, to)
    {
      ExtensionMembers(q, outs, to, t);
    }
  }

  lemma ExtensionsOpen<E(!new)>(arcs: set<Arc<E>>, from: string, to: string, q: Trail<E>, outs: seq<(string, E)>)
    requires Open(arcs, from, to, q) && Lists(arcs, q.nodes[|q.edges|], outs)
    ensures forall t | t in Pushes(q, outs, to) :: Open(arcs, from, to, t)
    ensures forall t | t in Hits(q, outs, to) :: SimplePath(arcs, from, to, t)
  {
    forall t ensures t in Pushes(q, outs, to) ==> Open(arcs, from, to, t)
             ensures t in Hits(q, outs, to) ==> SimplePath(arcs, from, to, t)
    {
      ExtensionMembers(q, outs, to, t);
    }
  }

  /** A longer simple path through q continues over one of the listed arcs. */
  lemma NextExtension<E(!new)>(arcs: set<Arc<E>>, from: string, to: string, q: Trail<E>, outs: seq<(string, E)>,
                        t: Trail<E>)
    requires Open(arcs, from, to, q) && Lists(arcs, q.nodes[|q.edges|], outs)
    requires SimplePath(arcs, from, to, t) && Prefix(q, t)
    ensures t in Hits(q, outs, to) || exists x :: x in Pushes(q, outs, to) && Prefix(x, t)
  {
    var k := |q.edges|;
    var x := Extend(q, t.edges[k], t.nodes[k + 1]);
    NextStep(arcs, from, to, q, outs, t);
    ExtensionMembers(q, outs, to, x);
    hide Hits, Pushes, IsExtension, Open, Lists;
    if t.nodes[k + 1] == to {
      assert k + 1 == |t.edges|;
      assert x == t;
    }
  }

  lemma NextStep<E(!new)>(arcs: set<Arc<E>>, from: string, to: string, q: Trail<E>, outs: seq<(string, E)>, t: Trail<E>)
    requires Open(arcs, from, to, q) && Lists(arcs, q.nodes[|q.edges|], outs)
    requires SimplePath(arcs, from, to, t) && Prefix(q, t)
    ensures |q.edges| < |t.edges|
    ensures var x := Extend(q, t.edges[|q.edges|], t.nodes[|q.edges| + 1]);
            IsExtension(q, outs, x) && x.nodes == t.nodes[..|q.edges| + 2] && x.edges == t.edges[..|q.edges| + 1]
  {
    var k := |q.edges|;
    assert Arc(t.nodes[k], t.edges[k], t.nodes[k + 1]) in arcs;
  }

  lemma ExpandCovers<E(!new)>(arcs: set<Arc<E>>, from: string, to: string, depth: int,
                              queue: seq<Trail<E>>, hits: seq<Trail<E>>, outs: seq<(string, E)>)
    requires Covered(arcs, from, to, depth, queue, hits)
    requires |queue| > 0 && Open(arcs, from, to, queue[0])
    requires Lists(arcs, queue[0].nodes[|queue[0].edges|], outs)
    ensures var q := queue[0];
            Covered(arcs, from, to, depth, queue[1..] + Pushes(q, outs, to), hits + Hits(q, outs, to))
  {
    var q := queue[0];
    var pushes, found := Pushes(q, outs, to), Hits(q, outs, to);
    forall t | SimplePath(arcs, from, to, t) && |t.edges| <= depth && t !in hits + found
      ensures InQueue(queue[1..] + pushes, t)
    {
      var p :| p in queue && Prefix(p, t);
      if p == q {
        NextExtension(arcs, from, to, q, outs, t);
        var x :| x in pushes && Prefix(x, t);
        assert x in queue[1..] + pushes;
      } else {
        assert p in queue[1..] + pushes;
      }
    }
  }

  lemma ExpandLeveled<E>(queue: seq<Trail<E>>, hits: seq<Trail<E>>, pushes: seq<Trail<E>>, found: seq<Trail<E>>)
    requires |queue| > 0 && Leveled(queue, hits)
    requires forall t | t in pushes || t in found :: |t.edges| == |queue[0].edges| + 1
    ensures Leveled(queue[1..] + pushes, hits + found)
  {
  }

  /** t is an extension of q by one arc. */
  ghost predicate OneMore<E>(q: Trail<E>, t: Trail<E>) {
    && |t.edges| == |q.edges| + 1
    && |t.nodes| == |q.nodes| + 1
    && Prefix(q, t)
  }

  lemma ExpandSeparate<E>(queue: seq<Trail<E>>, hits: seq<Trail<E>>, done: set<Trail<E>>, pushes: seq<Trail<E>>,
                          found: seq<Trail<E>>)
    requires |queue| > 0 && Separate(queue, hits, done) && Leveled(queue, hits)
    requires NoDuplicates(pushes) && NoDuplicates(found)
    requires forall t | t in pushes || t in found :: OneMore(queue[0], t)
    requires forall t | t in pushes :: t !in found
    requires forall t | t in queue :: |t.nodes| == |t.edges| + 1
    ensures Separate(queue[1..] + pushes, hits + found, done + {queue[0]})
  {
    var q, rest := queue[0], queue[1..];
    assert q in queue;
    PushesApart(q, queue, pushes, hits);
    PushesApartDone(q, pushes, done);
    DropSeparate(queue, hits, done);
    forall x, y | x in rest && y in pushes + found ensures !Prefix(x, y) && !Prefix(y, x) { RestApart(queue, x, y); }
    forall x, y | x in pushes && y in pushes + found && Prefix(x, y) ensures x == y { SameLengthPrefix(x, y, y); }
    SeparateQueue(rest, pushes);
    SeparateHits(q, hits, found);
    hide Prefix, NoDuplicates, OneMore, Leveled;
  }

  lemma PushesApartDone<E>(q: Trail<E>, pushes: seq<Trail<E>>, done: set<Trail<E>>)
    requires forall t | t in pushes :: OneMore(q, t)
    requires forall d | d in done :: !Prefix(q, d)
    ensures forall x, d | x in pushes && d in done + {q} :: !Prefix(x, d)
  {
  }

  lemma RestApart<E>(queue: seq<Trail<E>>, x: Trail<E>, y: Trail<E>)
    requires |queue| > 0 && x in queue[1..] && OneMore(queue[0], y)
    requires forall i, j | 0 <= i < |queue| && 0 <= j < |queue| && i != j :: !Prefix(queue[i], queue[j])
    requires forall i, j | 0 <= i < j < |queue| :: |queue[i].edges| <= |queue[j].edges| <= |queue[i].edges| + 1
    requires forall t | t in queue :: |t.nodes| == |t.edges| + 1
    ensures !Prefix(x, y) && !Prefix(y, x)
  {
  }

  lemma PushesApart<E>(q: Trail<E>, queue: seq<Trail<E>>, pushes: seq<Trail<E>>, others: seq<Trail<E>>)
    requires q in queue
    requires forall t | t in pushes :: OneMore(q, t)
    requires forall p, h | p in queue && h in others :: !Prefix(p, h)
    ensures forall x, h | x in pushes && h in others :: !Prefix(x, h)
  {
  }

  lemma SeparateQueue<E>(rest: seq<Trail<E>>, pushes: seq<Trail<E>>)
    requires forall i, j | 0 <= i < |rest| && 0 <= j < |rest| && i != j :: !Prefix(rest[i], rest[j])
    requires forall x, y | x in rest && y in pushes :: !Prefix(x, y) && !Prefix(y, x)
    requires NoDuplicates(pushes)
    requires forall x, y | x in pushes && y in pushes && Prefix(x, y) :: x == y
    ensures var queue := rest + pushes;
            forall i, j | 0 <= i < |queue| && 0 <= j < |queue| && i != j :: !Prefix(queue[i], queue[j])
  {
  }

  lemma SeparateHits<E>(q: Trail<E>, hits: seq<Trail<E>>, found: seq<Trail<E>>)
    requires NoDuplicates(hits) && NoDuplicates(found)
    requires forall t | t in found :: Prefix(q, t)
    requires forall h | h in hits :: !Prefix(q, h)
    ensures NoDuplicates(hits + found)
  {
    forall i, j | 0 <= i < |hits| && 0 <= j < |found| ensures hits[i] != found[j] {
      assert hits[i] in hits && found[j] in found;
    }
  }

  lemma SameLengthPrefix<E>(p: Trail<E>, q: Trail<E>, t: Trail<E>)
    requires Prefix(p, t) && Prefix(q, t) && |p.edges| == |q.edges| && |p.nodes| == |q.nodes|
    ensures p == q
  {
  }

  /** When the search stops, what it has reported is exact. */
  lemma SearchEnds<E(!new)>(arcs: set<Arc<E>>, from: string, to: string, depth: int,
                            queue: seq<Trail<E>>, hits: seq<Trail<E>>, done: set<Trail<E>>, complete: bool)
    requires SearchInv(arcs, from, to, depth, queue, hits, done)
    requires complete ==> |queue| == 0
    ensures ExactSearch(arcs, from, to, depth, hits, complete)
  {
  }

  // ---- How far one expansion overshoots a cap ----

  /** The trail without its last step. */
  function Parent<E>(t: Trail<E>): Trail<E> {
    if |t.nodes| == 0 || |t.edges| == 0 then t else Trail(t.nodes[..|t.nodes| - 1], t.edges[..|t.edges| - 1])
  }

  /** Paths that differ in their last step only are reported together. */
  ghost predicate WholeBatches<E(!new)>(arcs: set<Arc<E>>, from: string, to: string, hits: seq<Trail<E>>) {
    forall h, s | h in hits && SimplePath(arcs, from, to, s) && Parent(s) == Parent(h) :: s in hits
  }

  /** What is reported from position cap - 1 on stems from one expansion. */
  ghost predicate OneBatchPast<E>(hits: seq<Trail<E>>, cap: nat) {
    forall i, j | 0 <= cap - 1 <= i < j < |hits| :: Parent(hits[i]) == Parent(hits[j])
  }

  lemma HitsParent<E>(q: Trail<E>, outs: seq<(string, E)>, to: string)
    requires |q.nodes| == |q.edges| + 1
    ensures forall t | t in Hits(q, outs, to) :: Parent(t) == q
  {
    forall t | t in Hits(q, outs, to) ensures Parent(t) == q { ExtensionMembers(q, outs, to, t); }
  }

  lemma WholeBatchesExpand<E(!new)>(arcs: set<Arc<E>>, from: string, to: string, q: Trail<E>, outs: seq<(string, E)>,
                                    hits: seq<Trail<E>>)
    requires Open(arcs, from, to, q) && Lists(arcs, q.nodes[|q.edges|], outs) && WholeBatches(arcs, from, to, hits)
    ensures WholeBatches(arcs, from, to, hits + Hits(q, outs, to))
  {
    HitsParent(q, outs, to);
    forall h, s | h in Hits(q, outs, to) && SimplePath(arcs, from, to, s) && Parent(s) == Parent(h)
      ensures s in Hits(q, outs, to) {
      var k := |q.edges|;
      assert Parent(s) == q && Arc(s.nodes[k], s.edges[k], s.nodes[k + 1]) in arcs;
      assert s == Extend(q, s.edges[k], s.nodes[k + 1]);
      ExtensionMembers(q, outs, to, s);
    }
  }

  lemma OneBatchExpands<E>(q: Trail<E>, outs: seq<(string, E)>, to: string, hits: seq<Trail<E>>, cap: nat)
    requires |q.nodes| == |q.edges| + 1 && |hits| < cap
    ensures OneBatchPast(hits + Hits(q, outs, to), cap)
  {
    HitsParent(q, outs, to);
    var all := hits + Hits(q, outs, to);
    forall i | |hits| <= i < |all| ensures Parent(all[i]) == q { assert all[i] in Hits(q, outs, to); }
  }

  /** Expansions are reported whole, and only the last one passes the cap. */
  ghost predicate Batched<E(!new)>(arcs: set<Arc<E>>, from: string, to: string, hits: seq<Trail<E>>, cap: nat) {
    WholeBatches(arcs, from, to, hits) && OneBatchPast(hits, cap)
  }

  lemma BatchedStarts<E(!new)>(arcs: set<Arc<E>>, from: string, to: string, cap: nat)
    ensures Batched(arcs, from, to, [], cap)
  {
  }

  lemma BatchedExpands<E(!new)>(arcs: set<Arc<E>>, from: string, to: string, q: Trail<E>, outs: seq<(string, E)>,
                                hits: seq<Trail<E>>, cap: nat)
    requires Open(arcs, from, to, q) && Lists(arcs, q.nodes[|q.edges|], outs)
    requires Batched(arcs, from, to, hits, cap) && |hits| < cap
    ensures Batched(arcs, from, to, hits + Hits(q, outs, to), cap)
  {
    WholeBatchesExpand(arcs, from, to, q, outs, hits);
    OneBatchExpands(q, outs, to, hits, cap);
  }

  /** The arcs from one node to another. */
  ghost function Between<E>(arcs: set<Arc<E>>, u: string, v: string): set<Arc<E>> {
    set a | a in arcs && a.from == u && a.to == v
  }

  lemma LastArc<E>(arcs: set<Arc<E>>, from: string, to: string, t: Trail<E>)
    requires SimplePath(arcs, from, to, t)
    ensures var n := |t.edges|; Arc(t.nodes[n - 1], t.edges[n - 1], to) in Between(arcs, t.nodes[n - 1], to)
    ensures t == Extend(Parent(t), t.edges[|t.edges| - 1], to)
  {
  }

  /** Different paths of one parent end in different arcs, so there are no more of them than arcs. */
  lemma {:induction false} SiblingsBounded<E>(arcs: set<Arc<E>>, from: string, to: string, q: Trail<E>, u: string,
                                              batch: seq<Trail<E>>, last: set<Arc<E>>)
    requires |q.nodes| > 0 && u == q.nodes[|q.nodes| - 1] && NoDuplicates(batch) && last <= Between(arcs, u, to)
    requires forall t | t in batch ::
             SimplePath(arcs, from, to, t) && Parent(t) == q && Arc(u, t.edges[|t.edges| - 1], to) in last
    ensures |batch| <= |last|
  {
    if |batch| > 0 {
      var t := batch[0];
      var a := Arc(u, t.edges[|t.edges| - 1], to);
      assert t in batch;
      LastArc(arcs, from, to, t);
      forall s | s in batch[1..] ensures Arc(u, s.edges[|s.edges| - 1], to) in last - {a} {
        assert s in batch;
        LastArc(arcs, from, to, s);
      }
      SiblingsBounded(arcs, from, to, q, u, batch[1..], last - {a});
    }
  }

  lemma BatchSiblings<E(!new)>(arcs: set<Arc<E>>, from: string, to: string, hits: seq<Trail<E>>, cap: nat, t: Trail<E>)
    requires OneBatchPast(hits, cap) && 0 < cap <= |hits| && t in hits[cap - 1..]
    requires forall h | h in hits :: SimplePath(arcs, from, to, h)
    ensures var first := hits[cap - 1];
            && first in hits && SimplePath(arcs, from, to, first)
            && SimplePath(arcs, from, to, t) && Parent(t) == Parent(first)
            && Arc(first.nodes[|first.edges| - 1], t.edges[|t.edges| - 1], to)
               in Between(arcs, first.nodes[|first.edges| - 1], to)
  {
    var first := hits[cap - 1];
    var i :| cap - 1 <= i < |hits| && hits[i] == t;
    assert first in hits && t in hits && Parent(t) == Parent(first);
    LastArc(arcs, from, to, first);
    LastArc(arcs, from, to, t);
    hide OneBatchPast, NoDuplicates;
    assert Parent(t).nodes == t.nodes[..|t.nodes| - 1] && Parent(first).nodes == first.nodes[..|first.nodes| - 1];
  }

  /** If no node has more than m arcs to the goal, a search that stops at the cap reports less than cap + m paths. */
  lemma CapOvershootBounded<E(!new)>(arcs: set<Arc<E>>, from: string, to: string, depth: int, hits: seq<Trail<E>>,
                                     complete: bool, cap: nat, m: nat)
    requires ExactSearch(arcs, from, to, depth, hits, complete) && OneBatchPast(hits, cap) && cap > 0
    requires forall u :: |Between(arcs, u, to)| <= m
    ensures |hits| < cap + m
  {
    if |hits| >= cap {
      var batch, first := hits[cap - 1..], hits[cap - 1];
      assert first in hits;
      var u := first.nodes[|first.edges| - 1];
      hide OneBatchPast, Parent, Between;
      forall t | t in batch
        ensures SimplePath(arcs, from, to, t) && Parent(t) == Parent(first)
                && Arc(u, t.edges[|t.edges| - 1], to) in Between(arcs, u, to)
      {
        BatchSiblings(arcs, from, to, hits, cap, t);
      }
      LastArc(arcs, from, to, first);
      ParentEnd(arcs, from, to, first);
      SiblingsBounded(arcs, from, to, Parent(first), u, batch, Between(arcs, u, to));
    }
  }

  lemma ParentEnd<E>(arcs: set<Arc<E>>, from: string, to: string, t: Trail<E>)
    requires SimplePath(arcs, from, to, t)
    ensures |Parent(t).nodes| > 0 && Parent(t).nodes[|Parent(t).nodes| - 1] == t.nodes[|t.edges| - 1]
  {
  }

  /** The path of one arc. */
  function OneStep<E>(a: Arc<E>): Trail<E> {
    Trail([a.from, a.to], [a.edge])
  }

  /** Every direct arc is reported, however many there are. */
  lemma DirectReported<E(!new)>(arcs: set<Arc<E>>, from: string, to: string, depth: int, hits: seq<Trail<E>>, cap: nat,
                         a: Arc<E>)
    requires ExactSearch(arcs, from, to, depth, hits, |hits| < cap) && WholeBatches(arcs, from, to, hits)
    requires from != to && depth >= 1 && cap > 0 && a in Between(arcs, from, to)
    ensures OneStep(a) in hits
  {
    var s := OneStep(a);
    assert SimplePath(arcs, from, to, s) && Parent(s) == Trail([from], []);
    forall h | h in hits && |h.edges| == 1 ensures Parent(h) == Trail([from], []) {
      assert h.nodes == [h.nodes[0], h.nodes[1]];
    }
    if |hits| > 0 { assert hits[0] in hits; }
  }

  lemma {:induction false} DirectCounted<E>(batch: seq<Trail<E>>, direct: set<Arc<E>>)
    requires NoDuplicates(batch) && forall a | a in direct :: OneStep(a) in batch
    ensures |direct| <= |batch|
    decreases direct
  {
    if a :| a in direct {
      var k :| 0 <= k < |batch| && batch[k] == OneStep(a);
      var rest := batch[..k] + batch[k + 1..];
      forall b | b in direct - {a} ensures OneStep(b) in rest {
        var j :| 0 <= j < |batch| && batch[j] == OneStep(b);
        assert OneStep(a).nodes == [a.from, a.to] && OneStep(b).nodes == [b.from, b.to]
               && OneStep(a).edges[0] == a.edge && OneStep(b).edges[0] == b.edge;
        assert if j < k then rest[j] == OneStep(b) else rest[j - 1] == OneStep(b);
      }
      DirectCounted(rest, direct - {a});
    }
  }

  /** At depth one the cap bounds nothing: there are as many results as arcs. */
  lemma DepthOneExactly<E(!new)>(arcs: set<Arc<E>>, from: string, to: string, hits: seq<Trail<E>>, cap: nat)
    requires ExactSearch(arcs, from, to, 1, hits, |hits| < cap) && WholeBatches(arcs, from, to, hits)
    requires from != to && cap > 0
    ensures |hits| == |Between(arcs, from, to)|
  {
    var direct := Between(arcs, from, to);
    forall a | a in direct ensures OneStep(a) in hits { DirectReported(arcs, from, to, 1, hits, cap, a); }
    DirectCounted(hits, direct);
    var q := Trail([from], []);
    forall t | t in hits ensures Parent(t) == q && Arc(from, t.edges[|t.edges| - 1], to) in direct {
      assert t.nodes == [t.nodes[0], t.nodes[1]];
      LastArc(arcs, from, to, t);
    }
    SiblingsBounded(arcs, from, to, q, from, hits, direct);
  }

  // ---- Links walked both ways ----

  ghost function BothWays<E>(links: seq<Arc<E>>): set<Arc<E>> {
    (set a | a in links) + (set a | a in links :: Arc(a.to, a.edge, a.from))
  }

  ghost predicate DistinctLabels<E>(links: seq<Arc<E>>) {
    forall i, j | 0 <= i < j < |links| :: links[i].edge != links[j].edge
  }

  function Ends<E>(a: Arc<E>, u: string): seq<(string, E)> {
    (if a.from == u then [(a.to, a.edge)] else []) + (if a.to == u then [(a.from, a.edge)] else [])
  }

  /** The (neighbour, label) pairs of u, in link order. */
  function AdjacentTo<E>(links: seq<Arc<E>>, u: string): seq<(string, E)> {
    if |links| == 0 then [] else AdjacentTo(links[..|links| - 1], u) + Ends(links[|links| - 1], u)
  }

  ghost predicate Joins<E>(a: Arc<E>, u: string, v: string) {
    (a.from == u && a.to == v) || (a.to == u && a.from == v)
  }

  lemma EndsMembers<E>(a: Arc<E>, u: string, x: (string, E))
    ensures x in Ends(a, u) <==> x.1 == a.edge && Joins(a, u, x.0)
    ensures x in Ends(a, u) && x.0 != u ==> multiset(Ends(a, u))[x] == 1
  {
  }

  lemma {:induction false} AdjacentMembers<E>(links: seq<Arc<E>>, u: string, x: (string, E))
    requires DistinctLabels(links)
    ensures x in AdjacentTo(links, u) <==> exists a :: a in links && a.edge == x.1 && Joins(a, u, x.0)
    ensures x in AdjacentTo(links, u) && x.0 != u ==> multiset(AdjacentTo(links, u))[x] == 1
  {
    hide Ends, Joins;
    if |links| > 0 {
      var init, a := links[..|links| - 1], links[|links| - 1];
      AdjacentMembers(init, u, x);
      EndsMembers(a, u, x);
      assert links == init + [a];
      assert forall b | b in init :: b.edge != a.edge;
      assert multiset(AdjacentTo(links, u))[x] == multiset(AdjacentTo(init, u))[x] + multiset(Ends(a, u))[x];
    }
  }

  lemma SortedAdjacencyLists<E(!new)>(links: seq<Arc<E>>, u: string, key: ((string, E)) -> string)
    requires DistinctLabels(links)
    ensures Lists(BothWays(links), u, Text.SortBy(AdjacentTo(links, u), key))
  {
    hide *;
    RearrangedLists(links, u, Text.SortBy(AdjacentTo(links, u), key));
  }

  lemma RearrangedLists<E(!new)>(links: seq<Arc<E>>, u: string, outs: seq<(string, E)>)
    requires DistinctLabels(links) && multiset(outs) == multiset(AdjacentTo(links, u))
    ensures Lists(BothWays(links), u, outs)
  {
    Sorting.Rearranged(outs, AdjacentTo(links, u));
    hide AdjacentTo, DistinctLabels, BothWays;
    forall v, e ensures (v, e) in outs <==> Arc(u, e, v) in BothWays(links) { AdjacentArcs(links, u, v, e); }
    forall x | x in outs && x.0 != u ensures multiset(outs)[x] == 1 { AdjacentMembers(links, u, x); }
  }

  lemma AdjacentArcs<E>(links: seq<Arc<E>>, u: string, v: string, e: E)
    requires DistinctLabels(links)
    ensures (v, e) in AdjacentTo(links, u) <==> Arc(u, e, v) in BothWays(links)
  {
    AdjacentMembers(links, u, (v, e));
    hide AdjacentTo, DistinctLabels;
    if Arc(u, e, v) in BothWays(links) { assert Arc(u, e, v) in links || Arc(v, e, u) in links; }
  }

  /** `adjacency.get(u, [])` */
  function NeighborsOf<E>(adjacency: map<string, seq<(string, E)>>, u: string): seq<(string, E)> {
    if u in adjacency then adjacency[u] else []
  }

  /** `adjacency.setdefault(u, []).append(item)` */
  function Appended<E>(adjacency: map<string, seq<(string, E)>>, u: string,
                       item: (string, E)): map<string, seq<(string, E)>> {
    adjacency[u := NeighborsOf(adjacency, u) + [item]]
  }

  lemma AppendedEnds<E>(adjacency: map<string, seq<(string, E)>>, a: Arc<E>, u: string)
    ensures NeighborsOf(Appended(Appended(adjacency, a.from, (a.to, a.edge)), a.to, (a.from, a.edge)), u)
            == NeighborsOf(adjacency, u) + Ends(a, u)
  {
  }

  method Adjacency<E>(links: seq<Arc<E>>) returns (adjacency: map<string, seq<(string, E)>>)
    ensures forall u :: NeighborsOf(adjacency, u) == AdjacentTo(links, u)
  {
    adjacency := map[];
    for i := 0 to |links|
      invariant forall u :: NeighborsOf(adjacency, u) == AdjacentTo(links[..i], u)
    {
      hide Appended, NeighborsOf, Ends;
      var a := links[i];
      ghost var before := adjacency;
      adjacency := Appended(Appended(adjacency, a.from, (a.to, a.edge)), a.to, (a.from, a.edge));
      forall u ensures NeighborsOf(adjacency, u) == AdjacentTo(links[..i + 1], u) {
        assert links[..i + 1][..i] == links[..i];
        AppendedEnds(before, a, u);
      }
    }
    assert links[..|links|] == links;
  }

  // ---- Reversal ----

  function Reverse<T>(s: seq<T>): (r: seq<T>)
    ensures |r| == |s|
    ensures forall i | 0 <= i < |s| :: r[i] == s[|s| - 1 - i]
  {
    if |s| == 0 then [] else Reverse(s[1..]) + [s[0]]
  }

  lemma ReversedPath<E>(links: seq<Arc<E>>, from: string, to: string, t: Trail<E>)
    requires SimplePath(BothWays(links), from, to, t)
    ensures SimplePath(BothWays(links), to, from, Trail(Reverse(t.nodes), Reverse(t.edges)))
  {
    var r := Trail(Reverse(t.nodes), Reverse(t.edges));
    var n, arcs := |t.edges|, BothWays(links);
    forall i | 0 <= i < n ensures Arc(r.nodes[i], r.edges[i], r.nodes[i + 1]) in arcs {
      assert Arc(t.nodes[n - 1 - i], t.edges[n - 1 - i], t.nodes[n - i]) in arcs;
    }
  }

  // ---- Termination: the trails within a depth are finitely many ----

  ghost function Within<E>(arcs: set<Arc<E>>, from: string, k: nat): set<Trail<E>> {
    if k == 0 then {Trail([from], [])} else
      var shorter := Within(arcs, from, k - 1);
      shorter + set t, a | t in shorter && a in arcs :: Extend(t, a.edge, a.to)
  }

  lemma {:induction false} WithinMember<E>(arcs: set<Arc<E>>, from: string, t: Trail<E>, k: nat)
    requires Follows(arcs, t) && t.nodes[0] == from && |t.edges| <= k
    ensures t in Within(arcs, from, k)
    decreases k
  {
    var n := |t.edges|;
    if n == 0 && k == 0 {
      assert t.nodes == [from] && t.edges == [];
    } else if n < k {
      WithinMember(arcs, from, t, k - 1);
    } else {
      var init := Trail(t.nodes[..n], t.edges[..n - 1]);
      WithinMember(arcs, from, init, k - 1);
      var a := Arc(t.nodes[n - 1], t.edges[n - 1], t.nodes[n]);
      assert a in arcs;
      assert t.nodes == init.nodes + [a.to] && t.edges == init.edges + [a.edge];
      assert t == Extend(init, a.edge, a.to);
    }
  }

  // ---- A graph in which the cap is overshot as far as can be ----

  function Middle(k: nat): string {
    "x" + seq(k, _ => 'x')
  }

  /**
   The ends of the i-th link: n tables in the middle of paths of two steps from a to b, and then a path over c and d
   whose last step is there many times.
  */
  function TightEnds(n: nat, i: nat): (string, string) {
    if i < 2 * n then if i % 2 == 0 then ("a", Middle(i / 2)) else (Middle(i / 2), "b")
    else if i == 2 * n then ("a", "c") else if i == 2 * n + 1 then ("c", "d") else ("d", "b")
  }

  function TightArc<E>(tag: nat -> E, n: nat, i: nat): Arc<E> {
    Arc(TightEnds(n, i).0, tag(i), TightEnds(n, i).1)
  }

  /** The links are those of the graph with n middle tables and m last steps. */
  ghost predicate Tight<E(!new)>(links: seq<Arc<E>>, tag: nat -> E, n: nat, m: nat) {
    forall x :: x in links <==> exists i: nat :: i < 2 * n + 2 + m && x == TightArc(tag, n, i)
  }

  ghost predicate Distinguishes<E>(tag: nat -> E) {
    forall i: nat, j: nat | tag(i) == tag(j) :: i == j
  }

  function LastTag<E>(tag: nat -> E, n: nat, j: nat): E {
    tag(2 * n + 2 + j)
  }

  function MiddlePath<E>(tag: nat -> E, k: nat): Trail<E> {
    Trail(["a", Middle(k), "b"], [tag(2 * k), tag(2 * k + 1)])
  }

  function LongPath<E>(tag: nat -> E, n: nat, j: nat): Trail<E> {
    Trail(["a", "c", "d", "b"], [tag(2 * n), tag(2 * n + 1), LastTag(tag, n, j)])
  }

  lemma MiddleNames(k: nat, l: nat)
    ensures Middle(k)[0] == 'x' && |Middle(k)| == k + 1
    ensures Middle(k) == Middle(l) <==> k == l
  {
  }

  lemma EvenOdd(k: nat)
    ensures 2 * k % 2 == 0 && 2 * k / 2 == k && (2 * k + 1) % 2 == 1 && (2 * k + 1) / 2 == k
  {
  }

  lemma TightLinks<E(!new)>(links: seq<Arc<E>>, tag: nat -> E, n: nat, m: nat, k: nat, j: nat)
    requires Tight(links, tag, n, m)
    ensures k < n ==> Arc("a", tag(2 * k), Middle(k)) in links && Arc(Middle(k), tag(2 * k + 1), "b") in links
    ensures Arc("a", tag(2 * n), "c") in links && Arc("c", tag(2 * n + 1), "d") in links
    ensures j < m ==> Arc("d", LastTag(tag, n, j), "b") in links
  {
    EvenOdd(k);
    hide Middle;
    assert TightArc(tag, n, 2 * n) in links && TightArc(tag, n, 2 * n + 1) in links;
    if k < n { assert TightArc(tag, n, 2 * k) in links && TightArc(tag, n, 2 * k + 1) in links; }
    if j < m { assert TightArc(tag, n, 2 * n + 2 + j) in links; }
  }

  /** What a step of the graph can be, from its number. */
  ghost predicate StepFrom<E>(tag: nat -> E, n: nat, m: nat, x: Arc<E>) {
    || (exists k: nat :: k < n && x == Arc("a", tag(2 * k), Middle(k)))
    || (exists k: nat :: k < n && x == Arc(Middle(k), tag(2 * k + 1), "b"))
    || x == Arc("a", tag(2 * n), "c") || x == Arc("c", tag(2 * n + 1), "d")
    || (exists j: nat :: j < m && x == Arc("d", LastTag(tag, n, j), "b"))
  }

  lemma TightSteps<E(!new)>(links: seq<Arc<E>>, tag: nat -> E, n: nat, m: nat, x: Arc<E>)
    requires Tight(links, tag, n, m) && x in links
    ensures StepFrom(tag, n, m, x)
  {
    var i: nat :| i < 2 * n + 2 + m && x == TightArc(tag, n, i);
    hide Middle;
    if i < 2 * n {
      var k := i / 2;
      assert k < n && (i == 2 * k || i == 2 * k + 1);
    } else if i > 2 * n + 1 {
      var j: nat := i - (2 * n + 2);
      assert i == 2 * n + 2 + j && j < m && x == Arc("d", LastTag(tag, n, j), "b");
    }
  }

  /** Where a walk can go on from each kind of node, unless it goes back. */
  lemma TightOnward<E(!new)>(links: seq<Arc<E>>, tag: nat -> E, n: nat, m: nat, x: Arc<E>)
    requires Tight(links, tag, n, m) && x in BothWays(links)
    ensures x.from == "a" ==>
              (x.to == "c" && x.edge == tag(2 * n)) || exists k: nat ::
                k < n && x.to == Middle(k) && x.edge == tag(2 * k)
    ensures x.from == "c" ==> x.to == "a" || (x.to == "d" && x.edge == tag(2 * n + 1))
    ensures x.from == "d" ==> x.to == "c" || (x.to == "b" && exists j: nat :: j < m && x.edge == LastTag(tag, n, j))
    ensures forall k: nat | x.from == Middle(k) :: x.to == "a" || (x.to == "b" && x.edge == tag(2 * k + 1))
  {
    var y := if x in links then x else Arc(x.to, x.edge, x.from);
    assert y in links;
    TightSteps(links, tag, n, m, y);
    forall k: nat, l: nat ensures Middle(k)[0] == 'x' && (Middle(k) == Middle(l) <==> k == l) { MiddleNames(k, l); }
    hide Middle, Tight;
  }

  lemma TightPaths<E(!new)>(links: seq<Arc<E>>, tag: nat -> E, n: nat, m: nat, t: Trail<E>)
    requires Tight(links, tag, n, m) && SimplePath(BothWays(links), "a", "b", t) && |t.edges| <= 3
    ensures (exists k: nat :: k < n && t == MiddlePath(tag, k)) || exists j: nat :: j < m && t == LongPath(tag, n, j)
  {
    var arcs := BothWays(links);
    var first, e := t.nodes[1], t.edges[0];
    assert Arc(t.nodes[0], e, first) in arcs;
    TightOnward(links, tag, n, m, Arc("a", e, first));
    MiddleNames(0, 0);
    hide Tight, BothWays, Middle;
    if first == "c" {
      assert Arc("c", t.edges[1], t.nodes[2]) in arcs;
      TightOnward(links, tag, n, m, Arc("c", t.edges[1], t.nodes[2]));
      assert t.nodes[2] == "d" && Arc("d", t.edges[2], t.nodes[3]) in arcs;
      TightOnward(links, tag, n, m, Arc("d", t.edges[2], t.nodes[3]));
      var j: nat :| j < m && t.edges[2] == LastTag(tag, n, j);
      assert t.nodes == ["a", "c", "d", "b"] && t == LongPath(tag, n, j);
    } else {
      var k: nat :| k < n && first == Middle(k) && e == tag(2 * k);
      MiddleNames(k, k);
      assert Arc(Middle(k), t.edges[1], t.nodes[2]) in arcs;
      TightOnward(links, tag, n, m, Arc(Middle(k), t.edges[1], t.nodes[2]));
      assert t.nodes[2] == "b" && |t.edges| == 2;
      assert t.nodes == ["a", Middle(k), "b"] && t == MiddlePath(tag, k);
    }
  }

  lemma TightSimple<E(!new)>(links: seq<Arc<E>>, tag: nat -> E, n: nat, m: nat, k: nat, j: nat)
    requires Tight(links, tag, n, m)
    ensures k < n ==> SimplePath(BothWays(links), "a", "b", MiddlePath(tag, k))
    ensures j < m ==> SimplePath(BothWays(links), "a", "b", LongPath(tag, n, j))
  {
    TightLinks(links, tag, n, m, k, j);
    MiddleNames(k, k);
    hide Tight, Middle;
  }

  lemma {:induction false} ImagesBound<T>(s: seq<T>, f: nat -> T, n: nat)
    requires NoDuplicates(s) && forall x | x in s :: exists i: nat :: i < n && f(i) == x
    ensures |s| <= n
  {
    if |s| > 0 {
      assert s[0] in s;
      var least: nat :| least < n && f(least) == s[0];
      if f(n - 1) !in s {
        ImagesBound(s, f, n - 1);
        return;
      }
      var k :| 0 <= k < |s| && s[k] == f(n - 1);
      var rest := s[..k] + s[k + 1..];
      forall x | x in rest ensures exists i: nat :: i < n - 1 && f(i) == x {
        var l :| 0 <= l < |rest| && rest[l] == x;
        assert x == (if l < k then s[l] else s[l + 1]) && x in s && x != s[k];
        var i: nat :| i < n && f(i) == x;
      }
      ImagesBound(rest, f, n - 1);
    }
  }

  lemma {:induction false} ImagesCount<T>(s: seq<T>, f: nat -> T, n: nat)
    requires forall i: nat | i < n :: f(i) in s
    requires forall i: nat, j: nat | i < j < n :: f(i) != f(j)
    ensures |s| >= n
  {
    if n > 0 {
      var k :| 0 <= k < |s| && s[k] == f(n - 1);
      var rest := s[..k] + s[k + 1..];
      forall i: nat | i < n - 1 ensures f(i) in rest {
        var l :| 0 <= l < |s| && s[l] == f(i);
        assert f(i) != f(n - 1);
        assert rest[if l < k then l else l - 1] == f(i);
      }
      ImagesCount(rest, f, n - 1);
    }
  }

  /** The paths of the graph in one numbering: those over a middle table, then the long ones. */
  function TightPath<E>(tag: nat -> E, n: nat, i: nat): Trail<E> {
    if i < n then MiddlePath(tag, i) else LongPath(tag, n, i - n)
  }

  lemma TightPathsDiffer<E(!new)>(tag: nat -> E, n: nat, i: nat, j: nat)
    requires Distinguishes(tag) && TightPath(tag, n, i) == TightPath(tag, n, j)
    ensures i == j
  {
    var s, t := TightPath(tag, n, i), TightPath(tag, n, j);
    assert |s.edges| == |t.edges|;
    assert s.edges[0] == t.edges[0] && s.edges[|s.edges| - 1] == t.edges[|t.edges| - 1];
  }

  /** A stopped search has reported a long path, since fewer than the cap are short. */
  lemma LongReported<E(!new)>(links: seq<Arc<E>>, tag: nat -> E, n: nat, m: nat, hits: seq<Trail<E>>) returns (j: nat)
    requires Tight(links, tag, n, m) && m > 0
    requires ExactSearch(BothWays(links), "a", "b", 3, hits, |hits| < n + 1)
    ensures j < m && LongPath(tag, n, j) in hits
  {
    if k: nat :| k < m && LongPath(tag, n, k) in hits {
      j := k;
    } else {
      var f := (i: nat) => MiddlePath(tag, i);
      forall t | t in hits ensures exists i: nat :: i < n && f(i) == t {
        TightPaths(links, tag, n, m, t);
        var i: nat :| i < n && t == MiddlePath(tag, i);
        assert f(i) == t;
      }
      ImagesBound(hits, f, n);
      TightSimple(links, tag, n, m, 0, 0);
      hide Tight, BothWays;
      assert false;
    }
  }

  lemma LongParents<E>(tag: nat -> E, n: nat, j: nat, k: nat)
    ensures Parent(LongPath(tag, n, j)) == Parent(LongPath(tag, n, k))
  {
    assert Parent(LongPath(tag, n, j)) == Trail(["a", "c", "d"], [tag(2 * n), tag(2 * n + 1)]);
    assert Parent(LongPath(tag, n, k)) == Trail(["a", "c", "d"], [tag(2 * n), tag(2 * n + 1)]);
  }

  lemma ShorterReported<E(!new)>(arcs: set<Arc<E>>, from: string, to: string, depth: int, hits: seq<Trail<E>>,
                                 complete: bool, s: Trail<E>, longer: Trail<E>)
    requires ExactSearch(arcs, from, to, depth, hits, complete) && longer in hits
    requires SimplePath(arcs, from, to, s) && |s.edges| < |longer.edges| <= depth
    ensures s in hits
  {
    hide SimplePath, NoDuplicates;
  }

  lemma SiblingReported<E(!new)>(arcs: set<Arc<E>>, from: string, to: string, hits: seq<Trail<E>>, s: Trail<E>,
                                 other: Trail<E>)
    requires WholeBatches(arcs, from, to, hits) && other in hits
    requires SimplePath(arcs, from, to, s) && Parent(s) == Parent(other)
    ensures s in hits
  {
    hide SimplePath, Parent;
  }

  lemma AllReported<E(!new)>(links: seq<Arc<E>>, tag: nat -> E, n: nat, m: nat, hits: seq<Trail<E>>, i: nat)
    requires Tight(links, tag, n, m) && i < n + m && m > 0
    requires ExactSearch(BothWays(links), "a", "b", 3, hits, |hits| < n + 1)
    requires WholeBatches(BothWays(links), "a", "b", hits)
    ensures TightPath(tag, n, i) in hits
  {
    hide Tight, BothWays, SimplePath, Parent, ExactSearch, WholeBatches, Middle;
    var arcs := BothWays(links);
    var j := LongReported(links, tag, n, m, hits);
    if i < n {
      TightSimple(links, tag, n, m, i, 0);
      ShorterReported(arcs, "a", "b", 3, hits, |hits| < n + 1, MiddlePath(tag, i), LongPath(tag, n, j));
    } else {
      TightSimple(links, tag, n, m, 0, i - n);
      LongParents(tag, n, j, i - n);
      hide LongPath;
      SiblingReported(arcs, "a", "b", hits, LongPath(tag, n, i - n), LongPath(tag, n, j));
    }
  }

  lemma TightPathNumber<E(!new)>(links: seq<Arc<E>>, tag: nat -> E, n: nat, m: nat, t: Trail<E>)
    requires Tight(links, tag, n, m) && SimplePath(BothWays(links), "a", "b", t) && |t.edges| <= 3
    ensures exists i: nat :: i < n + m && TightPath(tag, n, i) == t
  {
    TightPaths(links, tag, n, m, t);
    hide MiddlePath, LongPath, Tight, SimplePath;
    if k: nat :| k < n && t == MiddlePath(tag, k) {
      assert TightPath(tag, n, k) == t;
    } else {
      var j: nat :| j < m && t == LongPath(tag, n, j);
      assert TightPath(tag, n, n + j) == t;
    }
  }

  /** In this graph a search that stops at cap n + 1 reports n + m paths, one less than cap + m. */
  lemma OvershootAttained<E(!new)>(links: seq<Arc<E>>, tag: nat -> E, n: nat, m: nat, hits: seq<Trail<E>>)
    requires Tight(links, tag, n, m) && Distinguishes(tag) && m > 0
    requires ExactSearch(BothWays(links), "a", "b", 3, hits, |hits| < n + 1)
             && WholeBatches(BothWays(links), "a", "b", hits)
    ensures |hits| == n + m
  {
    hide Tight, BothWays, WholeBatches, TightPath, SimplePath, Distinguishes;
    var f := (i: nat) => TightPath(tag, n, i);
    forall i: nat | i < n + m ensures f(i) in hits { AllReported(links, tag, n, m, hits, i); }
    forall i: nat, j: nat | i < j < n + m ensures f(i) != f(j) {
      if f(i) == f(j) { TightPathsDiffer(tag, n, i, j); }
    }
    forall t | t in hits ensures exists i: nat :: i < n + m && f(i) == t {
      TightPathNumber(links, tag, n, m, t);
      var i: nat :| i < n + m && TightPath(tag, n, i) == t;
      assert f(i) == t;
    }
    assert NoDuplicates(hits);
    hide *;
    ImagesCount(hits, f, n + m);
    ImagesBound(hits, f, n + m);
  }

  lemma {:induction false} ImageSize<T>(f: nat -> T, n: nat)
    ensures |set i: nat | i < n :: f(i)| <= n
  {
    if n > 0 {
      ImageSize(f, n - 1);
      assert (set i: nat | i < n :: f(i)) == (set i: nat | i < n - 1 :: f(i)) + {f(n - 1)};
    } else {
      assert (set i: nat | i < n :: f(i)) == {};
    }
  }

  /** And no node of it has more than m arcs to the goal. */
  lemma TightBetween<E(!new)>(links: seq<Arc<E>>, tag: nat -> E, n: nat, m: nat, u: string)
    requires Tight(links, tag, n, m) && m > 0
    ensures |Between(BothWays(links), u, "b")| <= m
  {
    var between := Between(BothWays(links), u, "b");
    var f := (j: nat) => Arc("d", LastTag(tag, n, j), "b");
    var last := set j: nat | j < m :: f(j);
    ImageSize(f, m);
    if u == "d" {
      forall x | x in between ensures x in last {
        TightOnward(links, tag, n, m, x);
        var j: nat :| j < m && x.edge == LastTag(tag, n, j);
        assert x == f(j);
      }
      SubsetSize(between, last);
    } else if k: nat :| u == Middle(k) {
      forall x | x in between ensures x in {Arc(u, tag(2 * k + 1), "b")} { TightOnward(links, tag, n, m, x); }
      SubsetSize(between, {Arc(u, tag(2 * k + 1), "b")});
    } else {
      forall x | x in between ensures false { IntoGoal(links, tag, n, m, x); }
      assert between == {};
    }
  }

  lemma IntoGoal<E(!new)>(links: seq<Arc<E>>, tag: nat -> E, n: nat, m: nat, x: Arc<E>)
    requires Tight(links, tag, n, m) && x in BothWays(links) && x.to == "b"
    ensures x.from == "d" || exists k: nat :: x.from == Middle(k)
  {
    var y := if x in links then x else Arc(x.to, x.edge, x.from);
    TightSteps(links, tag, n, m, y);
    forall k: nat ensures Middle(k)[0] == 'x' { MiddleNames(k, k); }
    hide Middle, Tight;
  }

  lemma SubsetSize<T>(a: set<T>, b: set<T>)
    requires a <= b
    ensures |a| <= |b|
  {
    assert b == a + (b - a);
  }
}
