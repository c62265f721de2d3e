/** Join paths between tables: bounded breadth-first search over the join edges, per ordered pair of tables. */
module Topology {
  import opened Common
  import opened PathSearch
  import opened SearchOrder
  import Text

  const MAX_PATHS_PER_PAIR := 3

  datatype JoinEdge = JoinEdge(left: string, right: string, kind: string, details: string)

  /** The text before the first dot of a "table.column" reference. */
  function TableOf(ref: string): string {
    if |ref| == 0 || ref[0] == '.' then "" else [ref[0]] + TableOf(ref[1..])
  }

  function EdgeRef(edge: JoinEdge): string {
    edge.left + "=" + edge.right
  }

  /** An edge is known by its position in the tuple, so equal edges stay apart. */
  function Links(edges: seq<JoinEdge>): (links: seq<Arc<nat>>)
    ensures DistinctLabels(links)
    ensures forall a | a in links :: a.edge < |edges|
  {
    seq(|edges|, i requires 0 <= i < |edges| => Arc(TableOf(edges[i].left), i, TableOf(edges[i].right)))
  }

  function RefAt(edges: seq<JoinEdge>, i: nat): string {
    if i < |edges| then EdgeRef(edges[i]) else ""
  }

  function Refs(edges: seq<JoinEdge>, path: seq<nat>): (refs: seq<string>)
    ensures |refs| == |path|
  {
    seq(|path|, i requires 0 <= i < |path| => RefAt(edges, path[i]))
  }

  /** p names the edges of a simple path from start to goal within the depth. */
  ghost predicate JoinPath(edges: seq<JoinEdge>, start: string, goal: string, depth: int, p: seq<string>) {
    exists t :: SimplePath(BothWays(Links(edges)), start, goal, t) && |t.edges| <= depth && p == Refs(edges, t.edges)
  }

  /** The table is the reference's text before the first dot, or all of it. */
  ghost predicate OfTable(ref: string, table: string) {
    '.' !in table && (ref == table || table + "." <= ref)
  }

  /** The edge leads from one table to the other, and the text is its two references joined by "=". */
  ghost predicate Leads(edge: JoinEdge, u: string, v: string, text: string) {
    && text == edge.left + "=" + edge.right
    && ((OfTable(edge.left, u) && OfTable(edge.right, v)) || (OfTable(edge.left, v) && OfTable(edge.right, u)))
  }

  ghost predicate Led(edges: seq<JoinEdge>, u: string, v: string, text: string) {
    exists e :: e in edges && Leads(e, u, v, text)
  }

  ghost predicate LeadsAlong(edges: seq<JoinEdge>, tables: seq<string>, p: seq<string>) {
    && |tables| == |p| + 1
    && forall i | 0 <= i < |p| :: Led(edges, tables[i], tables[i + 1], p[i])
  }

  lemma InitLeads(edges: seq<JoinEdge>, tables: seq<string>, p: seq<string>)
    requires LeadsAlong(edges, tables, p) && |p| > 0
    ensures LeadsAlong(edges, tables[..|p|], p[..|p| - 1])
    ensures Led(edges, tables[|p| - 1], tables[|p|], p[|p| - 1])
  {
    hide Led;
  }

  lemma {:induction false} TableOfExactly(ref: string, table: string)
    ensures OfTable(ref, table) <==> table == TableOf(ref)
  {
    if |ref| > 0 && ref[0] != '.' {
      TableOfExactly(ref[1..], if |table| > 0 then table[1..] else "");
      if OfTable(ref, table) {
        assert table != "";
        assert table[0] == ref[0] && table[1..] + "." == (table + ".")[1..];
      }
      if table == TableOf(ref) {
        assert table + "." == [ref[0]] + (TableOf(ref[1..]) + ".");
      }
    }
  }

  lemma LinkLeads(edges: seq<JoinEdge>, u: string, i: nat, v: string)
    ensures Arc(u, i, v) in BothWays(Links(edges)) <==> i < |edges| && Leads(edges[i], u, v, RefAt(edges, i))
  {
    if i < |edges| {
      TableOfExactly(edges[i].left, u);
      TableOfExactly(edges[i].left, v);
      TableOfExactly(edges[i].right, u);
      TableOfExactly(edges[i].right, v);
      assert Links(edges)[i] in Links(edges);
    }
  }

  lemma {:induction false} LeadsTrail(edges: seq<JoinEdge>, tables: seq<string>, p: seq<string>)
    returns (t: Trail<nat>)
    requires LeadsAlong(edges, tables, p)
    ensures Follows(BothWays(Links(edges)), t) && t.nodes == tables && Refs(edges, t.edges) == p
  {
    var n := |p|;
    if n == 0 {
      t := Trail(tables, []);
    } else {
      InitLeads(edges, tables, p);
      hide LeadsAlong;
      var init := LeadsTrail(edges, tables[..n], p[..n - 1]);
      t := LeadsOn(edges, init, tables[n - 1], tables[n], p[n - 1]);
      assert p == p[..n - 1] + [p[n - 1]] && tables == tables[..n] + [tables[n]];
    }
  }

  lemma LedLink(edges: seq<JoinEdge>, u: string, v: string, text: string) returns (i: nat)
    requires Led(edges, u, v, text)
    ensures Arc(u, i, v) in BothWays(Links(edges)) && RefAt(edges, i) == text
  {
    var e :| e in edges && Leads(e, u, v, text);
    i :| 0 <= i < |edges| && edges[i] == e;
    LinkLeads(edges, u, i, v);
  }

  lemma LeadsOn(edges: seq<JoinEdge>, init: Trail<nat>, u: string, v: string, text: string)
    returns (t: Trail<nat>)
    requires Follows(BothWays(Links(edges)), init) && init.nodes[|init.edges|] == u && Led(edges, u, v, text)
    ensures Follows(BothWays(Links(edges)), t) && t.nodes == init.nodes + [v]
    ensures Refs(edges, t.edges) == Refs(edges, init.edges) + [text]
  {
    hide Links, BothWays, Refs, RefAt, Led;
    var i := LedLink(edges, u, v, text);
    RefsGrow(edges, init.edges, i);
    t := Extend(init, i, v);
  }

  lemma TrailLeads(edges: seq<JoinEdge>, t: Trail<nat>)
    requires Follows(BothWays(Links(edges)), t)
    ensures LeadsAlong(edges, t.nodes, Refs(edges, t.edges))
  {
    hide Led;
    var p := Refs(edges, t.edges);
    forall i | 0 <= i < |p| ensures Led(edges, t.nodes[i], t.nodes[i + 1], p[i]) {
      hide Leads, BothWays, Links;
      assert Arc(t.nodes[i], t.edges[i], t.nodes[i + 1]) in BothWays(Links(edges));
      LinkLed(edges, t.nodes[i], t.edges[i], t.nodes[i + 1]);
    }
  }

  lemma LinkLed(edges: seq<JoinEdge>, u: string, i: nat, v: string)
    requires Arc(u, i, v) in BothWays(Links(edges))
    ensures Led(edges, u, v, RefAt(edges, i))
  {
    LinkLeads(edges, u, i, v);
    assert edges[i] in edges;
  }

  /** A join path is a list of edge texts along different tables, each text that of an edge between two neighbours. */
  lemma JoinPathExactly(edges: seq<JoinEdge>, start: string, goal: string, depth: int, p: seq<string>)
    ensures JoinPath(edges, start, goal, depth, p) <==>
            && 1 <= |p| <= depth
            && exists tables :: LeadsAlong(edges, tables, p) && NoDuplicates(tables)
                 && tables[0] == start && tables[|p|] == goal
  {
    hide BothWays, Links, Led;
    var arcs := BothWays(Links(edges));
    if t :| SimplePath(arcs, start, goal, t) && |t.edges| <= depth && p == Refs(edges, t.edges) {
      TrailLeads(edges, t);
    }
    if tables :| 1 <= |p| <= depth && LeadsAlong(edges, tables, p) && NoDuplicates(tables)
                 && tables[0] == start && tables[|p|] == goal
    {
      var t := LeadsTrail(edges, tables, p);
      assert |t.edges| == |Refs(edges, t.edges)|;
      assert SimplePath(arcs, start, goal, t);
    }
  }

  /** Distinct join paths, shortest first; an omitted one is no shorter, and none is omitted below the cap. */
  ghost predicate ExactJoinPaths(edges: seq<JoinEdge>, start: string, goal: string, depth: int,
                                 found: seq<seq<string>>) {
    && (forall p | p in found :: JoinPath(edges, start, goal, depth, p))
    && NoDuplicates(found)
    && Lengthening(found)
    && (forall p | JoinPath(edges, start, goal, depth, p) && p !in found ::
          |found| >= 3 && forall f | f in found :: |f| <= |p|)
  }

  ghost predicate Lengthening(found: seq<seq<string>>) {
    forall i, j | 0 <= i < j < |found| :: |found[i]| <= |found[j]|
  }

  // ---- The search ----

  ghost predicate Stands(edges: seq<JoinEdge>, entry: (string, seq<string>, set<string>), t: Trail<nat>) {
    && |t.nodes| == |t.edges| + 1
    && entry.0 == t.nodes[|t.edges|]
    && entry.1 == Refs(edges, t.edges)
    && entry.2 == set v | v in t.nodes
  }

  ghost predicate StandsForAll(edges: seq<JoinEdge>, queue: seq<(string, seq<string>, set<string>)>,
                               trails: seq<Trail<nat>>) {
    && |queue| == |trails|
    && forall i | 0 <= i < |queue| :: Stands(edges, queue[i], trails[i])
  }

  /** The texts of the trails in order, a repeated text kept where it first stands. */
  function FirstTexts(edges: seq<JoinEdge>, trails: seq<Trail<nat>>): seq<seq<string>> {
    if |trails| == 0 then [] else
      var before := FirstTexts(edges, trails[..|trails| - 1]);
      var p := Refs(edges, trails[|trails| - 1].edges);
      if p in before then before else before + [p]
  }

  lemma FirstTextsAdd(edges: seq<JoinEdge>, trails: seq<Trail<nat>>, t: Trail<nat>)
    ensures var before, p := FirstTexts(edges, trails), Refs(edges, t.edges);
            FirstTexts(edges, trails + [t]) == if p in before then before else before + [p]
  {
    assert (trails + [t])[..|trails|] == trails;
  }

  /** The reported texts are the hits with repeated texts removed. */
  ghost predicate Reports(edges: seq<JoinEdge>, found: seq<seq<string>>, hits: seq<Trail<nat>>) {
    && found == FirstTexts(edges, hits)
    && NoDuplicates(found)
    && Lengthening(found)
    && (forall h | h in hits :: Refs(edges, h.edges) in found)
    && (forall p | p in found :: exists h | h in hits :: Refs(edges, h.edges) == p)
  }

  lemma ReportsAdds(edges: seq<JoinEdge>, found: seq<seq<string>>, hits: seq<Trail<nat>>, h: Trail<nat>)
    requires Reports(edges, found, hits) && forall x | x in hits :: |x.edges| <= |h.edges|
    ensures var p := Refs(edges, h.edges);
            Reports(edges, if p in found then found else found + [p], hits + [h])
  {
    var p := Refs(edges, h.edges);
    var found' := if p in found then found else found + [p];
    FirstTextsAdd(edges, hits, h);
    hide FirstTexts, Refs;
    assert |p| == |h.edges|;
    forall q | q in found' ensures exists x | x in hits + [h] :: Refs(edges, x.edges) == q {
      if q in found {
        var x :| x in hits && Refs(edges, x.edges) == q;
        assert x in hits + [h];
      } else {
        assert h in hits + [h];
      }
    }
    forall q | q in found ensures |q| <= |p| {
      var x :| x in hits && Refs(edges, x.edges) == q;
    }
  }

  lemma RefsGrow(edges: seq<JoinEdge>, path: seq<nat>, i: nat)
    ensures Refs(edges, path + [i]) == Refs(edges, path) + [RefAt(edges, i)]
  {
  }

  /** The texts of the edges between two tables. */
  ghost function RefsBetween(edges: seq<JoinEdge>, u: string, v: string): set<string> {
    set i | 0 <= i < |edges| && Joins(Links(edges)[i], u, v) :: EdgeRef(edges[i])
  }

  /** f is p followed by one edge between u and the goal. */
  ghost predicate NextText(edges: seq<JoinEdge>, u: string, goal: string, p: seq<string>, f: seq<string>) {
    |f| > 0 && f[..|f| - 1] == p && f[|f| - 1] in RefsBetween(edges, u, goal)
  }

  /** What is reported from the cap on stems from one expansion, that is, differs in its last edge only. */
  ghost predicate LastBatch(edges: seq<JoinEdge>, goal: string, found: seq<seq<string>>) {
    exists u, p :: PastCap(edges, u, goal, p, found)
  }

  ghost predicate PastCap(edges: seq<JoinEdge>, u: string, goal: string, p: seq<string>, found: seq<seq<string>>) {
    ExtendsFrom(edges, u, goal, p, found, MAX_PATHS_PER_PAIR - 1)
  }

  ghost predicate ExtendsFrom(edges: seq<JoinEdge>, u: string, goal: string, p: seq<string>, found: seq<seq<string>>,
                              k: nat) {
    forall i | k <= i < |found| :: NextText(edges, u, goal, p, found[i])
  }

  lemma LastBatchExpands(edges: seq<JoinEdge>, u: string, goal: string, p: seq<string>, found0: seq<seq<string>>,
                         found: seq<seq<string>>)
    requires |found0| < MAX_PATHS_PER_PAIR && ExtendsFrom(edges, u, goal, p, found, |found0|)
    ensures LastBatch(edges, goal, found)
  {
    assert PastCap(edges, u, goal, p, found);
  }

  /** An edge listed as leading from u to the goal joins the two. */
  ghost predicate OutsJoin(edges: seq<JoinEdge>, u: string, goal: string, outs: seq<(string, nat)>) {
    forall x | x in outs && x.0 == goal :: RefAt(edges, x.1) in RefsBetween(edges, u, goal)
  }

  lemma ListedJoin(edges: seq<JoinEdge>, u: string, goal: string, outs: seq<(string, nat)>)
    requires Lists(BothWays(Links(edges)), u, outs)
    ensures OutsJoin(edges, u, goal, outs)
  {
    forall x | x in outs && x.0 == goal ensures RefAt(edges, x.1) in RefsBetween(edges, u, goal) {
      assert Arc(u, x.1, x.0) in BothWays(Links(edges));
      var i :| 0 <= i < |edges| && Links(edges)[i].edge == x.1 && Joins(Links(edges)[i], u, goal);
      assert i == x.1;
    }
  }

  lemma StandsMore(edges: seq<JoinEdge>, queue: seq<(string, seq<string>, set<string>)>, trails: seq<Trail<nat>>,
                   entry: (string, seq<string>, set<string>), t: Trail<nat>)
    requires StandsForAll(edges, queue, trails) && Stands(edges, entry, t)
    ensures StandsForAll(edges, queue + [entry], trails + [t])
  {
    hide Stands;
  }

  lemma ExtendsMore(edges: seq<JoinEdge>, u: string, goal: string, p: seq<string>, found: seq<seq<string>>, k: nat,
                    edge: nat)
    requires ExtendsFrom(edges, u, goal, p, found, k) && RefAt(edges, edge) in RefsBetween(edges, u, goal)
    ensures ExtendsFrom(edges, u, goal, p, found + [p + [RefAt(edges, edge)]], k)
  {
    hide RefsBetween, RefAt;
  }

  method Expand(edges: seq<JoinEdge>, goal: string, entry: (string, seq<string>, set<string>), outs: seq<(string, nat)>,
                queue0: seq<(string, seq<string>, set<string>)>, found0: seq<seq<string>>, ghost t: Trail<nat>,
                ghost rest: seq<Trail<nat>>, ghost hits0: seq<Trail<nat>>)
    returns (queue: seq<(string, seq<string>, set<string>)>, found: seq<seq<string>>, ghost trails: seq<Trail<nat>>,
             ghost hits: seq<Trail<nat>>)
    requires Stands(edges, entry, t) && StandsForAll(edges, queue0, rest)
    requires Reports(edges, found0, hits0) && forall h | h in hits0 :: |h.edges| <= |t.edges| + 1
    requires OutsJoin(edges, entry.0, goal, outs)
    ensures trails == rest + Pushes(t, outs, goal) && StandsForAll(edges, queue, trails)
    ensures hits == hits0 + Hits(t, outs, goal) && Reports(edges, found, hits)
    ensures found0 <= found && ExtendsFrom(edges, entry.0, goal, entry.1, found, |found0|)
  {
    hide Reports, RefsBetween;
    var (current, path, visited) := entry;
    queue, found, trails, hits := queue0, found0, rest, hits0;
    for i := 0 to |outs|
      invariant trails == rest + Pushes(t, outs[..i], goal) && StandsForAll(edges, queue, trails)
      invariant hits == hits0 + Hits(t, outs[..i], goal) && Reports(edges, found, hits)
      invariant forall h | h in hits :: |h.edges| <= |t.edges| + 1
      invariant found0 <= found && ExtendsFrom(edges, current, goal, path, found, |found0|)
    {
      hide Hits, Pushes, Refs, RefAt, StandsForAll, ExtendsFrom;
      var (neighbor, edge) := outs[i];
      NextOut(t, outs, goal, i);
      if neighbor !in visited {
        var nextPath := path + [RefAt(edges, edge)];
        ghost var longer := Extend(t, edge, neighbor);
        RefsGrow(edges, t.edges, edge);
        if neighbor == goal {
          assert outs[i] in outs;
          ReportsAdds(edges, found, hits, longer);
          ExtendsMore(edges, current, goal, path, found, |found0|, edge);
          if nextPath !in found {
            found := found + [nextPath];
          }
          hits := hits + [longer];
        } else {
          StandsMore(edges, queue, trails, (neighbor, nextPath, visited + {neighbor}), longer);
          queue := queue + [(neighbor, nextPath, visited + {neighbor})];
          trails := trails + [longer];
        }
      }
    }
    assert outs[..|outs|] == outs;
  }

  lemma OneStands(edges: seq<JoinEdge>, start: string)
    ensures StandsForAll(edges, [(start, [], {start})], [Trail([start], [])]) && Reports(edges, [], [])
  {
  }

  lemma HeadStands(edges: seq<JoinEdge>, queue: seq<(string, seq<string>, set<string>)>, trails: seq<Trail<nat>>)
    requires StandsForAll(edges, queue, trails) && |queue| > 0
    ensures |trails| == |queue| && StandsForAll(edges, queue[1..], trails[1..]) && Stands(edges, queue[0], trails[0])
    ensures |trails[0].nodes| == |trails[0].edges| + 1
    ensures queue[0].0 == trails[0].nodes[|trails[0].edges|] && |queue[0].1| == |trails[0].edges|
  {
  }

  lemma NoneStand(edges: seq<JoinEdge>, queue: seq<(string, seq<string>, set<string>)>, trails: seq<Trail<nat>>)
    requires StandsForAll(edges, queue, trails)
    ensures |trails| == |queue|
  {
  }

  /** No hit is longer than an extension of the head of the queue. */
  lemma HitsLevel(arcs: set<Arc<nat>>, start: string, goal: string, depth: int, trails: seq<Trail<nat>>,
                  hits: seq<Trail<nat>>, done: set<Trail<nat>>)
    requires SearchInv(arcs, start, goal, depth, trails, hits, done) && |trails| > 0
    ensures forall h | h in hits :: |h.edges| <= |trails[0].edges| + 1
  {
  }

  /** Up to the cap, the join paths between two tables; none from a table to itself. */
  method FindPaths(edges: seq<JoinEdge>, adjacency: map<string, seq<(string, nat)>>, start: string, goal: string,
                   maxDepth: int)
    returns (found: seq<seq<string>>)
    requires forall u :: NeighborsOf(adjacency, u) == AdjacentTo(Links(edges), u)
    ensures start == goal ==> found == []
    ensures start != goal ==> JoinSearch(edges, start, goal, maxDepth, found)
  {
    if start == goal {
      return [];
    }
    hide *;
    ghost var links := Links(edges);
    ghost var arcs := BothWays(links);
    var refKey := (item: (string, nat)) => RefAt(edges, item.1);
    OrderStarts(start, refKey);
    found := [];
    var queue: seq<(string, seq<string>, set<string>)> := [(start, [], {start})];
    ghost var trails := [Trail([start], [])];
    ghost var hits: seq<Trail<nat>> := [];
    ghost var done: set<Trail<nat>> := {};
    ghost var bound := Within(arcs, start, if maxDepth < 0 then 0 else maxDepth);
    SearchStarts(arcs, start, goal, maxDepth);
    OneStands(edges, start);
    NothingBatched(edges, arcs, start, goal);
    while |queue| > 0 && |found| < MAX_PATHS_PER_PAIR
      invariant SearchInv(arcs, start, goal, maxDepth, trails, hits, done)
      invariant StandsForAll(edges, queue, trails)
      invariant Reports(edges, found, hits)
      invariant WholeBatches(arcs, start, goal, hits) && LastBatch(edges, goal, found)
      invariant SearchOrdered(trails, hits, refKey)
      decreases bound - done
    {
      var (current, path, visited) := queue[0];
      HeadStands(edges, queue, trails);
      ghost var t := trails[0];
      SearchHead(arcs, start, goal, maxDepth, trails, hits, done);
      HitsLevel(arcs, start, goal, maxDepth, trails, hits, done);
      queue := queue[1..];
      if |path| >= maxDepth {
        OrderDrops(trails, hits, refKey);
        SearchDrops(arcs, start, goal, maxDepth, trails, hits, done);
        trails := trails[1..];
      } else {
        var outs := Text.SortBy(NeighborsOf(adjacency, current), refKey);
        SortedAdjacencyLists(links, current, refKey);
        ListedJoin(edges, current, goal, outs);
        StateLeveled(arcs, start, goal, maxDepth, trails, hits, done);
        OrderExpands(trails, hits, outs, goal, refKey);
        SearchExpands(arcs, start, goal, maxDepth, trails, hits, done, outs);
        WholeBatchesExpand(arcs, start, goal, t, outs, hits);
        ghost var before := found;
        queue, found, trails, hits := Expand(edges, goal, (current, path, visited), outs, queue, found, t, trails[1..],
          hits);
        LastBatchExpands(edges, current, goal, path, before, found);
      }
      done := done + {t};
    }
    NoneStand(edges, queue, trails);
    SearchEnds(arcs, start, goal, maxDepth, trails, hits, done, |found| < MAX_PATHS_PER_PAIR);
    OrderEnds(arcs, start, goal, maxDepth, trails, hits, done, refKey);
    FoundInOrder(edges, start, goal, maxDepth, found, hits, refKey);
    FoundExact(edges, start, goal, maxDepth, found, hits);
    FoundWhole(edges, start, goal, found, hits);
    FoundSearch(edges, start, goal, maxDepth, found);
  }

  lemma NothingBatched(edges: seq<JoinEdge>, arcs: set<Arc<nat>>, start: string, goal: string)
    ensures WholeBatches(arcs, start, goal, []) && LastBatch(edges, goal, [])
  {
    assert PastCap(edges, start, goal, [], []);
  }

  /** Every reported text stands for a path whose siblings, which differ in the last edge only, are all reported. */
  ghost predicate WholeTexts(edges: seq<JoinEdge>, start: string, goal: string, found: seq<seq<string>>) {
    forall p | p in found :: exists h :: StandsWithSiblings(edges, start, goal, found, p, h)
  }

  ghost predicate StandsWithSiblings(edges: seq<JoinEdge>, start: string, goal: string, found: seq<seq<string>>,
                                     p: seq<string>, h: Trail<nat>) {
    && SimplePath(BothWays(Links(edges)), start, goal, h) && Refs(edges, h.edges) == p
    && forall s | SimplePath(BothWays(Links(edges)), start, goal, s) && Parent(s) == Parent(h) ::
      Refs(edges, s.edges) in found
  }

  lemma FoundWhole(edges: seq<JoinEdge>, start: string, goal: string, found: seq<seq<string>>, hits: seq<Trail<nat>>)
    requires Reports(edges, found, hits) && WholeBatches(BothWays(Links(edges)), start, goal, hits)
    requires forall h | h in hits :: SimplePath(BothWays(Links(edges)), start, goal, h)
    ensures WholeTexts(edges, start, goal, found)
  {
    hide SimplePath, Refs, BothWays, Links, Parent;
    forall p | p in found ensures exists h :: StandsWithSiblings(edges, start, goal, found, p, h) {
      var h :| h in hits && Refs(edges, h.edges) == p;
      assert StandsWithSiblings(edges, start, goal, found, p, h);
    }
  }

  /** All that a search for join paths promises. */
  ghost predicate JoinSearch(edges: seq<JoinEdge>, start: string, goal: string, depth: int, found: seq<seq<string>>) {
    ExactJoinPaths(edges, start, goal, depth, found) && WholeTexts(edges, start, goal, found)
      && LastBatch(edges, goal, found) && FoundFirst(edges, start, goal, depth, found)
  }

  /** The answer is the texts of trails found one after another, each over the edge whose text sorts first. */
  ghost predicate FoundFirst(edges: seq<JoinEdge>, start: string, goal: string, depth: int, found: seq<seq<string>>) {
    exists hits :: HitsInOrder(edges, start, goal, depth, hits) && found == FirstTexts(edges, hits)
  }

  ghost predicate HitsInOrder(edges: seq<JoinEdge>, start: string, goal: string, depth: int, hits: seq<Trail<nat>>) {
    var text := (x: (string, nat)) => if x.1 < |edges| then edges[x.1].left + "=" + edges[x.1].right else "";
    && (forall h | h in hits :: SimplePath(BothWays(Links(edges)), start, goal, h) && |h.edges| <= depth)
    && OrderedSearch(BothWays(Links(edges)), start, goal, depth, hits, text)
  }

  lemma FoundInOrder(edges: seq<JoinEdge>, start: string, goal: string, depth: int, found: seq<seq<string>>,
                     hits: seq<Trail<nat>>, key: ((string, nat)) -> string)
    requires Reports(edges, found, hits) && forall x :: key(x) == RefAt(edges, x.1)
    requires ExactSearch(BothWays(Links(edges)), start, goal, depth, hits, |found| < MAX_PATHS_PER_PAIR)
    requires OrderedSearch(BothWays(Links(edges)), start, goal, depth, hits, key)
    ensures FoundFirst(edges, start, goal, depth, found)
  {
    var text := (x: (string, nat)) => if x.1 < |edges| then edges[x.1].left + "=" + edges[x.1].right else "";
    hide OrderedSearch, SimplePath, BothWays, Links, FirstTexts, Lengthening;
    SameKeyOrder(BothWays(Links(edges)), start, goal, depth, hits, key, text);
    assert HitsInOrder(edges, start, goal, depth, hits);
  }

  lemma FoundSearch(edges: seq<JoinEdge>, start: string, goal: string, depth: int, found: seq<seq<string>>)
    requires ExactJoinPaths(edges, start, goal, depth, found) && WholeTexts(edges, start, goal, found)
             && LastBatch(edges, goal, found) && FoundFirst(edges, start, goal, depth, found)
    ensures JoinSearch(edges, start, goal, depth, found)
  {
  }

  lemma FoundExact(edges: seq<JoinEdge>, start: string, goal: string, depth: int, found: seq<seq<string>>,
                   hits: seq<Trail<nat>>)
    requires Reports(edges, found, hits)
    requires ExactSearch(BothWays(Links(edges)), start, goal, depth, hits, |found| < MAX_PATHS_PER_PAIR)
    ensures ExactJoinPaths(edges, start, goal, depth, found)
    ensures forall h | h in hits :: SimplePath(BothWays(Links(edges)), start, goal, h)
  {
  }

  // ---- When the cap bounds the answer, and when it does not ----

  /** A list of distinct extensions of one path has no more members than there are texts to end in. */
  lemma {:induction false} ExtensionsBounded(batch: seq<seq<string>>, p: seq<string>, texts: set<string>)
    requires NoDuplicates(batch)
    requires forall f | f in batch :: |f| > 0 && f[..|f| - 1] == p && f[|f| - 1] in texts
    ensures |batch| <= |texts|
  {
    if |batch| > 0 {
      var f := batch[0];
      assert f in batch && f == p + [f[|f| - 1]];
      forall g | g in batch[1..] ensures g[|g| - 1] in texts - {f[|f| - 1]} && |g| > 0 && g[..|g| - 1] == p {
        assert g in batch && g == p + [g[|g| - 1]];
      }
      ExtensionsBounded(batch[1..], p, texts - {f[|f| - 1]});
    }
  }

  /**
   If no table has more than m differently written edges to the goal, fewer than MAX_PATHS_PER_PAIR + m paths are
   found.
  */
  lemma JoinPathsOvershootBounded(edges: seq<JoinEdge>, start: string, goal: string, depth: int,
                                  found: seq<seq<string>>, m: nat)
    requires JoinSearch(edges, start, goal, depth, found)
    requires forall u :: |RefsBetween(edges, u, goal)| <= m
    ensures |found| < MAX_PATHS_PER_PAIR + m
  {
    hide RefsBetween, JoinPath, WholeTexts;
    var u, p :| PastCap(edges, u, goal, p, found);
    if |found| >= MAX_PATHS_PER_PAIR {
      var batch := found[MAX_PATHS_PER_PAIR - 1..];
      forall f | f in batch ensures NextText(edges, u, goal, p, f) {
        var i :| 0 <= i < |batch| && batch[i] == f;
        assert found[MAX_PATHS_PER_PAIR - 1 + i] == f;
      }
      ExtensionsBounded(batch, p, RefsBetween(edges, u, goal));
      assert |RefsBetween(edges, u, goal)| <= m;
    }
  }

  /** If all edges between a table and the goal are written alike, at most MAX_PATHS_PER_PAIR paths are found. */
  lemma JoinPathsWithinCap(edges: seq<JoinEdge>, start: string, goal: string, depth: int, found: seq<seq<string>>)
    requires JoinSearch(edges, start, goal, depth, found)
    requires forall u, r, s | r in RefsBetween(edges, u, goal) && s in RefsBetween(edges, u, goal) :: r == s
    ensures |found| <= MAX_PATHS_PER_PAIR
  {
    forall u ensures |RefsBetween(edges, u, goal)| <= 1 {
      var texts := RefsBetween(edges, u, goal);
      if r :| r in texts { assert texts == {r}; }
    }
    hide *;
    JoinPathsOvershootBounded(edges, start, goal, depth, found, 1);
  }

  /** A direct edge is a path of one step. */
  lemma DirectEdge(edges: seq<JoinEdge>, start: string, goal: string, r: string) returns (s: Trail<nat>)
    requires start != goal && r in RefsBetween(edges, start, goal)
    ensures SimplePath(BothWays(Links(edges)), start, goal, s) && Parent(s) == Trail([start], [])
            && Refs(edges, s.edges) == [r]
  {
    var i :| 0 <= i < |edges| && Joins(Links(edges)[i], start, goal) && EdgeRef(edges[i]) == r;
    s := OneStep(Arc(start, i, goal));
    assert Links(edges)[i] in Links(edges) && Arc(start, i, goal) in BothWays(Links(edges));
  }

  lemma OneEdgeParent(arcs: set<Arc<nat>>, start: string, goal: string, h: Trail<nat>)
    requires SimplePath(arcs, start, goal, h) && |h.edges| == 1
    ensures Parent(h) == Trail([start], [])
  {
    assert h.nodes == [h.nodes[0], h.nodes[1]];
  }

  lemma DirectTextFound(edges: seq<JoinEdge>, start: string, goal: string, depth: int, found: seq<seq<string>>,
                        r: string)
    requires JoinSearch(edges, start, goal, depth, found) && start != goal && depth >= 1
    requires r in RefsBetween(edges, start, goal)
    ensures [r] in found
  {
    hide RefsBetween, SimplePath, Parent, LastBatch, BothWays, Links;
    var s := DirectEdge(edges, start, goal, r);
    assert |s.edges| == |Refs(edges, s.edges)|;
    assert JoinPath(edges, start, goal, depth, [r]);
    hide JoinPath;
    if |found| > 0 && |found[0]| == 1 {
      assert found[0] in found;
      var h :| StandsWithSiblings(edges, start, goal, found, found[0], h);
      OneEdgeParent(BothWays(Links(edges)), start, goal, h);
    } else if |found| > 0 {
      NoShorter(edges, start, goal, depth, found);
    }
  }

  lemma NoShorter(edges: seq<JoinEdge>, start: string, goal: string, depth: int, found: seq<seq<string>>)
    requires ExactJoinPaths(edges, start, goal, depth, found) && |found| > 0 && |found[0]| != 1
    ensures |found[0]| > 1
    ensures forall p | JoinPath(edges, start, goal, depth, p) && |p| == 1 :: p in found
  {
    assert found[0] in found;
  }

  /**
   At depth one as many paths are found as there are differently written edges, so the cap holds exactly when these are
   no more.
  */
  lemma DepthOneJoinPathsExactly(edges: seq<JoinEdge>, start: string, goal: string, found: seq<seq<string>>)
    requires JoinSearch(edges, start, goal, 1, found) && start != goal
    ensures |found| == |RefsBetween(edges, start, goal)|
    ensures |found| <= MAX_PATHS_PER_PAIR <==> |RefsBetween(edges, start, goal)| <= MAX_PATHS_PER_PAIR
  {
    var texts := RefsBetween(edges, start, goal);
    forall r | r in texts ensures [r] in found { DirectTextFound(edges, start, goal, 1, found, r); }
    TextsCounted(found, texts);
    forall f | f in found ensures |f| > 0 && f[..|f| - 1] == [] && f[|f| - 1] in texts {
      OneEdgeText(edges, start, goal, f);
    }
    ExtensionsBounded(found, [], texts);
  }

  lemma OneEdgeText(edges: seq<JoinEdge>, start: string, goal: string, f: seq<string>)
    requires JoinPath(edges, start, goal, 1, f)
    ensures |f| == 1 && f[0] in RefsBetween(edges, start, goal)
  {
    var t :| SimplePath(BothWays(Links(edges)), start, goal, t) && |t.edges| <= 1 && f == Refs(edges, t.edges);
    assert Arc(start, t.edges[0], goal) in BothWays(Links(edges));
    var i :| 0 <= i < |edges| && Links(edges)[i].edge == t.edges[0] && Joins(Links(edges)[i], start, goal);
    assert i == t.edges[0];
  }

  lemma {:induction false} TextsCounted(found: seq<seq<string>>, texts: set<string>)
    requires forall r | r in texts :: [r] in found
    ensures |texts| <= |found|
    decreases texts
  {
    if r :| r in texts {
      var k :| 0 <= k < |found| && found[k] == [r];
      var rest := found[..k] + found[k + 1..];
      forall s | s in texts - {r} ensures [s] in rest {
        var j :| 0 <= j < |found| && found[j] == [s];
        assert [s][0] == s && [r][0] == r;
        assert if j < k then rest[j] == [s] else rest[j - 1] == [s];
      }
      TextsCounted(rest, texts - {r});
    }
  }

  function ParallelEdge(k: nat): JoinEdge {
    JoinEdge("a" + "." + seq(k, _ => 'x'), "b" + "." + "y", "fk", "")
  }

  /** n differently written edges between tables a and b. */
  function ParallelEdges(n: nat): seq<JoinEdge> {
    seq(n, k requires 0 <= k < n => ParallelEdge(k))
  }

  lemma TableOfMember(table: string, column: string)
    requires '.' !in table
    ensures TableOf(table + "." + column) == table
  {
    if |table| > 0 {
      assert (table + "." + column)[1..] == table[1..] + "." + column;
      TableOfMember(table[1..], column);
    } else {
      assert table + "." + column == "." + column;
    }
  }

  lemma ParallelEdgeRef(k: nat)
    ensures |EdgeRef(ParallelEdge(k))| == k + 6
    ensures TableOf(ParallelEdge(k).left) == "a" && TableOf(ParallelEdge(k).right) == "b"
  {
    TableOfMember("a", seq(k, _ => 'x'));
    TableOfMember("b", "y");
  }

  lemma {:induction false} ParallelRefs(n: nat)
    ensures |set i: nat | i < n :: EdgeRef(ParallelEdge(i))| == n
  {
    if n > 0 {
      ParallelRefs(n - 1);
      var fewer := set i: nat | i < n - 1 :: EdgeRef(ParallelEdge(i));
      var last := EdgeRef(ParallelEdge(n - 1));
      ParallelEdgeRef(n - 1);
      if last in fewer {
        var i: nat :| i < n - 1 && EdgeRef(ParallelEdge(i)) == last;
        ParallelEdgeRef(i);
      }
      hide ParallelEdge, EdgeRef;
      assert (set i: nat | i < n :: EdgeRef(ParallelEdge(i))) == fewer + {last};
    }
  }

  lemma ParallelBetween(n: nat)
    ensures |RefsBetween(ParallelEdges(n), "a", "b")| == n
  {
    var edges := ParallelEdges(n);
    forall i: nat | i < n ensures Joins(Links(edges)[i], "a", "b")
      && edges[i] == ParallelEdge(i) { ParallelEdgeRef(i); }
    ParallelRefs(n);
    hide ParallelEdge, EdgeRef, Links;
    assert RefsBetween(edges, "a", "b") == set i: nat | i < n :: EdgeRef(ParallelEdge(i));
  }

  /** However large n is, some edges make the search find n paths: four, for one, and so more than the cap. */
  method ManyJoinPaths(n: nat) returns (found: seq<seq<string>>)
    ensures |found| == n
  {
    ParallelBetween(n);
    hide *;
    var edges := ParallelEdges(n);
    var adjacency := Adjacency(Links(edges));
    found := FindPaths(edges, adjacency, "a", "b", 1);
    DepthOneJoinPathsExactly(edges, "a", "b", found);
  }

  // ---- The cap is overshot as far as can be ----

  /** The i-th edge of the graph with MAX_PATHS_PER_PAIR - 1 tables in the middle. */
  function TightEdge(i: nat): JoinEdge {
    var (from, to) := TightEnds(MAX_PATHS_PER_PAIR - 1, i);
    JoinEdge(from + "." + seq(i, _ => 'z'), to + "." + "y", "fk", "")
  }

  function TightEdges(m: nat): seq<JoinEdge> {
    seq(2 * (MAX_PATHS_PER_PAIR - 1) + 2 + m, i requires 0 <= i => TightEdge(i))
  }

  function Same(i: nat): nat {
    i
  }

  lemma EndsDotFree(n: nat, i: nat)
    ensures '.' !in TightEnds(n, i).0 && '.' !in TightEnds(n, i).1
  {
    assert '.' !in Middle(i / 2);
  }

  lemma TightEdgeTables(i: nat)
    ensures TableOf(TightEdge(i).left) == TightEnds(MAX_PATHS_PER_PAIR - 1, i).0
    ensures TableOf(TightEdge(i).right) == TightEnds(MAX_PATHS_PER_PAIR - 1, i).1
    ensures |EdgeRef(TightEdge(i))| ==
            |TightEnds(MAX_PATHS_PER_PAIR - 1, i).0| + i + |TightEnds(MAX_PATHS_PER_PAIR - 1, i).1| + 4
  {
    EndsDotFree(MAX_PATHS_PER_PAIR - 1, i);
    TableOfMember(TightEnds(MAX_PATHS_PER_PAIR - 1, i).0, seq(i, _ => 'z'));
    TableOfMember(TightEnds(MAX_PATHS_PER_PAIR - 1, i).1, "y");
    hide TightEnds, TableOf;
  }

  lemma TightLinksOf(m: nat)
    ensures Tight(Links(TightEdges(m)), Same, MAX_PATHS_PER_PAIR - 1, m)
  {
    var links, n := Links(TightEdges(m)), MAX_PATHS_PER_PAIR - 1;
    assert |links| == 2 * n + 2 + m;
    forall i: nat | i < 2 * n + 2 + m ensures links[i] == TightArc(Same, n, i) { TightEdgeTables(i); }
    hide Links, TightEdges, TightArc;
    forall x ensures x in links <==> exists i: nat :: i < 2 * n + 2 + m && x == TightArc(Same, n, i) {
      if x in links {
        var i :| 0 <= i < |links| && links[i] == x;
      }
      if i: nat :| i < 2 * n + 2 + m && x == TightArc(Same, n, i) { assert links[i] == x; }
    }
  }

  /** What the i-th path of the graph is reported as. */
  function TightText(m: nat, i: nat): seq<string> {
    Refs(TightEdges(m), TightPath(Same, MAX_PATHS_PER_PAIR - 1, i).edges)
  }

  lemma TightTextLengths(m: nat, i: nat)
    ensures |TightText(m, i)| == if i < MAX_PATHS_PER_PAIR - 1 then 2 else 3
  {
  }

  lemma TightTextsDiffer(m: nat, i: nat, j: nat)
    requires i < j < MAX_PATHS_PER_PAIR - 1 + m
    ensures TightText(m, i) != TightText(m, j)
  {
    var n := MAX_PATHS_PER_PAIR - 1;
    TightTextLengths(m, i);
    TightTextLengths(m, j);
    if j < n {
      TightEdgeTables(2 * i);
      TightEdgeTables(2 * j);
      EvenOdd(i);
      EvenOdd(j);
      assert TightText(m, i)[0] == EdgeRef(TightEdge(2 * i)) && TightText(m, j)[0] == EdgeRef(TightEdge(2 * j));
    } else if i >= n {
      TightEdgeTables(2 * n + 2 + (i - n));
      TightEdgeTables(2 * n + 2 + (j - n));
      assert TightText(m, i)[2] == EdgeRef(TightEdge(2 * n + 2 + (i - n)));
      assert TightText(m, j)[2] == EdgeRef(TightEdge(2 * n + 2 + (j - n)));
    }
  }

  lemma TightTextIsJoinPath(m: nat, i: nat)
    requires i < MAX_PATHS_PER_PAIR - 1 + m
    ensures JoinPath(TightEdges(m), "a", "b", 3, TightText(m, i))
  {
    var n, edges := MAX_PATHS_PER_PAIR - 1, TightEdges(m);
    TightLinksOf(m);
    var t := TightPath(Same, n, i);
    assert |t.edges| <= 3;
    if i < n { TightSimple(Links(edges), Same, n, m, i, 0); } else { TightSimple(Links(edges), Same, n, m, 0, i - n); }
    hide TightEdges, Links, BothWays, Refs;
    assert SimplePath(BothWays(Links(edges)), "a", "b", t);
  }

  lemma JoinPathIsTightText(m: nat, p: seq<string>)
    requires JoinPath(TightEdges(m), "a", "b", 3, p)
    ensures exists i: nat :: i < MAX_PATHS_PER_PAIR - 1 + m && TightText(m, i) == p
  {
    var edges := TightEdges(m);
    TightLinksOf(m);
    hide TightEdges, Links, BothWays, Refs, TightPath;
    var t :| SimplePath(BothWays(Links(edges)), "a", "b", t) && |t.edges| <= 3 && p == Refs(edges, t.edges);
    TightPathNumber(Links(edges), Same, MAX_PATHS_PER_PAIR - 1, m, t);
    var i: nat :| i < MAX_PATHS_PER_PAIR - 1 + m && TightPath(Same, MAX_PATHS_PER_PAIR - 1, i) == t;
    assert TightText(m, i) == p;
  }

  lemma LongTextFound(m: nat, found: seq<seq<string>>) returns (p: seq<string>)
    requires m > 0 && JoinSearch(TightEdges(m), "a", "b", 3, found)
    ensures p in found && |p| == 3
  {
    var n := MAX_PATHS_PER_PAIR - 1;
    var edges := TightEdges(m);
    hide TightEdges, JoinPath, WholeTexts, LastBatch, TightText;
    var f := (i: nat) => TightText(m, i);
    forall q | q in found ensures exists i: nat :: i < n + m && f(i) == q {
      JoinPathIsTightText(m, q);
      var i: nat :| i < n + m && TightText(m, i) == q;
      assert f(i) == q;
    }
    TightTextIsJoinPath(m, n);
    TightTextLengths(m, n);
    if q :| q in found && |q| == 3 {
      p := q;
    } else {
      forall q | q in found ensures exists i: nat :: i < n && f(i) == q {
        var i: nat :| i < n + m && f(i) == q;
        TightTextLengths(m, i);
      }
      assert NoDuplicates(found);
      ImagesBound(found, f, n);
      assert false;
    }
  }

  lemma ShortTextFound(m: nat, found: seq<seq<string>>, longer: seq<string>, i: nat)
    requires m > 0 && JoinSearch(TightEdges(m), "a", "b", 3, found) && longer in found && |longer| == 3
    requires i < MAX_PATHS_PER_PAIR - 1
    ensures TightText(m, i) in found
  {
    hide TightEdges, JoinPath, WholeTexts, LastBatch, TightText;
    TightTextIsJoinPath(m, i);
    TightTextLengths(m, i);
  }

  lemma LongTextsFound(m: nat, found: seq<seq<string>>, p: seq<string>, i: nat)
    requires m > 0 && JoinSearch(TightEdges(m), "a", "b", 3, found) && p in found && |p| == 3
    requires MAX_PATHS_PER_PAIR - 1 <= i < MAX_PATHS_PER_PAIR - 1 + m
    ensures TightText(m, i) in found
  {
    var n, edges := MAX_PATHS_PER_PAIR - 1, TightEdges(m);
    TightLinksOf(m);
    hide TightEdges, ExactJoinPaths, LastBatch, Links, BothWays, SimplePath, Parent;
    var h :| StandsWithSiblings(edges, "a", "b", found, p, h);
    assert |h.edges| == |Refs(edges, h.edges)|;
    TightPathNumber(Links(edges), Same, n, m, h);
    var k: nat :| k < n + m && TightPath(Same, n, k) == h;
    assert k >= n;
    TightSimple(Links(edges), Same, n, m, 0, i - n);
    LongParents(Same, n, k - n, i - n);
  }

  /** On these edges every search reports as many paths as the bound lets it. */
  lemma JoinOvershootAttained(m: nat, found: seq<seq<string>>)
    requires m > 0 && JoinSearch(TightEdges(m), "a", "b", 3, found)
    ensures |found| == MAX_PATHS_PER_PAIR - 1 + m
  {
    var n := MAX_PATHS_PER_PAIR - 1;
    hide TightEdges, JoinPath, WholeTexts, LastBatch, TightText;
    var f := (i: nat) => TightText(m, i);
    var p := LongTextFound(m, found);
    forall i: nat | i < n + m ensures f(i) in found {
      if i < n { ShortTextFound(m, found, p, i); } else { LongTextsFound(m, found, p, i); }
    }
    forall i: nat, j: nat | i < j < n + m ensures f(i) != f(j) { TightTextsDiffer(m, i, j); }
    forall q | q in found ensures exists i: nat :: i < n + m && f(i) == q {
      JoinPathIsTightText(m, q);
      var i: nat :| i < n + m && TightText(m, i) == q;
      assert f(i) == q;
    }
    assert NoDuplicates(found);
    hide *;
    ImagesCount(found, f, n + m);
    ImagesBound(found, f, n + m);
  }

  function NthArc(from: string, i: nat, to: string): Arc<nat> {
    Arc(from, i, to)
  }

  lemma RefIsOfArc(edges: seq<JoinEdge>, u: string, v: string, r: string)
    requires r in RefsBetween(edges, u, v)
    ensures exists x :: x in Between(BothWays(Links(edges)), u, v) && RefAt(edges, x.edge) == r
  {
    var i :| 0 <= i < |edges| && Joins(Links(edges)[i], u, v) && EdgeRef(edges[i]) == r;
    assert Links(edges)[i] in Links(edges);
    assert NthArc(u, i, v) in Between(BothWays(Links(edges)), u, v);
  }

  lemma TightRefsBetween(m: nat, u: string)
    requires m > 0
    ensures |RefsBetween(TightEdges(m), u, "b")| <= m
  {
    var edges, n := TightEdges(m), MAX_PATHS_PER_PAIR - 1;
    TightLinksOf(m);
    hide TightEdges, Tight;
    TightBetween(Links(edges), Same, n, m, u);
    var between := Between(BothWays(Links(edges)), u, "b");
    forall r | r in RefsBetween(edges, u, "b") ensures exists x :: x in between && RefAt(edges, x.edge) == r {
      RefIsOfArc(edges, u, "b", r);
    }
    hide RefsBetween, Between, Links, BothWays;
    ImageOfSet(between, RefsBetween(edges, u, "b"), (x: Arc<nat>) => RefAt(edges, x.edge));
  }

  lemma {:induction false} ImageOfSet<T, U>(s: set<T>, image: set<U>, f: T -> U)
    requires forall y | y in image :: exists x :: x in s && f(x) == y
    ensures |image| <= |s|
    decreases s
  {
    if x :| x in s {
      forall y | y in image - {f(x)} ensures exists z :: z in s - {x} && f(z) == y {
        var z :| z in s && f(z) == y;
      }
      ImageOfSet(s - {x}, image - {f(x)}, f);
    } else {
      assert image == {};
    }
  }

  /**
   For every m there are edges of which no table has more than m differently written ones to the goal and that make the
   search find MAX_PATHS_PER_PAIR - 1 + m paths: no smaller bound holds.
  */
  method JoinOvershootReached(m: nat) returns (edges: seq<JoinEdge>, found: seq<seq<string>>)
    requires m > 0
    ensures forall u :: |RefsBetween(edges, u, "b")| <= m
    ensures |found| == MAX_PATHS_PER_PAIR - 1 + m
  {
    forall u ensures |RefsBetween(TightEdges(m), u, "b")| <= m { TightRefsBetween(m, u); }
    hide *;
    edges := TightEdges(m);
    var adjacency := Adjacency(Links(edges));
    found := FindPaths(edges, adjacency, "a", "b", 3);
    JoinOvershootAttained(m, found);
  }

  // ---- The table of join paths ----

  /** The text under which the paths of a pair are kept. */
  function PairKey(a: string, b: string): string {
    a + "->" + b
  }

  predicate ArrowFree(name: string) {
    forall i | 0 <= i < |name| - 1 && name[i] == '-' :: name[i + 1] != '>'
  }

  /** Two pairs share a key exactly when they are equal or one splits the other's first or second name at an arrow. */
  lemma PairKeysEqual(a: string, b: string, c: string, d: string)
    ensures PairKey(a, b) == PairKey(c, d) <==>
              || (a == c && b == d)
              || (exists x :: c == PairKey(a, x) && b == PairKey(x, d))
              || (exists x :: a == PairKey(c, x) && d == PairKey(x, b))
  {
    if PairKey(a, b) == PairKey(c, d) {
      if |a| < |c| {
        SplitsAtArrow(a, b, c, d);
      } else if |c| < |a| {
        SplitsAtArrow(c, d, a, b);
      } else {
        assert PairKey(a, b)[..|a|] == a && PairKey(c, d)[..|a|] == c;
        assert PairKey(a, b)[|a| + 2..] == b && PairKey(c, d)[|a| + 2..] == d;
      }
    }
    if x :| c == PairKey(a, x) && b == PairKey(x, d) { assert PairKey(a, b) == PairKey(c, d); }
    if x :| a == PairKey(c, x) && d == PairKey(x, b) { assert PairKey(a, b) == PairKey(c, d); }
  }

  lemma SplitsAtArrow(a: string, b: string, c: string, d: string)
    requires PairKey(a, b) == PairKey(c, d) && |a| < |c|
    ensures exists x :: c == PairKey(a, x) && b == PairKey(x, d)
  {
    var key := PairKey(a, b);
    assert key[..|a|] == a && key[|a| + 2..] == b && key[..|c|] == c && key[|c| + 2..] == d;
    assert key[|a|] == '-' && key[|a| + 1] == '>' && key[|c|] == '-' && key[|c| + 1] == '>';
    assert c[|a|] == '-';
    if |c| == |a| + 1 {
      assert false;
    } else {
      var x := c[|a| + 2..];
      assert c == PairKey(a, x) by {
        assert c[..|a|] == a && c[|a| + 1] == '>';
      }
      assert b == PairKey(x, d) by {
        assert b == key[|a| + 2..|c|] + key[|c|..] && key[|a| + 2..|c|] == x;
        assert key[|c|..] == "->" + d;
      }
    }
  }

  /** Pairs whose first names hold no arrow never share a key. */
  lemma PairKeysDiffer(a: string, b: string, c: string, d: string)
    requires ArrowFree(a) && ArrowFree(c) && PairKey(a, b) == PairKey(c, d)
    ensures a == c && b == d
  {
    PairKeysEqual(a, b, c, d);
    forall p, x ensures !ArrowFree(PairKey(p, x)) { KeysHoldArrows(p, x); }
  }

  lemma KeysHoldArrows(p: string, x: string)
    ensures !ArrowFree(PairKey(p, x))
  {
    var key := PairKey(p, x);
    assert key[|p|] == '-' && key[|p| + 1] == '>';
  }

  /** With an arrow in a name two pairs can share a key. */
  lemma ArrowsCollide()
    ensures PairKey("a", "b->c") == PairKey("a->b", "c")
  {
  }

  predicate DotFree(name: string) {
    '.' !in name
  }

  /** No other pair of listed tables has the pair's key; an edge end never has a dot, so such a pair has no entry. */
  ghost predicate OwnKey(tables: seq<string>, a: string, b: string) {
    DotFree(a) && DotFree(b) ==>
      forall c, d | c in tables && d in tables && c != d && PairKey(a, b) == PairKey(c, d) :: c == a && d == b
  }

  /**
   What the table of join paths holds: what the search of each pair found under the pair's own key, no empty lists.
  */
  ghost predicate JoinTable(tables: seq<string>, edges: seq<JoinEdge>, depth: int,
                            paths: map<string, seq<seq<string>>>) {
    && KeysOfPairs(tables, edges, depth, paths)
    && (forall a, b | a in tables && b in tables && a != b && OwnKey(tables, a, b) ::
          JoinSearch(edges, a, b, depth, Entry(paths, a, b)))
  }

  /** Every key is the key of some pair, and holds what the search of that pair found. */
  ghost predicate KeysOfPairs(tables: seq<string>, edges: seq<JoinEdge>, depth: int,
                              paths: map<string, seq<seq<string>>>) {
    forall key | key in paths ::
      && |paths[key]| > 0
      && exists a, b ::
           a in tables && b in tables && a != b && key == PairKey(a, b) && JoinSearch(edges, a, b, depth, paths[key])
  }

  function Entry(paths: map<string, seq<seq<string>>>, a: string, b: string): seq<seq<string>> {
    if PairKey(a, b) in paths then paths[PairKey(a, b)] else []
  }

  /** The pairs searched so far that have a key of their own have their entries. */
  ghost predicate RowsSearched(tables: seq<string>, edges: seq<JoinEdge>, depth: int,
                               paths: map<string, seq<seq<string>>>, starts: seq<string>, goals: seq<string>) {
    forall a, b | a in starts && b in goals && a != b && OwnKey(tables, a, b) ::
      JoinSearch(edges, a, b, depth, Entry(paths, a, b))
  }

  /** One pair's result is stored, or nothing is when it is empty. */
  function Stored(paths: map<string, seq<seq<string>>>, start: string, goal: string,
                  found: seq<seq<string>>): map<string, seq<seq<string>>> {
    if |found| > 0 then paths[PairKey(start, goal) := found] else paths
  }

  lemma StoredKeys(tables: seq<string>, edges: seq<JoinEdge>, depth: int, paths: map<string, seq<seq<string>>>,
                   start: string, goal: string, found: seq<seq<string>>)
    requires KeysOfPairs(tables, edges, depth, paths)
    requires start in tables && goal in tables && start != goal && JoinSearch(edges, start, goal, depth, found)
    ensures KeysOfPairs(tables, edges, depth, Stored(paths, start, goal, found))
  {
    hide JoinSearch, PairKey;
  }

  /** No edge ends at a table with a dot in its name. */
  lemma {:induction false} TableDotFree(ref: string)
    ensures DotFree(TableOf(ref))
  {
    if |ref| > 0 && ref[0] != '.' { TableDotFree(ref[1..]); }
  }

  lemma NoDottedPath(edges: seq<JoinEdge>, start: string, goal: string, depth: int, p: seq<string>)
    requires JoinPath(edges, start, goal, depth, p)
    ensures DotFree(start) && DotFree(goal)
  {
    var t :| SimplePath(BothWays(Links(edges)), start, goal, t) && |t.edges| <= depth && p == Refs(edges, t.edges);
    forall a | a in BothWays(Links(edges)) ensures DotFree(a.from) && DotFree(a.to) {
      var i :| 0 <= i < |edges| && (a == Links(edges)[i]
        || a == Arc(Links(edges)[i].to, Links(edges)[i].edge, Links(edges)[i].from));
      TableDotFree(edges[i].left);
      TableDotFree(edges[i].right);
    }
    var n := |t.edges|;
    assert Arc(t.nodes[0], t.edges[0], t.nodes[1]) in BothWays(Links(edges));
    assert Arc(t.nodes[n - 1], t.edges[n - 1], t.nodes[n]) in BothWays(Links(edges));
  }

  lemma FoundDotFree(edges: seq<JoinEdge>, start: string, goal: string, depth: int, found: seq<seq<string>>)
    requires JoinSearch(edges, start, goal, depth, found) && |found| > 0
    ensures DotFree(start) && DotFree(goal)
  {
    hide JoinPath, WholeTexts, LastBatch;
    assert found[0] in found;
    NoDottedPath(edges, start, goal, depth, found[0]);
  }

  /** A pair with a key of its own shares it with no pair that has a join path. */
  lemma OwnsKey(tables: seq<string>, a: string, b: string, c: string, d: string)
    requires OwnKey(tables, a, b) && c in tables && d in tables && c != d && DotFree(c) && DotFree(d)
    requires PairKey(a, b) == PairKey(c, d)
    ensures c == a && d == b
  {
    forall x | x in a ensures x in PairKey(a, b) {}
    forall x | x in b ensures x in PairKey(a, b) {}
    assert '.' !in PairKey(c, d);
  }

  lemma StoredRows(tables: seq<string>, edges: seq<JoinEdge>, depth: int, paths: map<string, seq<seq<string>>>,
                   start: string, goal: string, found: seq<seq<string>>, starts: seq<string>, goals: seq<string>)
    requires RowsSearched(tables, edges, depth, paths, starts, goals) && KeysOfPairs(tables, edges, depth, paths)
    requires start in tables && goal in tables && start != goal && JoinSearch(edges, start, goal, depth, found)
    ensures RowsSearched(tables, edges, depth, Stored(paths, start, goal, found), starts, goals)
    ensures OwnKey(tables, start, goal) ==>
            JoinSearch(edges, start, goal, depth, Entry(Stored(paths, start, goal, found), start, goal))
  {
    hide JoinSearch, PairKey, OwnKey, DotFree, KeysOfPairs;
    var after := Stored(paths, start, goal, found);
    if |found| > 0 {
      FoundDotFree(edges, start, goal, depth, found);
      forall a, b | a in starts && b in goals && a != b && OwnKey(tables, a, b)
        ensures JoinSearch(edges, a, b, depth, Entry(after, a, b))
      {
        if PairKey(a, b) == PairKey(start, goal) { OwnsKey(tables, a, b, start, goal); }
      }
    } else if OwnKey(tables, start, goal) && PairKey(start, goal) in paths {
      EmptyHasNoEntry(tables, edges, depth, paths, start, goal, found);
    }
  }

  lemma EmptyHasNoEntry(tables: seq<string>, edges: seq<JoinEdge>, depth: int, paths: map<string, seq<seq<string>>>,
                        start: string, goal: string, found: seq<seq<string>>)
    requires KeysOfPairs(tables, edges, depth, paths) && OwnKey(tables, start, goal)
    requires JoinSearch(edges, start, goal, depth, found) && found == []
    ensures PairKey(start, goal) !in paths
  {
    hide ExactJoinPaths, WholeTexts, LastBatch, PairKey, OwnKey;
    var key := PairKey(start, goal);
    if key in paths {
      var a, b :| a in tables && b in tables && a != b && key == PairKey(a, b)
        && JoinSearch(edges, a, b, depth, paths[key]);
      FoundDotFree(edges, a, b, depth, paths[key]);
      OwnsKey(tables, start, goal, a, b);
      SearchesAgree(edges, start, goal, depth, paths[key]);
    }
  }

  /** All rows before the i-th are searched, and of the i-th the pairs with the first j goals. */
  ghost predicate SearchedTo(tables: seq<string>, edges: seq<JoinEdge>, depth: int,
                             paths: map<string, seq<seq<string>>>, i: nat, j: nat)
    requires i <= |tables| && j <= |tables|
  {
    && KeysOfPairs(tables, edges, depth, paths)
    && RowsSearched(tables, edges, depth, paths, tables[..i], tables)
    && (i < |tables| ==> RowsSearched(tables, edges, depth, paths, [tables[i]], tables[..j]))
  }

  lemma SearchedNone(tables: seq<string>, edges: seq<JoinEdge>, depth: int)
    ensures SearchedTo(tables, edges, depth, map[], 0, 0)
  {
  }

  lemma SearchedPair(tables: seq<string>, edges: seq<JoinEdge>, depth: int, paths: map<string, seq<seq<string>>>,
                     i: nat, j: nat, found: seq<seq<string>>)
    requires i < |tables| && j < |tables| && SearchedTo(tables, edges, depth, paths, i, j)
    requires tables[i] != tables[j] && JoinSearch(edges, tables[i], tables[j], depth, found)
    ensures SearchedTo(tables, edges, depth, Stored(paths, tables[i], tables[j], found), i, j + 1)
  {
    hide JoinSearch, KeysOfPairs, OwnKey, Entry, Stored, RowsSearched, PairKey;
    var start, goal := tables[i], tables[j];
    StoredKeys(tables, edges, depth, paths, start, goal, found);
    StoredRows(tables, edges, depth, paths, start, goal, found, tables[..i], tables);
    StoredRows(tables, edges, depth, paths, start, goal, found, [start], tables[..j]);
    RowGrows(tables, edges, depth, Stored(paths, start, goal, found), start, tables[..j], goal);
    assert tables[..j + 1] == tables[..j] + [goal];
  }

  lemma RowGrows(tables: seq<string>, edges: seq<JoinEdge>, depth: int, paths: map<string, seq<seq<string>>>,
                 start: string, goals: seq<string>, goal: string)
    requires RowsSearched(tables, edges, depth, paths, [start], goals)
    requires OwnKey(tables, start, goal) && start != goal ==>
               JoinSearch(edges, start, goal, depth, Entry(paths, start, goal))
    ensures RowsSearched(tables, edges, depth, paths, [start], goals + [goal])
  {
    hide JoinSearch, OwnKey, Entry;
  }

  lemma SearchedSame(tables: seq<string>, edges: seq<JoinEdge>, depth: int, paths: map<string, seq<seq<string>>>,
                     i: nat, j: nat)
    requires i < |tables| && j < |tables| && SearchedTo(tables, edges, depth, paths, i, j) && tables[i] == tables[j]
    ensures SearchedTo(tables, edges, depth, paths, i, j + 1)
  {
    hide JoinSearch, KeysOfPairs, OwnKey, Entry;
    assert tables[..j + 1] == tables[..j] + [tables[j]];
  }

  lemma SearchedRow(tables: seq<string>, edges: seq<JoinEdge>, depth: int, paths: map<string, seq<seq<string>>>, i: nat)
    requires i < |tables| && SearchedTo(tables, edges, depth, paths, i, |tables|)
    ensures SearchedTo(tables, edges, depth, paths, i + 1, 0)
  {
    hide JoinSearch, KeysOfPairs, OwnKey, Entry;
    assert tables[..|tables|] == tables && tables[..i + 1] == tables[..i] + [tables[i]];
  }

  lemma SearchedAll(tables: seq<string>, edges: seq<JoinEdge>, depth: int, paths: map<string, seq<seq<string>>>)
    requires SearchedTo(tables, edges, depth, paths, |tables|, 0)
    ensures JoinTable(tables, edges, depth, paths)
  {
    hide JoinSearch, KeysOfPairs, OwnKey, Entry;
    assert tables[..|tables|] == tables;
  }

  /** `_join_paths` */
  method JoinPaths(tables: seq<string>, edges: seq<JoinEdge>, maxDepth: int)
    returns (paths: map<string, seq<seq<string>>>)
    ensures JoinTable(tables, edges, maxDepth, paths)
    ensures forall key | key in paths :: exists a, b :: a in tables && b in tables && a != b && key == a + "->" + b
  {
    hide JoinSearch, JoinTable, SearchedTo, PairKey, Links, BothWays;
    var adjacency := Adjacency(Links(edges));
    paths := map[];
    SearchedNone(tables, edges, maxDepth);
    for i := 0 to |tables|
      invariant SearchedTo(tables, edges, maxDepth, paths, i, 0)
    {
      for j := 0 to |tables|
        invariant SearchedTo(tables, edges, maxDepth, paths, i, j)
      {
        var start, goal := tables[i], tables[j];
        if start == goal {
          SearchedSame(tables, edges, maxDepth, paths, i, j);
          continue;
        }
        var found := FindPaths(edges, adjacency, start, goal, maxDepth);
        SearchedPair(tables, edges, maxDepth, paths, i, j, found);
        if |found| > 0 {
          paths := paths[PairKey(start, goal) := found];
        }
      }
      SearchedRow(tables, edges, maxDepth, paths, i);
    }
    SearchedAll(tables, edges, maxDepth, paths);
    KeysWritten(tables, edges, maxDepth, paths);
  }

  lemma KeysWritten(tables: seq<string>, edges: seq<JoinEdge>, depth: int, paths: map<string, seq<seq<string>>>)
    requires JoinTable(tables, edges, depth, paths)
    ensures forall key | key in paths :: exists a, b :: a in tables && b in tables && a != b && key == a + "->" + b
  {
    hide JoinSearch;
    forall key | key in paths ensures exists a, b :: a in tables && b in tables && a != b && key == a + "->" + b {
      var a, b :| a in tables && b in tables && a != b && key == PairKey(a, b)
        && JoinSearch(edges, a, b, depth, paths[key]);
    }
  }

  /** An answer cannot be non-empty when another search of the pair found nothing. */
  lemma SearchesAgree(edges: seq<JoinEdge>, start: string, goal: string, depth: int, other: seq<seq<string>>)
    requires ExactJoinPaths(edges, start, goal, depth, []) && |other| > 0
    ensures !ExactJoinPaths(edges, start, goal, depth, other)
  {
    assert other[0] in other;
  }

  // ---- A shared key loses paths ----

  /** Two edges that lead from a to b over a third table. */
  function Bridge(a: string, m: string, b: string): seq<JoinEdge> {
    [JoinEdge(a + "." + "x", m + "." + "x", "fk", ""), JoinEdge(m + "." + "y", b + "." + "y", "fk", "")]
  }

  lemma BridgeArcs(a: string, m: string, b: string)
    requires DotFree(a) && DotFree(m) && DotFree(b)
    ensures Links(Bridge(a, m, b)) == [NthArc(a, 0, m), NthArc(m, 1, b)]
    ensures forall x :: x in BothWays(Links(Bridge(a, m, b))) <==>
              x in {NthArc(a, 0, m), NthArc(m, 1, b), NthArc(m, 0, a), NthArc(b, 1, m)}
  {
    TableOfMember(a, "x");
    TableOfMember(m, "x");
    TableOfMember(m, "y");
    TableOfMember(b, "y");
    hide TableOf, DotFree;
    var links := Links(Bridge(a, m, b));
    assert links[0] in links && links[1] in links;
  }

  /** The only path between two tables off the middle leads over the bridge. */
  lemma OnlyBridge(a: string, m: string, b: string, c: string, d: string, t: Trail<nat>)
    requires DotFree(a) && DotFree(m) && DotFree(b) && a != m && b != m && a != b && c != m && d != m
    requires SimplePath(BothWays(Links(Bridge(a, m, b))), c, d, t) && |t.edges| <= 2
    ensures (c == a && d == b && t.edges == [0, 1]) || (c == b && d == a && t.edges == [1, 0])
  {
    BridgeArcs(a, m, b);
    hide Bridge, Links, DotFree, BothWays;
    var arcs := BothWays(Links(Bridge(a, m, b)));
    assert Arc(t.nodes[0], t.edges[0], t.nodes[1]) in arcs;
    if |t.edges| == 2 { assert Arc(t.nodes[1], t.edges[1], t.nodes[2]) in arcs; }
  }

  lemma BridgePath(a: string, m: string, b: string)
    requires DotFree(a) && DotFree(m) && DotFree(b) && a != m && b != m && a != b
    ensures JoinPath(Bridge(a, m, b), a, b, 2, Refs(Bridge(a, m, b), [0, 1]))
  {
    BridgeArcs(a, m, b);
    hide Bridge, Links, DotFree, BothWays;
    assert SimplePath(BothWays(Links(Bridge(a, m, b))), a, b, Trail([a, m, b], [0, 1]));
  }

  lemma BridgeRefsDiffer(a: string, m: string, b: string)
    requires |m| > |a| && '.' !in m
    ensures Refs(Bridge(a, m, b), [0, 1]) != Refs(Bridge(a, m, b), [1, 0])
  {
    var r, s := EdgeRef(Bridge(a, m, b)[0]), EdgeRef(Bridge(a, m, b)[1]);
    assert r[|a|] == '.' && s[|a|] == m[|a|];
    assert Refs(Bridge(a, m, b), [0, 1])[0] == r && Refs(Bridge(a, m, b), [1, 0])[0] == s;
  }

  /** No list is what both of two pairs find. */
  lemma BridgeTellsApart(a: string, m: string, b: string, c: string, d: string, found: seq<seq<string>>)
    requires DotFree(a) && DotFree(m) && DotFree(b) && |m| > |a| && b != m && a != b && c != m && d != m
    requires (c, d) != (a, b)
    requires ExactJoinPaths(Bridge(a, m, b), a, b, 2, found)
    ensures !ExactJoinPaths(Bridge(a, m, b), c, d, 2, found)
  {
    var edges := Bridge(a, m, b);
    BridgePath(a, m, b);
    BridgeRefsDiffer(a, m, b);
    assert |found| > 0;
    var f := found[0];
    assert f in found;
    hide Bridge, Links, Refs, ExactJoinPaths;
    var t :| SimplePath(BothWays(Links(edges)), a, b, t) && |t.edges| <= 2 && f == Refs(edges, t.edges);
    OnlyBridge(a, m, b, a, b, t);
    if JoinPath(edges, c, d, 2, f) {
      var u :| SimplePath(BothWays(Links(edges)), c, d, u) && |u.edges| <= 2 && f == Refs(edges, u.edges);
      OnlyBridge(a, m, b, c, d, u);
    }
    if ExactJoinPaths(edges, c, d, 2, found) { FoundAreJoinPaths(edges, c, d, 2, found, f); }
  }

  lemma FoundAreJoinPaths(edges: seq<JoinEdge>, c: string, d: string, depth: int, found: seq<seq<string>>,
                          f: seq<string>)
    requires ExactJoinPaths(edges, c, d, depth, found) && f in found
    ensures JoinPath(edges, c, d, depth, f)
  {
  }

  /**
   When two pairs of listed tables share a key and edges can end at them, some edges give a table that is wrong for one
   of the pairs.
  */
  method SharedKeyLosesPaths(tables: seq<string>, a: string, b: string, c: string, d: string)
    returns (edges: seq<JoinEdge>, paths: map<string, seq<seq<string>>>)
    requires forall t | t in {a, b, c, d} :: t in tables
    requires DotFree(a) && DotFree(b) && a != b && c != d && (c, d) != (a, b) && PairKey(a, b) == PairKey(c, d)
    ensures JoinTable(tables, edges, 2, paths)
    ensures !(JoinSearch(edges, a, b, 2, Entry(paths, a, b)) && JoinSearch(edges, c, d, 2, Entry(paths, c, d)))
  {
    var m := seq(|a| + |b| + |c| + |d| + 1, _ => 'm');
    assert |m| > |a| && |m| > |b| && |m| > |c| && |m| > |d| && DotFree(m);
    edges := Bridge(a, m, b);
    hide Bridge, JoinTable, DotFree, PairKey, ExactJoinPaths, WholeTexts, LastBatch;
    paths := JoinPaths(tables, edges, 2);
    var entry := Entry(paths, a, b);
    if JoinSearch(edges, a, b, 2, entry) { BridgeTellsApart(a, m, b, c, d, entry); }
  }

  // ---- Symmetry ----

  lemma ReversedJoinPath(edges: seq<JoinEdge>, start: string, goal: string, depth: int, p: seq<string>)
    requires JoinPath(edges, start, goal, depth, p)
    ensures JoinPath(edges, goal, start, depth, Reverse(p))
  {
    var t :| SimplePath(BothWays(Links(edges)), start, goal, t) && |t.edges| <= depth && p == Refs(edges, t.edges);
    ReversedPath(Links(edges), start, goal, t);
    RefsReversed(edges, t.edges);
    hide SimplePath, BothWays, Links, Refs, Reverse;
  }

  lemma RefsReversed(edges: seq<JoinEdge>, path: seq<nat>)
    ensures Reverse(Refs(edges, path)) == Refs(edges, Reverse(path)) && |Reverse(path)| == |path|
  {
    hide RefAt;
  }

  lemma ReverseTwice<T>(s: seq<T>)
    ensures Reverse(Reverse(s)) == s
  {
  }

  lemma {:induction false} NoMoreThan<T>(s: seq<T>, t: seq<T>)
    requires NoDuplicates(s) && forall x | x in s :: x in t
    ensures |s| <= |t|
  {
    if |s| > 0 {
      assert s[0] in s;
      var k :| 0 <= k < |t| && t[k] == s[0];
      var t' := t[..k] + t[k + 1..];
      forall x | x in s[1..] ensures x in t' {
        assert x in s && x != s[0];
        var j :| 0 <= j < |t| && t[j] == x;
        assert if j < k then t'[j] == x else t'[j - 1] == x;
      }
      NoMoreThan(s[1..], t');
    }
  }

  ghost function ReverseAll(ps: seq<seq<string>>): seq<seq<string>> {
    seq(|ps|, i requires 0 <= i < |ps| => Reverse(ps[i]))
  }

  /** Below the cap, one direction holds no fewer paths than the other. */
  lemma CompleteSideIsLargest(edges: seq<JoinEdge>, a: string, b: string, depth: int, ab: seq<seq<string>>,
                              ba: seq<seq<string>>)
    requires ExactJoinPaths(edges, a, b, depth, ab) && ExactJoinPaths(edges, b, a, depth, ba)
    requires |ab| < MAX_PATHS_PER_PAIR
    ensures |ba| <= |ab|
  {
    var back := ReverseAll(ba);
    forall x | x in back ensures x in ab {
      var i :| 0 <= i < |ba| && back[i] == x;
      assert ba[i] in ba;
      ReversedJoinPath(edges, b, a, depth, ba[i]);
    }
    forall i, j | 0 <= i < j < |back| ensures back[i] != back[j] {
      ReverseTwice(ba[i]);
      ReverseTwice(ba[j]);
    }
    NoMoreThan(back, ab);
  }

  lemma ShortestNoLonger(edges: seq<JoinEdge>, a: string, b: string, depth: int, ab: seq<seq<string>>,
                         ba: seq<seq<string>>)
    requires ExactJoinPaths(edges, a, b, depth, ab) && ExactJoinPaths(edges, b, a, depth, ba)
    requires |ba| > 0
    ensures |ab| > 0 && |ab[0]| <= |ba[0]|
  {
    assert ba[0] in ba;
    ReversedJoinPath(edges, b, a, depth, ba[0]);
    if Reverse(ba[0]) !in ab {
      assert |ab| >= MAX_PATHS_PER_PAIR && ab[0] in ab;
    }
  }

  /** The table of join paths reads the same in both directions for two tables whose keys are their own. */
  lemma JoinPathsSymmetric(tables: seq<string>, edges: seq<JoinEdge>, depth: int, paths: map<string, seq<seq<string>>>,
                           a: string, b: string)
    requires JoinTable(tables, edges, depth, paths) && a in tables && b in tables && a != b
    requires OwnKey(tables, a, b) && OwnKey(tables, b, a)
    ensures PairKey(a, b) in paths <==> PairKey(b, a) in paths
    ensures PairKey(a, b) in paths ==> |paths[PairKey(a, b)][0]| == |paths[PairKey(b, a)][0]|
    ensures |Entry(paths, a, b)| < MAX_PATHS_PER_PAIR <==> |Entry(paths, b, a)| < MAX_PATHS_PER_PAIR
    ensures |Entry(paths, a, b)| < MAX_PATHS_PER_PAIR ==> |Entry(paths, a, b)| == |Entry(paths, b, a)|
    ensures |Entry(paths, a, b)| < MAX_PATHS_PER_PAIR ==>
              forall p :: (p in Entry(paths, a, b) <==> JoinPath(edges, a, b, depth, p)) &&
                          (p in Entry(paths, a, b) <==> Reverse(p) in Entry(paths, b, a))
  {
    hide ExactJoinPaths, JoinPath, WholeTexts, LastBatch, PairKey;
    var ab, ba := Entry(paths, a, b), Entry(paths, b, a);
    if |ba| > 0 { ShortestNoLonger(edges, a, b, depth, ab, ba); }
    if |ab| > 0 { ShortestNoLonger(edges, b, a, depth, ba, ab); }
    if |ab| < MAX_PATHS_PER_PAIR { CompleteSideIsLargest(edges, a, b, depth, ab, ba); }
    if |ba| < MAX_PATHS_PER_PAIR { CompleteSideIsLargest(edges, b, a, depth, ba, ab); }
    if |ab| < MAX_PATHS_PER_PAIR {
      forall p ensures (p in ab <==> JoinPath(edges, a, b, depth, p)) && (p in ab <==> Reverse(p) in ba) {
        ReversedMember(edges, a, b, depth, ab, ba, p);
      }
    }
  }

  lemma ReversedMember(edges: seq<JoinEdge>, a: string, b: string, depth: int, ab: seq<seq<string>>,
                       ba: seq<seq<string>>, p: seq<string>)
    requires ExactJoinPaths(edges, a, b, depth, ab) && ExactJoinPaths(edges, b, a, depth, ba)
    requires |ab| < MAX_PATHS_PER_PAIR && |ba| < MAX_PATHS_PER_PAIR
    ensures p in ab <==> JoinPath(edges, a, b, depth, p)
    ensures p in ab <==> Reverse(p) in ba
  {
    CompleteMembers(edges, a, b, depth, ab, p);
    CompleteMembers(edges, b, a, depth, ba, Reverse(p));
    ReverseTwice(p);
    hide ExactJoinPaths, JoinPath;
    if JoinPath(edges, a, b, depth, p) { ReversedJoinPath(edges, a, b, depth, p); }
    if JoinPath(edges, b, a, depth, Reverse(p)) { ReversedJoinPath(edges, b, a, depth, Reverse(p)); }
  }

  lemma CompleteMembers(edges: seq<JoinEdge>, a: string, b: string, depth: int, ab: seq<seq<string>>, p: seq<string>)
    requires ExactJoinPaths(edges, a, b, depth, ab) && |ab| < MAX_PATHS_PER_PAIR
    ensures p in ab <==> JoinPath(edges, a, b, depth, p)
  {
  }
}
