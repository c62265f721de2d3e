/** The in-memory graph: nodes and relationships updated in place, neighbour and path queries. */
module GraphRepository {
  import opened Common
  import opened PathSearch
  import opened SearchOrder
  import Sorting
  import Text

  const MAX_PATHS := 10

  datatype Node = Node(id: string, org: string, kind: string, properties: map<string, string>, details: string)

  datatype Rel = Rel(id: string, org: string, kind: string, source: string, target: string, details: string)

  /** The nodes of a path as `get_node` answers them: none for a node the caller does not own. */
  datatype GraphPath = GraphPath(nodes: seq<Option<Node>>, relationships: seq<Rel>, length: nat)

  const KNOWN_RELATIONSHIP_TYPES: set<string> := {
    "OWNS", "HAS_SCHEMA", "HAS_TABLE", "HAS_COLUMN", "HAS_METRIC", "HAS_DIMENSION",
    "REFERENCES", "JOINS_WITH", "INSTANCE_OF", "BELONGS_TO", "SEMANTICALLY_RELATED_TO",
    "MEASURES", "IDENTIFIES", "OCCURS_AT", "DESCRIBES", "VALIDATED_BY"
  }

  // ---- What queries see ----

  /** The relationships a caller's query walks; no list of kinds means every kind. */
  predicate Usable(r: Rel, org: string, kinds: seq<string>) {
    r.org == org && (|kinds| == 0 || r.kind in kinds)
  }

  function Links(rels: seq<Rel>, org: string, kinds: seq<string>): (links: seq<Arc<Rel>>)
    ensures forall a :: a in links <==>
            a.edge in rels && Usable(a.edge, org, kinds) && a == Arc(a.edge.source, a.edge, a.edge.target)
  {
    if |rels| == 0 then [] else
      var r := rels[|rels| - 1];
      Links(rels[..|rels| - 1], org, kinds) + if Usable(r, org, kinds) then [Arc(r.source, r, r.target)] else []
  }

  lemma {:induction false} LinksDistinct(rels: seq<Rel>, org: string, kinds: seq<string>)
    requires UniqueIds(rels)
    ensures DistinctLabels(Links(rels, org, kinds))
  {
    if |rels| > 0 { LinksDistinct(rels[..|rels| - 1], org, kinds); }
  }

  /** Each usable relationship can be walked both ways. */
  ghost function Arcs(rels: seq<Rel>, org: string, kinds: seq<string>): set<Arc<Rel>> {
    BothWays(Links(rels, org, kinds))
  }

  /** An arc is a stored relationship of the caller's tenant, of one of the kinds if any are named, taken either way. */
  lemma ArcExactly(rels: seq<Rel>, org: string, kinds: seq<string>, a: Arc<Rel>)
    ensures a in Arcs(rels, org, kinds) <==>
            && a.edge in rels && a.edge.org == org && (kinds == [] || a.edge.kind in kinds)
            && ((a.edge.source == a.from && a.edge.target == a.to)
                || (a.edge.source == a.to && a.edge.target == a.from))
  {
    var r := a.edge;
    if r in rels && Usable(r, org, kinds) {
      assert Arc(r.source, r, r.target) in Links(rels, org, kinds);
    }
  }

  ghost predicate RelJoins(r: Rel, u: string, v: string) {
    (r.source == u && r.target == v) || (r.source == v && r.target == u)
  }

  ghost predicate Joined(rels: set<Rel>, u: string, v: string) {
    exists r :: r in rels && RelJoins(r, u, v)
  }

  /** From each id to the next some relationship leads, one way or the other. */
  ghost predicate Walked(rels: set<Rel>, ids: seq<string>) {
    forall i | 0 < i < |ids| :: Joined(rels, ids[i - 1], ids[i])
  }

  ghost predicate WalkedWithin(rels: set<Rel>, from: string, to: string, k: nat) {
    exists ids :: 0 < |ids| <= k + 1 && ids[0] == from && ids[|ids| - 1] == to && Walked(rels, ids)
  }

  predicate Owned(nodes: map<string, Node>, org: string, id: string) {
    id in nodes && nodes[id].org == org
  }

  /** What `get_node` answers. */
  function Visible(nodes: map<string, Node>, org: string, id: string): Option<Node> {
    if Owned(nodes, org, id) then Some(nodes[id]) else None
  }

  ghost predicate ReachableIn(arcs: set<Arc<Rel>>, from: string, to: string, k: nat) {
    exists t :: Follows(arcs, t) && t.nodes[0] == from && t.nodes[|t.edges|] == to && |t.edges| <= k
  }

  lemma TrailIsWalk(arcs: set<Arc<Rel>>, rels: set<Rel>, t: Trail<Rel>)
    requires forall a | a in arcs :: a.edge in rels && RelJoins(a.edge, a.from, a.to)
    requires Follows(arcs, t)
    ensures Walked(rels, t.nodes)
  {
    forall i | 0 < i < |t.nodes| ensures Joined(rels, t.nodes[i - 1], t.nodes[i]) {
      var j := i - 1;
      assert Arc(t.nodes[j], t.edges[j], t.nodes[j + 1]) in arcs;
    }
  }

  lemma {:induction false} WalkIsTrail(arcs: set<Arc<Rel>>, rels: set<Rel>, ids: seq<string>)
    returns (t: Trail<Rel>)
    requires forall r, u, v | r in rels && RelJoins(r, u, v) :: Arc(u, r, v) in arcs
    requires Walked(rels, ids) && |ids| > 0
    ensures Follows(arcs, t) && t.nodes == ids
  {
    var n := |ids| - 1;
    if n == 0 {
      t := Trail(ids, []);
    } else {
      forall i | 0 < i < n ensures Joined(rels, ids[..n][i - 1], ids[..n][i]) {
        assert Joined(rels, ids[i - 1], ids[i]);
      }
      var init := WalkIsTrail(arcs, rels, ids[..n]);
      assert Joined(rels, ids[n - 1], ids[n]);
      var r :| r in rels && RelJoins(r, ids[n - 1], ids[n]);
      t := Extend(init, r, ids[n]);
    }
  }

  /** What a caller can reach is what the relationships it may use lead to. */
  lemma ReachableWalked(rels: seq<Rel>, org: string, kinds: seq<string>, allowed: set<Rel>, from: string, to: string,
                        k: nat)
    requires forall r :: r in allowed <==> r in rels && r.org == org && (kinds == [] || r.kind in kinds)
    ensures ReachableIn(Arcs(rels, org, kinds), from, to, k) <==> WalkedWithin(allowed, from, to, k)
  {
    var arcs := Arcs(rels, org, kinds);
    forall a: Arc<Rel> ensures a in arcs <==> (a.edge in allowed && RelJoins(a.edge, a.from, a.to)) {
      ArcExactly(rels, org, kinds, a);
    }
    hide Arcs, RelJoins, Follows;
    if t :| Follows(arcs, t) && t.nodes[0] == from && t.nodes[|t.edges|] == to && |t.edges| <= k {
      TrailIsWalk(arcs, allowed, t);
    }
    if ids :| 0 < |ids| <= k + 1 && ids[0] == from && ids[|ids| - 1] == to && Walked(allowed, ids) {
      forall r, u, v | r in allowed && RelJoins(r, u, v) ensures Arc(u, r, v) in arcs {
        assert Arc(u, r, v).edge == r;
      }
      var t := WalkIsTrail(arcs, allowed, ids);
    }
  }

  // ---- Breadth-first balls ----

  ghost function Ball(arcs: set<Arc<Rel>>, from: string, k: nat): set<string> {
    if k == 0 then {from} else
      Ball(arcs, from, k - 1) + set a | a in arcs && a.from in Ball(arcs, from, k - 1) :: a.to
  }

  lemma {:induction false} BallIsReachable(arcs: set<Arc<Rel>>, from: string, to: string, k: nat)
    requires to in Ball(arcs, from, k)
    ensures ReachableIn(arcs, from, to, k)
    decreases k
  {
    if k == 0 {
      assert Follows(arcs, Trail([from], []));
    } else if to in Ball(arcs, from, k - 1) {
      BallIsReachable(arcs, from, to, k - 1);
    } else {
      var a :| a in arcs && a.from in Ball(arcs, from, k - 1) && a.to == to;
      BallIsReachable(arcs, from, a.from, k - 1);
      var t :| Follows(arcs, t) && t.nodes[0] == from && t.nodes[|t.edges|] == a.from && |t.edges| <= k - 1;
      assert a == Arc(a.from, a.edge, a.to);
      assert Follows(arcs, Extend(t, a.edge, a.to));
    }
  }

  lemma BallSteps(arcs: set<Arc<Rel>>, from: string, k: nat, v: string)
    requires k > 0
    requires v in Ball(arcs, from, k - 1) || exists a :: a in arcs && a.from in Ball(arcs, from, k - 1) && a.to == v
    ensures v in Ball(arcs, from, k)
  {
  }

  /** A walk without its last step. */
  lemma InitFollows(arcs: set<Arc<Rel>>, t: Trail<Rel>)
    requires Follows(arcs, t) && |t.edges| > 0
    ensures var n := |t.edges|;
            && Follows(arcs, Trail(t.nodes[..n], t.edges[..n - 1]))
            && Arc(t.nodes[n - 1], t.edges[n - 1], t.nodes[n]) in arcs
  {
  }

  lemma {:induction false} ReachableIsInBall(arcs: set<Arc<Rel>>, t: Trail<Rel>, k: nat)
    requires Follows(arcs, t) && |t.edges| <= k
    ensures t.nodes[|t.edges|] in Ball(arcs, t.nodes[0], k)
    decreases k
  {
    var n := |t.edges|;
    if k == 0 {
      assert n == 0;
    } else if n < k {
      ReachableIsInBall(arcs, t, k - 1);
      hide Ball, Follows;
      BallSteps(arcs, t.nodes[0], k, t.nodes[n]);
    } else {
      InitFollows(arcs, t);
      assert |t.nodes| == n + 1;
      hide Ball, Follows;
      ReachableIsInBall(arcs, Trail(t.nodes[..n], t.edges[..n - 1]), k - 1);
      assert Arc(t.nodes[n - 1], t.edges[n - 1], t.nodes[n]).to == t.nodes[n];
      BallSteps(arcs, t.nodes[0], k, t.nodes[n]);
    }
  }

  lemma BallExact(arcs: set<Arc<Rel>>, from: string, k: nat)
    ensures forall v :: v in Ball(arcs, from, k) <==> ReachableIn(arcs, from, v, k)
  {
    forall v ensures v in Ball(arcs, from, k) <==> ReachableIn(arcs, from, v, k) {
      if v in Ball(arcs, from, k) { BallIsReachable(arcs, from, v, k); }
      if ReachableIn(arcs, from, v, k) {
        var t :| Follows(arcs, t) && t.nodes[0] == from && t.nodes[|t.edges|] == v && |t.edges| <= k;
        ReachableIsInBall(arcs, t, k);
      }
    }
  }

  /**
   One round of the neighbour search. A relationship with both ends in the frontier contributes its
   target only.
  */
  function NextFrontier(rels: seq<Rel>, org: string, kinds: seq<string>, frontier: set<string>): set<string> {
    (set r | r in rels && Usable(r, org, kinds) && r.source in frontier :: r.target) +
    (set r | r in rels && Usable(r, org, kinds) && r.source !in frontier && r.target in frontier :: r.source)
  }

  /** The frontier of round k lies in the ball of radius k and holds everything at distance exactly k. */
  ghost predicate FrontierOf(arcs: set<Arc<Rel>>, from: string, k: nat, frontier: set<string>) {
    && frontier <= Ball(arcs, from, k)
    && (forall v | v in Ball(arcs, from, k) :: v in frontier || (k > 0 && v in Ball(arcs, from, k - 1)))
  }

  lemma FrontierAdvances(rels: seq<Rel>, org: string, kinds: seq<string>, from: string, k: nat, frontier: set<string>)
    requires FrontierOf(Arcs(rels, org, kinds), from, k, frontier)
    ensures var next := NextFrontier(rels, org, kinds, frontier);
            && FrontierOf(Arcs(rels, org, kinds), from, k + 1, next)
            && Ball(Arcs(rels, org, kinds), from, k + 1) == Ball(Arcs(rels, org, kinds), from, k) + next
  {
    var arcs := Arcs(rels, org, kinds);
    var next := NextFrontier(rels, org, kinds, frontier);
    forall v | v in next ensures v in Ball(arcs, from, k + 1) {
      var r :| r in rels && Usable(r, org, kinds) &&
               ((r.source in frontier && r.target == v) || (r.target in frontier && r.source == v));
      assert Arc(r.source, r, r.target) in Links(rels, org, kinds);
      assert Arc(r.source, r, r.target) in arcs && Arc(r.target, r, r.source) in arcs;
      assert v in set a | a in arcs && a.from in Ball(arcs, from, k) :: a.to;
    }
    forall v | v in Ball(arcs, from, k + 1) && v !in Ball(arcs, from, k) ensures v in next {
      var a :| a in arcs && a.from in Ball(arcs, from, k) && a.to == v;
      assert a.from in frontier && v !in frontier;
    }
  }

  // ---- Dictionaries of relationships ----

  ghost predicate UniqueIds(rels: seq<Rel>) {
    forall i, j | 0 <= i < j < |rels| :: rels[i].id != rels[j].id
  }

  /** Assignment into an insertion-ordered dictionary keyed by relationship id. */
  function PutRel(rels: seq<Rel>, r: Rel): (out: seq<Rel>)
    ensures r in out
    ensures forall x | x in out :: x == r || x in rels
    ensures UniqueIds(rels) ==> UniqueIds(out) && forall x :: x in out <==> x == r || (x in rels && x.id != r.id)
  {
    if |rels| == 0 then [r]
    else if rels[0].id == r.id then [r] + rels[1..]
    else [rels[0]] + PutRel(rels[1..], r)
  }

  /** A relationship takes the place of the one with its id; the others keep theirs. */
  lemma {:induction false} PutRelPlace(rels: seq<Rel>, r: Rel, i: nat)
    requires UniqueIds(rels) && i < |rels|
    ensures i < |PutRel(rels, r)| && PutRel(rels, r)[i] == if rels[i].id == r.id then r else rels[i]
  {
    if i > 0 && rels[0].id != r.id { PutRelPlace(rels[1..], r, i - 1); }
  }

  /** The relationships left when a node is deleted, in their old order. */
  function Detached(rels: seq<Rel>, id: string): (out: seq<Rel>)
    ensures forall x :: x in out <==> x in rels && x.source != id && x.target != id
    ensures UniqueIds(rels) ==> UniqueIds(out)
  {
    if |rels| == 0 then [] else
      var rest := Detached(rels[1..], id);
      if rels[0].source != id && rels[0].target != id then [rels[0]] + rest else rest
  }

  // ---- Referential integrity ----

  ghost predicate KeyedById(nodes: map<string, Node>) {
    forall id | id in nodes :: nodes[id].id == id
  }

  ghost predicate NoDangling(nodes: map<string, Node>, rels: seq<Rel>) {
    forall r | r in rels :: r.source in nodes && r.target in nodes
  }

  /** Relationships stay inside one tenant. */
  ghost predicate Tenanted(nodes: map<string, Node>, rels: seq<Rel>) {
    forall r | r in rels :: Owned(nodes, r.org, r.source) && Owned(nodes, r.org, r.target)
  }

  /** The sort key of a path query: neighbour id, then relationship id, as one text. */
  function Hop(item: (string, Rel)): string {
    item.0 + item.1.id
  }

  // ---- Answers ----

  function Ids(nodes: seq<Node>): seq<string> {
    seq(|nodes|, i requires 0 <= i < |nodes| => nodes[i].id)
  }

  /** The end of a relationship that a walk arriving at v goes on to. */
  function Onward(r: Rel, v: string): string {
    if r.source == v then r.target else r.source
  }

  /** The ids of the nodes on a walk over relationships. */
  function Walk(from: string, path: seq<Rel>): (ids: seq<string>)
    ensures |ids| == |path| + 1
  {
    if |path| == 0 then [from] else
      var ids := Walk(from, path[..|path| - 1]);
      ids + [Onward(path[|path| - 1], ids[|path| - 1])]
  }

  lemma {:induction false} WalkPrefix(from: string, path: seq<Rel>, i: nat)
    requires i <= |path|
    ensures Walk(from, path[..i]) == Walk(from, path)[..i + 1]
  {
    if i < |path| {
      var init := path[..|path| - 1];
      WalkPrefix(from, init, i);
      assert init[..i] == path[..i];
    } else {
      assert path[..i] == path;
    }
  }

  lemma {:induction false} WalkFollows(rels: seq<Rel>, org: string, kinds: seq<string>, t: Trail<Rel>)
    requires Follows(Arcs(rels, org, kinds), t)
    ensures Walk(t.nodes[0], t.edges) == t.nodes
    decreases |t.edges|
  {
    var n := |t.edges|;
    if n > 0 {
      WalkFollows(rels, org, kinds, Trail(t.nodes[..n], t.edges[..n - 1]));
      assert Arc(t.nodes[n - 1], t.edges[n - 1], t.nodes[n]) in Arcs(rels, org, kinds);
      assert t.nodes == t.nodes[..n] + [t.nodes[n]];
    }
  }

  function TrailOf(from: string, p: GraphPath): Trail<Rel> {
    Trail(Walk(from, p.relationships), p.relationships)
  }

  function TrailsOf(from: string, ps: seq<GraphPath>): (ts: seq<Trail<Rel>>)
    ensures |ts| == |ps| && forall i | 0 <= i < |ps| :: ts[i] == TrailOf(from, ps[i])
  {
    seq(|ps|, i requires 0 <= i < |ps| => TrailOf(from, ps[i]))
  }

  lemma NoTrails(from: string)
    ensures TrailsOf(from, []) == []
  {
  }

  /** The caller owns every node of the walk but possibly the last. */
  ghost predicate Through(nodes: map<string, Node>, org: string, ids: seq<string>) {
    forall i | 0 <= i < |ids| - 1 :: Owned(nodes, org, ids[i])
  }

  /** The answer's length is that of its walk, and its nodes are what the caller sees along it. */
  ghost predicate Answers(nodes: map<string, Node>, org: string, from: string, p: GraphPath) {
    var ids := Walk(from, p.relationships);
    && p.length == |p.relationships| && |p.nodes| == |ids|
    && (forall i | 0 <= i < |ids| :: p.nodes[i] == Visible(nodes, org, ids[i]))
    && Through(nodes, org, ids)
  }

  /** Some simple path within the depth goes through a node that the caller does not own. */
  ghost predicate Blocked(nodes: map<string, Node>, arcs: set<Arc<Rel>>, org: string, from: string, to: string,
                          depth: int) {
    exists t :: SimplePath(arcs, from, to, t) && |t.edges| <= depth && !Through(nodes, org, t.nodes)
  }

  /** Where relationships stay inside one tenant, no path is blocked and all its nodes are the caller's. */
  lemma TenantedThrough(nodes: map<string, Node>, rels: seq<Rel>, org: string, kinds: seq<string>, from: string,
                        to: string, t: Trail<Rel>)
    requires Tenanted(nodes, rels) && SimplePath(Arcs(rels, org, kinds), from, to, t)
    ensures forall v | v in t.nodes :: Owned(nodes, org, v)
  {
    forall i | 0 <= i < |t.nodes| ensures Owned(nodes, org, t.nodes[i]) {
      var k := if i == 0 then 0 else i - 1;
      assert Arc(t.nodes[k], t.edges[k], t.nodes[k + 1]) in Arcs(rels, org, kinds);
    }
  }

  lemma NotBlocked(nodes: map<string, Node>, rels: seq<Rel>, org: string, kinds: seq<string>, from: string, to: string,
                   depth: int)
    requires Tenanted(nodes, rels)
    ensures !Blocked(nodes, Arcs(rels, org, kinds), org, from, to, depth)
  {
    hide Tenanted, Arcs;
    forall t | SimplePath(Arcs(rels, org, kinds), from, to, t) ensures Through(nodes, org, t.nodes) {
      TenantedThrough(nodes, rels, org, kinds, from, to, t);
    }
  }

  /** A search that found all paths met no blocked one. */
  lemma CompleteUnblocked(nodes: map<string, Node>, rels: seq<Rel>, org: string, kinds: seq<string>, from: string,
                          to: string, depth: int, results: seq<GraphPath>)
    requires ExactSearch(Arcs(rels, org, kinds), from, to, depth, TrailsOf(from, results), true)
    requires forall p | p in results :: Answers(nodes, org, from, p)
    ensures !Blocked(nodes, Arcs(rels, org, kinds), org, from, to, depth)
  {
    hide Arcs, Through, Visible, NoDuplicates;
    forall t | SimplePath(Arcs(rels, org, kinds), from, to, t) && |t.edges| <= depth
      ensures Through(nodes, org, t.nodes)
    {
      assert t in TrailsOf(from, results);
      var i :| 0 <= i < |results| && TrailOf(from, results[i]) == t;
      assert results[i] in results;
    }
  }

  /** The relationships on the paths found are the caller's, and of the kinds asked for. */
  lemma PathsUsable(rels: seq<Rel>, org: string, kinds: seq<string>, from: string, to: string, depth: int,
                    results: seq<GraphPath>, complete: bool)
    requires ExactSearch(Arcs(rels, org, kinds), from, to, depth, TrailsOf(from, results), complete)
    ensures forall p, r | p in results && r in p.relationships ::
              r in rels && r.org == org && (kinds == [] || r.kind in kinds)
  {
    var arcs, found := Arcs(rels, org, kinds), TrailsOf(from, results);
    hide Arcs;
    forall p, r | p in results && r in p.relationships
      ensures r in rels && r.org == org && (kinds == [] || r.kind in kinds)
    {
      var i :| 0 <= i < |results| && results[i] == p;
      var t := found[i];
      assert t in found && t.edges == p.relationships;
      var j :| 0 <= j < |t.edges| && t.edges[j] == r;
      assert Arc(t.nodes[j], r, t.nodes[j + 1]) in arcs;
      ArcExactly(rels, org, kinds, Arc(t.nodes[j], r, t.nodes[j + 1]));
    }
  }

  /** What a search found, in terms of the caller's relationships and of the sort key as it is written. */
  lemma FoundPaths(nodes: map<string, Node>, rels: seq<Rel>, org: string, kinds: seq<string>, from: string, to: string,
                   depth: int, results: seq<GraphPath>)
    requires var arcs, found := Arcs(rels, org, kinds), TrailsOf(from, results);
             && ExactSearch(arcs, from, to, depth, found, |found| < MAX_PATHS)
             && OrderedSearch(arcs, from, to, depth, found, Hop)
    requires forall p | p in results :: Answers(nodes, org, from, p)
    ensures var arcs, found := Arcs(rels, org, kinds), TrailsOf(from, results);
            && OrderedSearch(arcs, from, to, depth, found, (x: (string, Rel)) => x.0 + x.1.id)
            && (|found| < 10 ==> !Blocked(nodes, arcs, org, from, to, depth))
    ensures forall p, r | p in results && r in p.relationships ::
              r in rels && r.org == org && (kinds == [] || r.kind in kinds)
  {
    hide ExactSearch, OrderedSearch, Arcs, Blocked, Answers, TrailsOf;
    var arcs, found := Arcs(rels, org, kinds), TrailsOf(from, results);
    SameKeyOrder(arcs, from, to, depth, found, Hop, (x: (string, Rel)) => x.0 + x.1.id);
    PathsUsable(rels, org, kinds, from, to, depth, results, |found| < MAX_PATHS);
    if |found| < MAX_PATHS { CompleteUnblocked(nodes, rels, org, kinds, from, to, depth, results); }
  }

  /** A queue entry stands for an open trail. */
  ghost predicate Stands(entry: (string, seq<Rel>, set<string>), t: Trail<Rel>) {
    && |t.nodes| == |t.edges| + 1
    && entry.0 == t.nodes[|t.edges|]
    && entry.1 == t.edges
    && entry.2 == set v | v in t.nodes
  }

  ghost predicate StandsForAll(queue: seq<(string, seq<Rel>, set<string>)>, trails: seq<Trail<Rel>>) {
    && |queue| == |trails|
    && forall i | 0 <= i < |queue| :: Stands(queue[i], trails[i])
  }

  lemma OneStands(from: string)
    ensures StandsForAll([(from, [], {from})], [Trail([from], [])])
  {
  }

  lemma HeadStands(queue: seq<(string, seq<Rel>, set<string>)>, trails: seq<Trail<Rel>>)
    requires StandsForAll(queue, trails) && |queue| > 0
    ensures |trails| == |queue| && StandsForAll(queue[1..], trails[1..]) && Stands(queue[0], trails[0])
    ensures queue[0].0 == trails[0].nodes[|trails[0].edges|] && |queue[0].1| == |trails[0].edges|
  {
  }

  lemma NoneStand(queue: seq<(string, seq<Rel>, set<string>)>, trails: seq<Trail<Rel>>)
    requires StandsForAll(queue, trails)
    ensures |trails| == |queue|
  {
  }

  class InMemoryGraphRepository {
    var nodes: map<string, Node>
    var rels: seq<Rel>

    ghost predicate Valid()
      reads this
    {
      KeyedById(nodes) && UniqueIds(rels)
    }

    constructor ()
      ensures Valid() && nodes == map[] && rels == []
    {
      nodes, rels := map[], [];
    }

    method CreateNode(node: Node) returns (id: string)
      requires Valid()
      modifies this`nodes
      ensures Valid() && id == node.id
      ensures nodes == old(nodes)[node.id := node]
      ensures NoDangling(old(nodes), rels) ==> NoDangling(nodes, rels)
      // Overwriting a node keeps the tenants apart exactly when the node does not leave its relationships' tenant.
      ensures Tenanted(old(nodes), rels) ==>
                (Tenanted(nodes, rels) <==>
                 forall r | r in rels && (r.source == node.id || r.target == node.id) :: r.org == node.org)
    {
      nodes := nodes[node.id := node];
      id := node.id;
    }

    method UpdateNode(org: string, node: Node) returns (res: Result<()>)
      requires Valid()
      modifies this`nodes
      ensures Valid()
      ensures Owned(old(nodes), org, node.id) ==> res == Ok(()) && nodes == old(nodes)[node.id := node]
      ensures !Owned(old(nodes), org, node.id) ==> res == Err(NotFound) && nodes == old(nodes)
      ensures NoDangling(old(nodes), rels) ==> NoDangling(nodes, rels)
    {
      if node.id !in nodes || nodes[node.id].org != org {
        return Err(NotFound);
      }
      nodes := nodes[node.id := node];
      res := Ok(());
    }

    method DeleteNode(org: string, id: string)
      requires Valid()
      modifies this
      ensures Valid()
      ensures Owned(old(nodes), org, id) ==> nodes == old(nodes) - {id} && rels == Detached(old(rels), id)
      ensures !Owned(old(nodes), org, id) ==> nodes == old(nodes) && rels == old(rels)
      ensures NoDangling(old(nodes), old(rels)) ==> NoDangling(nodes, rels)
      ensures Tenanted(old(nodes), old(rels)) ==> Tenanted(nodes, rels)
    {
      if id !in nodes || nodes[id].org != org {
        return;
      }
      nodes := nodes - {id};
      rels := Detached(rels, id);
    }

    method GetNode(org: string, id: string) returns (node: Option<Node>)
      ensures node == Visible(nodes, org, id)
      ensures node == if id in nodes && nodes[id].org == org then Some(nodes[id]) else None
    {
      node := if id !in nodes || nodes[id].org != org then None else Some(nodes[id]);
    }

    /** The nodes with a label and given property values, ordered by id, at most limit of them. */
    method FindNodes(org: string, kind: string, where: map<string, string>, limit: nat) returns (found: seq<Node>)
      requires Valid()
      ensures |found| <= limit
      ensures forall n | n in found :: n.id in nodes && nodes[n.id] == n && n.org == org && n.kind == kind
      ensures forall n, k | n in found && k in where :: k in n.properties && n.properties[k] == where[k]
      ensures forall i, j | 0 <= i < j < |found| :: Text.Before(found[i].id, found[j].id)
      // Whatever else fits is cut off by the limit and comes later.
      ensures forall id | id in nodes && nodes[id].org == org && nodes[id].kind == kind && nodes[id] !in found
                && (forall k | k in where :: k in nodes[id].properties && nodes[id].properties[k] == where[k]) ::
                |found| == limit && forall n | n in found :: Text.Before(n.id, id)
    {
      hide Matches;
      var matches: seq<Node> := [];
      var todo := nodes.Keys;
      while todo != {}
        invariant todo <= nodes.Keys
        invariant forall n | n in matches ::
                  n.id in nodes && n.id !in todo && nodes[n.id] == n && Matches(n, org, kind, where)
        invariant forall i, j | 0 <= i < j < |matches| :: matches[i].id != matches[j].id
        invariant forall id | id in nodes && id !in todo && Matches(nodes[id], org, kind, where) :: nodes[id] in matches
        decreases todo
      {
        var id :| id in todo;
        todo := todo - {id};
        if Matches(nodes[id], org, kind, where) {
          matches := matches + [nodes[id]];
        }
      }
      FirstMatches(nodes, org, kind, where, matches, limit);
      hide *;
      var sorted := Text.SortBy(matches, NodeId);
      found := sorted[..if limit < |sorted| then limit else |sorted|];
    }

    method CreateRelationship(org: string, rel: Rel) returns (res: Result<string>)
      requires Valid()
      modifies this`rels
      ensures Valid()
      ensures rel.kind !in KNOWN_RELATIONSHIP_TYPES ==> res == Err(Validation)
      ensures rel.kind in KNOWN_RELATIONSHIP_TYPES ==>
                res == if Owned(nodes, org, rel.source) && Owned(nodes, org, rel.target) then Ok(rel.id)
                  else Err(NotFound)
      ensures rels == if res.Ok? then PutRel(old(rels), rel) else old(rels)
      ensures res.Ok? ==> forall r :: r in rels <==> r == rel || (r in old(rels) && r.id != rel.id)
      ensures NoDangling(nodes, old(rels)) ==> NoDangling(nodes, rels)
      ensures Tenanted(nodes, old(rels)) && rel.org == org ==> Tenanted(nodes, rels)
    {
      if rel.kind !in KNOWN_RELATIONSHIP_TYPES {
        return Err(Validation);
      }
      var source := GetNode(org, rel.source);
      var target := GetNode(org, rel.target);
      if source.None? || target.None? {
        return Err(NotFound);
      }
      rels := PutRel(rels, rel);
      res := Ok(rel.id);
    }

    method DeleteRelationship(org: string, id: string)
      requires Valid()
      modifies this`rels
      ensures Valid()
      ensures forall r :: r in rels <==> r in old(rels) && !(r.id == id && r.org == org)
    {
      var kept: seq<Rel> := [];
      for i := 0 to |rels|
        invariant UniqueIds(kept)
        invariant forall r :: r in kept <==> r in rels[..i] && !(r.id == id && r.org == org)
      {
        if !(rels[i].id == id && rels[i].org == org) {
          kept := kept + [rels[i]];
        }
        assert rels[..i + 1] == rels[..i] + [rels[i]];
      }
      assert rels[..|rels|] == rels;
      rels := kept;
    }

    method Round(org: string, kinds: seq<string>, frontier: set<string>) returns (next: set<string>)
      ensures next == NextFrontier(rels, org, kinds, frontier)
    {
      next := {};
      for i := 0 to |rels|
        invariant next == NextFrontier(rels[..i], org, kinds, frontier)
      {
        var r := rels[i];
        assert rels[..i + 1] == rels[..i] + [r];
        if Usable(r, org, kinds) {
          if r.source in frontier {
            next := next + {r.target};
          } else if r.target in frontier {
            next := next + {r.source};
          }
        }
      }
      assert rels[..|rels|] == rels;
    }

    method Collect(org: string, id: string, next: set<string>, ghost region: set<string>,
                   found: seq<Node>) returns (seen: seq<Node>)
      requires Valid() && Collected(nodes, org, id, region, found)
      ensures Collected(nodes, org, id, region + next, seen)
    {
      seen := found;
      var todo := next;
      while todo != {}
        invariant todo <= next
        invariant Collected(nodes, org, id, region + (next - todo), seen)
        decreases todo
      {
        var candidate :| candidate in todo;
        todo := todo - {candidate};
        if candidate != id && candidate !in Ids(seen) {
          var node := GetNode(org, candidate);
          if node.Some? {
            IdsGrow(seen, node.value);
            seen := seen + [node.value];
          }
        }
      }
    }

    /**
     The caller's nodes at distance 1 to max(1, depth) from a node, over relationships of the given
     kind (any kind when there is none), ordered by id.
    */
    method Neighbors(org: string, id: string, kind: Option<string>, depth: int) returns (res: Result<seq<Node>>)
      requires Valid()
      ensures res.Err? <==> kind.Some? && kind.value !in KNOWN_RELATIONSHIP_TYPES
      ensures res.Err? ==> res.code == Validation
      ensures res.Ok? && !Owned(nodes, org, id) ==> res.value == []
      ensures res.Ok? && Owned(nodes, org, id) ==>
                var allowed := set r | r in rels && r.org == org && (kind.None? || r.kind == kind.value);
                && (forall n | n in res.value :: n.id in nodes && nodes[n.id] == n)
                && (forall v :: (exists n :: n in res.value && n.id == v) <==>
                      && v != id && v in nodes && nodes[v].org == org
                      && WalkedWithin(allowed, id, v, if depth < 1 then 1 else depth))
      ensures res.Ok? ==> forall i, j | 0 <= i < j < |res.value| :: Text.Before(res.value[i].id, res.value[j].id)
    {
      if kind.Some? && kind.value !in KNOWN_RELATIONSHIP_TYPES {
        return Err(Validation);
      }
      var start := GetNode(org, id);
      if start.None? {
        return Ok([]);
      }
      assert Owned(nodes, org, id);
      var kinds := if kind.Some? then [kind.value] else [];
      ghost var arcs := Arcs(rels, org, kinds);
      var seen: seq<Node> := [];
      var frontier := {id};
      var rounds := if depth < 1 then 1 else depth;
      assert FrontierOf(arcs, id, 0, frontier) && Collected(nodes, org, id, Ball(arcs, id, 0), seen);
      hide *;
      for k := 0 to rounds
        invariant FrontierOf(arcs, id, k, frontier)
        invariant Collected(nodes, org, id, Ball(arcs, id, k), seen)
      {
        var next := Round(org, kinds, frontier);
        FrontierAdvances(rels, org, kinds, id, k, frontier);
        seen := Collect(org, id, next, Ball(arcs, id, k), seen);
        frontier := next;
      }
      NeighborsWalked(nodes, rels, org, id, kind, rounds, seen);
      res := Ok(Text.SortBy(seen, NodeId));
    }

    /** The nodes along a walk, looked up one by one; none when the walk leaves a node the caller does not see. */
    method Chain(org: string, from: string, path: seq<Rel>) returns (chain: Option<seq<Option<Node>>>)
      requires Valid() && Owned(nodes, org, from)
      ensures chain.Some? <==> Through(nodes, org, Walk(from, path))
      ensures chain.Some? ==> Answers(nodes, org, from, GraphPath(chain.value, path, |path|))
    {
      var found := [Some(nodes[from])];
      for i := 0 to |path|
        invariant |found| == i + 1
        invariant forall j | 0 <= j <= i :: found[j] == Visible(nodes, org, Walk(from, path[..i])[j])
        invariant Through(nodes, org, Walk(from, path[..i]))
      {
        WalkPrefix(from, path, i);
        WalkPrefix(from, path, i + 1);
        assert path[..i + 1][..i] == path[..i];
        if found[i].None? {
          return None;
        }
        var previous := found[i].value.id;
        var nextId := if path[i].source == previous then path[i].target else path[i].source;
        var node := GetNode(org, nextId);
        found := found + [node];
      }
      assert path[..|path|] == path;
      chain := Some(found);
    }

    method CheckKinds(kinds: seq<string>) returns (known: bool)
      ensures known <==> forall k | k in kinds :: k in KNOWN_RELATIONSHIP_TYPES
    {
      for i := 0 to |kinds|
        invariant forall j | 0 <= j < i :: kinds[j] in KNOWN_RELATIONSHIP_TYPES
      {
        if kinds[i] !in KNOWN_RELATIONSHIP_TYPES {
          return false;
        }
      }
      known := true;
    }

    /**
     Simple paths between two nodes, shortest first; the search stops once it holds MAX_PATHS. It raises when a path
     it reports goes through a node of another tenant.
    */
    method Paths(org: string, from: string, to: string, maxDepth: int,
                 kinds: seq<string>) returns (res: Result<seq<GraphPath>>)
      requires Valid()
      ensures (exists k :: k in kinds && k !in KNOWN_RELATIONSHIP_TYPES) <==> res == Err(Validation)
      ensures res.Err? && res.code != Validation ==>
                && res.code == AttributeError && Owned(nodes, org, from)
                && Blocked(nodes, Arcs(rels, org, kinds), org, from, to, maxDepth)
      ensures res.Ok? && !Owned(nodes, org, from) ==> res.value == []
      ensures res.Ok? && Owned(nodes, org, from) ==>
                var arcs, found := Arcs(rels, org, kinds), TrailsOf(from, res.value);
                && ExactSearch(arcs, from, to, maxDepth, found, |found| < 10)
                && Batched(arcs, from, to, found, 10)
                && OrderedSearch(arcs, from, to, maxDepth, found, (x: (string, Rel)) => x.0 + x.1.id)
                && (forall p | p in res.value :: Answers(nodes, org, from, p))
                && (|found| < 10 ==> !Blocked(nodes, arcs, org, from, to, maxDepth))
      ensures res.Ok? ==> forall p, r | p in res.value && r in p.relationships ::
                r in rels && r.org == org && (kinds == [] || r.kind in kinds)
    {
      hide KNOWN_RELATIONSHIP_TYPES;
      var known := CheckKinds(kinds);
      if !known {
        return Err(Validation);
      }
      var start := GetNode(org, from);
      if start.None? {
        return Ok([]);
      }
      res := Search(org, from, to, maxDepth, kinds);
      hide *;
      if res.Ok? { FoundPaths(nodes, rels, org, kinds, from, to, maxDepth, res.value); }
    }

    method Search(org: string, from: string, to: string, maxDepth: int,
                  kinds: seq<string>) returns (res: Result<seq<GraphPath>>)
      requires Valid() && Owned(nodes, org, from)
      ensures res.Err? ==> res.code == AttributeError
                           && Blocked(nodes, Arcs(rels, org, kinds), org, from, to, maxDepth)
      ensures res.Ok? ==>
                var arcs, found := Arcs(rels, org, kinds), TrailsOf(from, res.value);
                && ExactSearch(arcs, from, to, maxDepth, found, |found| < MAX_PATHS)
                && Batched(arcs, from, to, found, MAX_PATHS)
                && OrderedSearch(arcs, from, to, maxDepth, found, Hop)
                && forall p | p in res.value :: Answers(nodes, org, from, p)
    {
      var links := Links(rels, org, kinds);
      ghost var arcs := Arcs(rels, org, kinds);
      LinksDistinct(rels, org, kinds);
      assert arcs == BothWays(links);
      SearchStarts(arcs, from, to, maxDepth);
      BatchedStarts(arcs, from, to, MAX_PATHS);
      OrderStarts(from, Hop);
      NoTrails(from);
      hide *;
      var adjacency := Adjacency(links);
      var results := [];
      var queue: seq<(string, seq<Rel>, set<string>)> := [(from, [], {from})];
      ghost var trails := [Trail([from], [])];
      ghost var done: set<Trail<Rel>> := {};
      ghost var bound := Within(arcs, from, if maxDepth < 0 then 0 else maxDepth);
      OneStands(from);
      while |queue| > 0 && |results| < MAX_PATHS
        invariant SearchInv(arcs, from, to, maxDepth, trails, TrailsOf(from, results), done)
        invariant Batched(arcs, from, to, TrailsOf(from, results), MAX_PATHS)
        invariant SearchOrdered(trails, TrailsOf(from, results), Hop)
        invariant StandsForAll(queue, trails)
        invariant forall p | p in results :: Answers(nodes, org, from, p)
        decreases bound - done
      {
        var (current, path, visited) := queue[0];
        HeadStands(queue, trails);
        ghost var t := trails[0];
        SearchHead(arcs, from, to, maxDepth, trails, TrailsOf(from, results), done);
        queue := queue[1..];
        if |path| >= maxDepth {
          OrderDrops(trails, TrailsOf(from, results), Hop);
          SearchDrops(arcs, from, to, maxDepth, trails, TrailsOf(from, results), done);
          trails := trails[1..];
        } else {
          var outs := Text.SortBy(NeighborsOf(adjacency, current), Hop);
          SortedAdjacencyLists(links, current, Hop);
          StateLeveled(arcs, from, to, maxDepth, trails, TrailsOf(from, results), done);
          OrderExpands(trails, TrailsOf(from, results), outs, to, Hop);
          SearchExpands(arcs, from, to, maxDepth, trails, TrailsOf(from, results), done, outs);
          BatchedExpands(arcs, from, to, t, outs, TrailsOf(from, results), MAX_PATHS);
          var failed;
          failed, queue, results, trails := Expand(org, kinds, from, to, maxDepth, (current, path, visited), outs,
            queue, results, t, trails[1..]);
          if failed {
            return Err(AttributeError);
          }
        }
        done := done + {t};
      }
      NoneStand(queue, trails);
      OrderEnds(arcs, from, to, maxDepth, trails, TrailsOf(from, results), done, Hop);
      SearchEnds(arcs, from, to, maxDepth, trails, TrailsOf(from, results), done, |results| < MAX_PATHS);
      res := Ok(results);
    }

    /** The inner loop of the path search: extend one popped entry over its sorted neighbours. */
    method Expand(org: string, kinds: seq<string>, from: string, to: string, maxDepth: int,
                  entry: (string, seq<Rel>, set<string>), outs: seq<(string, Rel)>,
                  queue0: seq<(string, seq<Rel>, set<string>)>, results0: seq<GraphPath>, ghost t: Trail<Rel>,
                  ghost rest: seq<Trail<Rel>>)
      returns (failed: bool, queue: seq<(string, seq<Rel>, set<string>)>, results: seq<GraphPath>,
               ghost trails: seq<Trail<Rel>>)
      requires Valid() && Owned(nodes, org, from) && |t.edges| < maxDepth
      requires Open(Arcs(rels, org, kinds), from, to, t) && Stands(entry, t) && StandsForAll(queue0, rest)
      requires Lists(Arcs(rels, org, kinds), entry.0, outs)
      requires forall p | p in results0 :: Answers(nodes, org, from, p)
      ensures failed ==> Blocked(nodes, Arcs(rels, org, kinds), org, from, to, maxDepth)
      ensures !failed ==>
                && trails == rest + Pushes(t, outs, to) && StandsForAll(queue, trails)
                && TrailsOf(from, results) == TrailsOf(from, results0) + Hits(t, outs, to)
                && forall p | p in results :: Answers(nodes, org, from, p)
    {
      hide BothWays, Lists, Answers, KeyedById, UniqueIds, Owned, Through, Walk, Blocked;
      var (current, path, visited) := entry;
      failed, queue, results, trails := false, queue0, results0, rest;
      for i := 0 to |outs|
        invariant trails == rest + Pushes(t, outs[..i], to)
        invariant TrailsOf(from, results) == TrailsOf(from, results0) + Hits(t, outs[..i], to)
        invariant StandsForAll(queue, trails)
        invariant forall p | p in results :: Answers(nodes, org, from, p)
      {
        hide Hits, Pushes;
        var (neighbor, rel) := outs[i];
        NextOut(t, outs, to, i);
        if neighbor !in visited {
          ghost var longer := Extend(t, rel, neighbor);
          assert outs[i] in outs;
          ExtendFollows(Arcs(rels, org, kinds), t, outs, neighbor, rel);
          if neighbor == to {
            WalkFollows(rels, org, kinds, longer);
            var chain := Chain(org, from, path + [rel]);
            if chain.None? {
              IsBlocked(nodes, Arcs(rels, org, kinds), org, from, to, maxDepth, longer);
              failed := true;
              return;
            }
            results := results + [GraphPath(chain.value, path + [rel], |path| + 1)];
          } else {
            queue := queue + [(neighbor, path + [rel], visited + {neighbor})];
            trails := trails + [longer];
          }
        }
      }
      assert outs[..|outs|] == outs;
    }
  }

  lemma IsBlocked(nodes: map<string, Node>, arcs: set<Arc<Rel>>, org: string, from: string, to: string, depth: int,
                  t: Trail<Rel>)
    requires SimplePath(arcs, from, to, t) && |t.edges| <= depth && !Through(nodes, org, t.nodes)
    ensures Blocked(nodes, arcs, org, from, to, depth)
  {
  }

  predicate Matches(n: Node, org: string, kind: string, where: map<string, string>) {
    && n.org == org
    && n.kind == kind
    && forall k | k in where :: k in n.properties && n.properties[k] == where[k]
  }

  function NodeId(n: Node): string {
    n.id
  }

  lemma SortedStrictly(s: seq<Node>, r: seq<Node>)
    requires forall i, j | 0 <= i < j < |s| :: s[i].id != s[j].id
    requires r == Text.SortBy(s, NodeId)
    ensures forall i, j | 0 <= i < j < |r| :: Text.Before(r[i].id, r[j].id)
    ensures forall n :: n in r <==> n in s
  {
    Text.SortByMembers(s, NodeId);
    forall i, j | 0 <= i < j < |r| ensures Text.Before(r[i].id, r[j].id) {
      assert Text.AtMost(NodeId(r[i]), NodeId(r[j]));
      if r[i].id == r[j].id { SortedDistinct(s, r, i, j); }
    }
  }

  /** The first of the matching nodes in id order. */
  lemma FirstMatches(nodes: map<string, Node>, org: string, kind: string, where: map<string, string>,
                     matches: seq<Node>, limit: nat)
    requires forall n | n in matches :: n.id in nodes && nodes[n.id] == n && Matches(n, org, kind, where)
    requires forall i, j | 0 <= i < j < |matches| :: matches[i].id != matches[j].id
    requires forall id | id in nodes && Matches(nodes[id], org, kind, where) :: nodes[id] in matches
    requires KeyedById(nodes)
    ensures var sorted := Text.SortBy(matches, NodeId);
            var found := sorted[..if limit < |sorted| then limit else |sorted|];
            && |found| <= limit
            && (forall n | n in found :: n.id in nodes && nodes[n.id] == n && n.org == org && n.kind == kind)
            && (forall n, k | n in found && k in where :: k in n.properties && n.properties[k] == where[k])
            && (forall i, j | 0 <= i < j < |found| :: Text.Before(found[i].id, found[j].id))
            && forall id | id in nodes && nodes[id].org == org && nodes[id].kind == kind && nodes[id] !in found
                 && (forall k | k in where :: k in nodes[id].properties && nodes[id].properties[k] == where[k]) ::
                 |found| == limit && forall n | n in found :: Text.Before(n.id, id)
  {
    var sorted := Text.SortBy(matches, NodeId);
    var found := sorted[..if limit < |sorted| then limit else |sorted|];
    SortedStrictly(matches, sorted);
    forall n | n in found ensures n in matches { assert n in sorted; }
    forall id | id in nodes && nodes[id].org == org && nodes[id].kind == kind && nodes[id] !in found
      && (forall k | k in where :: k in nodes[id].properties && nodes[id].properties[k] == where[k])
      ensures |found| == limit && forall n | n in found :: Text.Before(n.id, id)
    {
      assert Matches(nodes[id], org, kind, where) && nodes[id] in sorted;
      var j :| 0 <= j < |sorted| && sorted[j] == nodes[id];
      assert j >= |found|;
    }
  }

  lemma SortedDistinct(s: seq<Node>, r: seq<Node>, i: nat, j: nat)
    requires forall i, j | 0 <= i < j < |s| :: s[i].id != s[j].id
    requires multiset(r) == multiset(s) && i < j < |r|
    ensures r[i].id != r[j].id
  {
    assert r[i] in multiset(s) && r[j] in multiset(s);
    Sorting.DistinctRearranged(s, r);
  }

  /** The nodes collected so far are the caller's nodes in a region, without the start. */
  ghost predicate Collected(nodes: map<string, Node>, org: string, start: string, region: set<string>,
                            seen: seq<Node>) {
    && (forall n | n in seen :: n.id in nodes && nodes[n.id] == n)
    && (forall v :: v in Ids(seen) <==> v != start && Owned(nodes, org, v) && v in region)
    && (forall i, j | 0 <= i < j < |seen| :: seen[i].id != seen[j].id)
  }

  lemma IdsGrow(seen: seq<Node>, n: Node)
    ensures Ids(seen + [n]) == Ids(seen) + [n.id]
    ensures forall i | 0 <= i < |seen| :: seen[i].id in Ids(seen)
  {
    assert forall i | 0 <= i < |seen| :: Ids(seen)[i] == seen[i].id;
  }

  /** The nodes collected after the last round, sorted, are what walks of at most so many steps lead to. */
  lemma NeighborsWalked(nodes: map<string, Node>, rels: seq<Rel>, org: string, id: string, kind: Option<string>,
                        rounds: nat, seen: seq<Node>)
    requires var kinds := if kind.Some? then [kind.value] else [];
             Collected(nodes, org, id, Ball(Arcs(rels, org, kinds), id, rounds), seen)
    ensures var sorted := Text.SortBy(seen, NodeId);
            var allowed := set r | r in rels && r.org == org && (kind.None? || r.kind == kind.value);
            && (forall n | n in sorted :: n.id in nodes && nodes[n.id] == n)
            && (forall v :: (exists n :: n in sorted && n.id == v) <==>
                  v != id && v in nodes && nodes[v].org == org && WalkedWithin(allowed, id, v, rounds))
            && (forall i, j | 0 <= i < j < |sorted| :: Text.Before(sorted[i].id, sorted[j].id))
  {
    var kinds := if kind.Some? then [kind.value] else [];
    var arcs, sorted := Arcs(rels, org, kinds), Text.SortBy(seen, NodeId);
    var allowed := set r | r in rels && r.org == org && (kind.None? || r.kind == kind.value);
    SortedStrictly(seen, sorted);
    BallExact(arcs, id, rounds);
    hide Arcs, ReachableIn, WalkedWithin, Ball;
    forall v ensures (exists n :: n in sorted && n.id == v) <==>
                     v != id && v in nodes && nodes[v].org == org && WalkedWithin(allowed, id, v, rounds)
    {
      ReachableWalked(rels, org, kinds, allowed, id, v, rounds);
      IdsOf(sorted, v);
      IdsOf(seen, v);
      assert v in Ids(seen) <==> v != id && Owned(nodes, org, v) && v in Ball(arcs, id, rounds);
      assert (exists n :: n in sorted && n.id == v) <==> (exists n :: n in seen && n.id == v);
    }
  }

  lemma IdsOf(s: seq<Node>, v: string)
    ensures v in Ids(s) <==> exists n :: n in s && n.id == v
  {
    if n :| n in s && n.id == v {
      var i :| 0 <= i < |s| && s[i] == n;
      assert Ids(s)[i] == v;
    }
    if v in Ids(s) {
      var i :| 0 <= i < |s| && Ids(s)[i] == v;
      assert s[i] in s;
    }
  }

  // ---- When the cap bounds the answer of `paths`, and when it does not ----

  /** No node has two usable relationships to v. */
  ghost predicate OneRelEach(rels: seq<Rel>, org: string, kinds: seq<string>, v: string) {
    forall u, r, s | r in rels && s in rels && RelJoins(r, u, v) && RelJoins(s, u, v) && Usable(r, org, kinds)
      && Usable(s, org, kinds) :: r == s
  }

  /** If no node has more than m relationships to the goal, `paths` returns fewer than MAX_PATHS + m. */
  lemma PathsOvershootBounded(rels: seq<Rel>, org: string, kinds: seq<string>, from: string, to: string, depth: int,
                              found: seq<Trail<Rel>>, m: nat)
    requires ExactSearch(Arcs(rels, org, kinds), from, to, depth, found, |found| < MAX_PATHS)
    requires Batched(Arcs(rels, org, kinds), from, to, found, MAX_PATHS)
    requires forall u :: |Between(Arcs(rels, org, kinds), u, to)| <= m
    ensures |found| < MAX_PATHS + m
  {
    CapOvershootBounded(Arcs(rels, org, kinds), from, to, depth, found, |found| < MAX_PATHS, MAX_PATHS, m);
  }

  /** If no node has two usable relationships to the goal, `paths` returns at most MAX_PATHS. */
  lemma PathsWithinCap(rels: seq<Rel>, org: string, kinds: seq<string>, from: string, to: string, depth: int,
                       found: seq<Trail<Rel>>)
    requires ExactSearch(Arcs(rels, org, kinds), from, to, depth, found, |found| < MAX_PATHS)
    requires Batched(Arcs(rels, org, kinds), from, to, found, MAX_PATHS)
    requires OneRelEach(rels, org, kinds, to)
    ensures |found| <= MAX_PATHS
  {
    var arcs := Arcs(rels, org, kinds);
    forall u ensures |Between(arcs, u, to)| <= 1 {
      var between := Between(arcs, u, to);
      forall a, b | a in between && b in between ensures a == b {
        assert RelJoins(a.edge, u, to) && RelJoins(b.edge, u, to);
      }
      AtMostOne(between);
    }
    hide ExactSearch, Batched, Arcs;
    PathsOvershootBounded(rels, org, kinds, from, to, depth, found, 1);
  }

  lemma AtMostOne<T>(s: set<T>)
    requires forall a, b | a in s && b in s :: a == b
    ensures |s| <= 1
  {
    if a :| a in s { assert s == {a}; }
  }

  /**
   At depth one `paths` returns one path for each usable relationship, so the cap holds exactly when there are no more
   of them.
  */
  lemma DepthOnePathsExactly(rels: seq<Rel>, org: string, kinds: seq<string>, from: string, to: string,
                             found: seq<Trail<Rel>>)
    requires ExactSearch(Arcs(rels, org, kinds), from, to, 1, found, |found| < MAX_PATHS)
    requires Batched(Arcs(rels, org, kinds), from, to, found, MAX_PATHS) && from != to
    ensures |found| == |Between(Arcs(rels, org, kinds), from, to)|
    ensures |found| <= MAX_PATHS <==> |Between(Arcs(rels, org, kinds), from, to)| <= MAX_PATHS
  {
    DepthOneExactly(Arcs(rels, org, kinds), from, to, found, MAX_PATHS);
  }

  function Parallel(k: nat): Rel {
    Rel(seq(k, _ => 'x'), "org", "JOINS_WITH", "a", "b", "")
  }

  function ParallelArc(k: nat): Arc<Rel> {
    Arc("a", Parallel(k), "b")
  }

  lemma {:induction false} ParallelArcs(n: nat)
    ensures |set k | 0 <= k < n :: ParallelArc(k)| == n
  {
    if n > 0 {
      ParallelArcs(n - 1);
      var fewer := set k | 0 <= k < n - 1 :: ParallelArc(k);
      assert (set k | 0 <= k < n :: ParallelArc(k)) == fewer + {ParallelArc(n - 1)};
      forall k | 0 <= k < n - 1 ensures ParallelArc(k) != ParallelArc(n - 1) {
        assert |ParallelArc(k).edge.id| == k && |ParallelArc(n - 1).edge.id| == n - 1;
      }
    }
  }

  /** rels holds the first n parallel relationships and nothing else. */
  ghost predicate OnlyParallel(rels: seq<Rel>, n: nat) {
    forall r :: r in rels <==> exists j | 0 <= j < n :: r == Parallel(j)
  }

  lemma ParallelBetween(rels: seq<Rel>, n: nat)
    requires OnlyParallel(rels, n)
    ensures |Between(Arcs(rels, "org", []), "a", "b")| == n
  {
    ParallelArcs(n);
    var between, parallel := Between(Arcs(rels, "org", []), "a", "b"), set k | 0 <= k < n :: ParallelArc(k);
    forall a | a in between ensures a in parallel {
      var k :| 0 <= k < n && a.edge == Parallel(k);
      assert a == ParallelArc(k);
    }
    forall a | a in parallel ensures a in between {
      var k :| 0 <= k < n && a == ParallelArc(k);
      assert Parallel(k) in rels && a in Links(rels, "org", []);
    }
    assert between == parallel;
  }

  lemma OneMoreParallel(rels: seq<Rel>, n: nat)
    requires OnlyParallel(rels, n) && UniqueIds(rels)
    ensures OnlyParallel(PutRel(rels, Parallel(n)), n + 1)
  {
    assert forall j | 0 <= j <= n :: |Parallel(j).id| == j;
  }

  const ENDS: map<string, Node> := map["a" := Node("a", "org", "Table", map[], ""),
    "b" := Node("b", "org", "Table", map[], "")]

  lemma ParallelTenanted(rels: seq<Rel>, n: nat)
    requires OnlyParallel(rels, n)
    ensures Tenanted(ENDS, rels)
  {
  }

  /** Two nodes and n relationships between them. */
  method ParallelGraph(n: nat) returns (repo: InMemoryGraphRepository)
    ensures fresh(repo) && repo.Valid() && repo.nodes == ENDS && OnlyParallel(repo.rels, n)
  {
    repo := new InMemoryGraphRepository();
    var _ := repo.CreateNode(ENDS["a"]);
    var _ := repo.CreateNode(ENDS["b"]);
    assert repo.nodes == ENDS;
    for k := 0 to n
      invariant repo.Valid() && repo.nodes == ENDS && OnlyParallel(repo.rels, k)
    {
      ParallelTenanted(repo.rels, k);
      OneMoreParallel(repo.rels, k);
      hide OnlyParallel, UniqueIds, PutRel;
      var _ := repo.CreateRelationship("org", Parallel(k));
    }
  }

  /** However large n is, some graph makes `paths` return n paths: eleven, for one, and so more than the cap. */
  method ManyPaths(n: nat) returns (found: seq<GraphPath>)
    ensures |found| == n
  {
    var repo := ParallelGraph(n);
    ParallelTenanted(repo.rels, n);
    ParallelBetween(repo.rels, n);
    hide OnlyParallel, Arcs, Between, ExactSearch, Batched;
    var res := repo.Paths("org", "a", "b", 1, []);
    NotBlocked(repo.nodes, repo.rels, "org", [], "a", "b", 1);
    found := res.value;
    DepthOnePathsExactly(repo.rels, "org", [], "a", "b", TrailsOf("a", found));
  }

  /** The i-th relationship of the graph in which the cap is overshot as far as can be. */
  function TightRel(i: nat): Rel {
    Rel(seq(i, _ => 'r'), "org", "JOINS_WITH", TightEnds(MAX_PATHS - 1, i).0, TightEnds(MAX_PATHS - 1, i).1, "")
  }

  ghost predicate OnlyTight(rels: seq<Rel>, n: nat) {
    forall r :: r in rels <==> exists i: nat :: i < n && r == TightRel(i)
  }

  lemma TightRelIds(i: nat)
    ensures |TightRel(i).id| == i
  {
  }

  lemma TightTags()
    ensures Distinguishes((i: nat) => TightRel(i))
  {
    var tag := (i: nat) => TightRel(i);
    forall i: nat, j: nat | tag(i) == tag(j) ensures i == j {
      TightRelIds(i);
      TightRelIds(j);
    }
  }

  lemma TightLinksOf(rels: seq<Rel>, m: nat)
    requires OnlyTight(rels, 2 * (MAX_PATHS - 1) + 2 + m)
    ensures Tight(Links(rels, "org", []), (i: nat) => TightRel(i), MAX_PATHS - 1, m)
  {
    var links, tag, n := Links(rels, "org", []), (i: nat) => TightRel(i), MAX_PATHS - 1;
    hide TightEnds;
    forall x ensures x in links <==> exists i: nat :: i < 2 * n + 2 + m && x == TightArc(tag, n, i) {
      if x in links {
        var i: nat :| i < 2 * n + 2 + m && x.edge == TightRel(i);
        assert x == TightArc(tag, n, i);
      }
      if i: nat :| i < 2 * n + 2 + m && x == TightArc(tag, n, i) { assert x.edge == TightRel(i) && x.edge in rels; }
    }
  }

  lemma OneMoreTight(rels: seq<Rel>, n: nat)
    requires OnlyTight(rels, n) && UniqueIds(rels)
    ensures OnlyTight(PutRel(rels, TightRel(n)), n + 1)
  {
    forall i: nat ensures |TightRel(i).id| == i { TightRelIds(i); }
    hide TightRel;
  }

  /** Every node of that graph. */
  ghost predicate TightNodes(nodes: map<string, Node>) {
    forall v | v in {"a", "b", "c", "d"} || exists k: nat :: k < MAX_PATHS - 1 && v == Middle(k) ::
      Owned(nodes, "org", v)
  }

  lemma TightRelOwned(nodes: map<string, Node>, i: nat)
    requires TightNodes(nodes)
    ensures Owned(nodes, "org", TightRel(i).source) && Owned(nodes, "org", TightRel(i).target)
    ensures TightRel(i).org == "org" && TightRel(i).kind == "JOINS_WITH"
  {
    hide Owned, Middle;
    if i < 2 * (MAX_PATHS - 1) {
      var k := i / 2;
      assert k < MAX_PATHS - 1;
    }
  }

  method TightNodesCreated(repo: InMemoryGraphRepository)
    requires repo.Valid() && repo.rels == []
    modifies repo`nodes
    ensures repo.Valid() && TightNodes(repo.nodes)
  {
    hide Owned, Middle, KeyedById, UniqueIds, TightNodes, NoDangling, Tenanted;
    OwnNode(repo, "a");
    OwnNode(repo, "b");
    OwnNode(repo, "c");
    OwnNode(repo, "d");
    for k := 0 to MAX_PATHS - 1
      invariant repo.Valid()
      invariant Owned(repo.nodes, "org", "a") && Owned(repo.nodes, "org", "b")
      invariant Owned(repo.nodes, "org", "c") && Owned(repo.nodes, "org", "d")
      invariant forall l: nat | l < k :: Owned(repo.nodes, "org", Middle(l))
    {
      OwnNode(repo, Middle(k));
    }
    OwnsTight(repo.nodes);
  }

  lemma OwnsTight(nodes: map<string, Node>)
    requires Owned(nodes, "org", "a") && Owned(nodes, "org", "b")
    requires Owned(nodes, "org", "c") && Owned(nodes, "org", "d")
    requires forall l: nat | l < MAX_PATHS - 1 :: Owned(nodes, "org", Middle(l))
    ensures TightNodes(nodes)
  {
    hide Owned, Middle;
  }

  /** A node of the tenant is created, and the tenant's other nodes stay. */
  method OwnNode(repo: InMemoryGraphRepository, id: string)
    requires repo.Valid()
    modifies repo`nodes
    ensures repo.Valid() && Owned(repo.nodes, "org", id)
    ensures forall v | Owned(old(repo.nodes), "org", v) :: Owned(repo.nodes, "org", v)
  {
    hide NoDangling, Tenanted, UniqueIds;
    var _ := repo.CreateNode(Node(id, "org", "Table", map[], ""));
  }

  method TightGraph(m: nat) returns (repo: InMemoryGraphRepository)
    ensures fresh(repo) && repo.Valid() && TightNodes(repo.nodes) && Tenanted(repo.nodes, repo.rels)
    ensures OnlyTight(repo.rels, 2 * (MAX_PATHS - 1) + 2 + m)
  {
    repo := new InMemoryGraphRepository();
    TightNodesCreated(repo);
    for i := 0 to 2 * (MAX_PATHS - 1) + 2 + m
      invariant repo.Valid() && TightNodes(repo.nodes) && Tenanted(repo.nodes, repo.rels) && OnlyTight(repo.rels, i)
    {
      TightRelOwned(repo.nodes, i);
      OneMoreTight(repo.rels, i);
      hide OnlyTight, UniqueIds, PutRel, TightNodes, Tenanted, TightRel, NoDangling, Owned;
      var _ := repo.CreateRelationship("org", TightRel(i));
    }
  }

  /**
   For every m there is a graph in which no node has more than m relationships to the goal and `paths` returns
   MAX_PATHS - 1 + m paths: no smaller bound than `PathsOvershootBounded` gives holds.
  */
  method OvershootReached(m: nat) returns (repo: InMemoryGraphRepository, found: seq<GraphPath>)
    requires m > 0
    ensures forall u :: |Between(Arcs(repo.rels, "org", []), u, "b")| <= m
    ensures |found| == MAX_PATHS - 1 + m
  {
    repo := TightGraph(m);
    TightLinksOf(repo.rels, m);
    TightTags();
    ghost var tag := (i: nat) => TightRel(i);
    ghost var links := Links(repo.rels, "org", []);
    assert Arcs(repo.rels, "org", []) == BothWays(links) && Owned(repo.nodes, "org", "a");
    NotBlocked(repo.nodes, repo.rels, "org", [], "a", "b", 3);
    forall u ensures |Between(Arcs(repo.rels, "org", []), u,
      "b")| <= m { TightBetween(links, tag, MAX_PATHS - 1, m, u); }
    hide *;
    var res := repo.Paths("org", "a", "b", 3, []);
    found := res.value;
    Reached(links, tag, m, TrailsOf("a", found));
  }

  lemma Reached(links: seq<Arc<Rel>>, tag: nat -> Rel, m: nat, found: seq<Trail<Rel>>)
    requires Tight(links, tag, MAX_PATHS - 1, m) && Distinguishes(tag) && m > 0
    requires ExactSearch(BothWays(links), "a", "b", 3, found, |found| < MAX_PATHS)
    requires Batched(BothWays(links), "a", "b", found, MAX_PATHS)
    ensures |found| == MAX_PATHS - 1 + m
  {
    hide Tight, Distinguishes, ExactSearch, WholeBatches, OneBatchPast;
    OvershootAttained(links, tag, MAX_PATHS - 1, m, found);
  }

  const CHAIN: seq<Rel> := [Rel("r", "org", "JOINS_WITH", "a", "b", ""), Rel("s", "org", "JOINS_WITH", "b", "c", "")]

  lemma OnlyChain(f: Trail<Rel>)
    requires SimplePath(Arcs(CHAIN, "org", []), "a", "c", f) && |f.edges| <= 2
    ensures f == Trail(["a", "b", "c"], CHAIN)
  {
    var arcs := Arcs(CHAIN, "org", []);
    assert forall x | x in arcs :: x.edge in CHAIN;
    assert Arc(f.nodes[0], f.edges[0], f.nodes[1]) in arcs;
    if |f.edges| == 2 { assert Arc(f.nodes[1], f.edges[1], f.nodes[2]) in arcs; }
  }

  lemma ChainBlocked(nodes: map<string, Node>)
    requires !Owned(nodes, "org", "b")
    ensures Blocked(nodes, Arcs(CHAIN, "org", []), "org", "a", "c", 2)
  {
    var links := Links(CHAIN, "org", []);
    var t := Trail(["a", "b", "c"], CHAIN);
    forall k | 0 <= k < 2 ensures Arc(CHAIN[k].source, CHAIN[k], CHAIN[k].target) in links {
      assert CHAIN[k] in CHAIN;
    }
    assert SimplePath(Arcs(CHAIN, "org", []), "a", "c", t);
    assert !Owned(nodes, "org", t.nodes[1]);
  }

  /** The chain of relationships, with the node between them taken over by another tenant. */
  method OverwrittenChain() returns (repo: InMemoryGraphRepository)
    ensures fresh(repo) && repo.Valid() && repo.rels == CHAIN
    ensures Owned(repo.nodes, "org", "a") && !Owned(repo.nodes, "org", "b")
  {
    repo := new InMemoryGraphRepository();
    var _ := repo.CreateNode(Node("a", "org", "Table", map[], ""));
    var _ := repo.CreateNode(Node("b", "org", "Table", map[], ""));
    var _ := repo.CreateNode(Node("c", "org", "Table", map[], ""));
    hide UniqueIds, KeyedById, NoDangling, Tenanted;
    var _ := repo.CreateRelationship("org", CHAIN[0]);
    assert repo.rels == [CHAIN[0]];
    var _ := repo.CreateRelationship("org", CHAIN[1]);
    PutChain();
    assert repo.rels == CHAIN;
    var _ := repo.CreateNode(Node("b", "other", "Table", map[], ""));
  }

  lemma PutChain()
    ensures PutRel([CHAIN[0]], CHAIN[1]) == CHAIN
  {
    assert PutRel([CHAIN[0]][1..], CHAIN[1]) == [CHAIN[1]];
  }

  lemma ChainFoundOnce(results: seq<GraphPath>)
    requires ExactSearch(Arcs(CHAIN, "org", []), "a", "c", 2, TrailsOf("a", results), |results| < MAX_PATHS)
    ensures |results| < MAX_PATHS
  {
    var found := TrailsOf("a", results);
    hide Arcs, TrailsOf;
    forall f | f in found ensures f == Trail(["a", "b", "c"], CHAIN) { OnlyChain(f); }
    assert |found| > 1 ==> found[0] == found[1];
  }

  /** `create_node` lets another tenant take over a node; a path through it then makes `paths` raise. */
  method OverwrittenNodeRaises() returns (res: Result<seq<GraphPath>>)
    ensures res == Err(AttributeError)
  {
    var repo := OverwrittenChain();
    ChainBlocked(repo.nodes);
    hide *;
    res := repo.Paths("org", "a", "c", 2, []);
    if res.Ok? { ChainFoundOnce(res.value); }
  }
}
