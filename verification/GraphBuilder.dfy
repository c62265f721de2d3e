/** Projection of the context artifacts of one connection into the graph, with pruning of what the artifacts dropped. */
module GraphBuilder {
  import opened Common
  import opened GraphRepository
  import Sorting
  import opened Topology

  datatype Column = Column(name: string, details: string)
  datatype Table = Table(name: string, columns: seq<Column>, details: string)
  datatype Metric = Metric(table: string, name: string, details: string)
  datatype Concept = Concept(name: string, mapsTo: seq<string>, details: string)
  datatype ConceptLink = ConceptLink(subject: string, objectName: string, kind: string, details: string)
  datatype Ontology = Ontology(concepts: seq<Concept>, links: seq<ConceptLink>)

  datatype Artifacts = Artifacts(tables: seq<Table>, topology: Option<seq<JoinEdge>>, metrics: seq<Metric>,
                                 ontology: Option<Ontology>)

  datatype Report = Report(nodesWritten: nat, relationshipsWritten: nat, nodesPruned: nat, degraded: bool)

  const LABELS: seq<string> := ["Connection", "Table", "Column", "Metric", "Concept"]
  const PRUNE_LIMIT := 1000

  // ---- Ids ----

  function ConnectionId(c: string): string { "connection:" + c }
  function TableId(c: string, table: string): string { "table:" + c + ":" + table }
  function ColumnId(c: string, member: string): string { "column:" + c + ":" + member }
  function MetricId(c: string, name: string): string { "metric:" + c + ":" + name }
  function ConceptId(c: string, name: string): string { "concept:" + c + ":" + name }

  function RelId(kind: string, source: string, target: string): string {
    "rel:" + kind + ":" + source + "->" + target
  }

  function MakeNode(org: string, c: string, id: string, kind: string, name: string, details: string): Node {
    Node(id, org, kind, map["connection_id" := c, "name" := name], details)
  }

  function MakeRel(org: string, kind: string, source: string, target: string, details: string): Rel {
    Rel(RelId(kind, source, target), org, kind, source, target, details)
  }

  // ---- One node or relationship per artifact item ----

  function ConnectionNode(org: string, c: string): Node {
    MakeNode(org, c, ConnectionId(c), "Connection", c, "")
  }

  function TableNode(org: string, c: string, t: Table): Node {
    MakeNode(org, c, TableId(c, t.name), "Table", t.name, t.details)
  }

  function TableRel(org: string, c: string, t: Table): Rel {
    MakeRel(org, "HAS_TABLE", ConnectionId(c), TableId(c, t.name), "")
  }

  function ColumnNode(org: string, c: string, t: Table, col: Column): Node {
    MakeNode(org, c, ColumnId(c, t.name + "." + col.name), "Column", col.name, col.details)
  }

  function ColumnRel(org: string, c: string, t: Table, col: Column): Rel {
    MakeRel(org, "HAS_COLUMN", TableId(c, t.name), ColumnId(c, t.name + "." + col.name), "")
  }

  function EdgeRel(org: string, c: string, e: JoinEdge): Rel {
    MakeRel(org, if e.kind == "fk" then "REFERENCES"
      else "JOINS_WITH", ColumnId(c, e.left), ColumnId(c, e.right), e.details)
  }

  function MetricNode(org: string, c: string, m: Metric): Node {
    MakeNode(org, c, MetricId(c, m.name), "Metric", m.name, m.details)
  }

  function MetricRel(org: string, c: string, m: Metric): Rel {
    MakeRel(org, "HAS_METRIC", TableId(c, m.table), MetricId(c, m.name), "")
  }

  function ConceptNode(org: string, c: string, k: Concept): Node {
    MakeNode(org, c, ConceptId(c, k.name), "Concept", k.name, k.details)
  }

  function DescribesRel(org: string, c: string, k: Concept, table: string): Rel {
    MakeRel(org, "DESCRIBES", ConceptId(c, k.name), TableId(c, table), k.details)
  }

  function LinkRel(org: string, c: string, l: ConceptLink): Rel {
    var kind := "SEMANTICALLY_RELATED_TO";
    var source, target := ConceptId(c, l.subject), ConceptId(c, l.objectName);
    Rel(RelId(kind, source, target) + ":" + l.kind, org, kind, source, target, l.details)
  }

  // ---- The projection, as sets over the artifacts ----

  function TableNames(tables: seq<Table>): set<string> {
    set t | t in tables :: t.name
  }

  function Members(tables: seq<Table>): set<string> {
    set t, col | t in tables && col in t.columns :: t.name + "." + col.name
  }

  function Edges(a: Artifacts): seq<JoinEdge> {
    if a.topology.Some? then a.topology.value else []
  }

  function Concepts(a: Artifacts): seq<Concept> {
    if a.ontology.Some? then a.ontology.value.concepts else []
  }

  function ConceptLinks(a: Artifacts): seq<ConceptLink> {
    if a.ontology.Some? then a.ontology.value.links else []
  }

  ghost function ColumnNodes(org: string, c: string, t: Table, columns: seq<Column>): set<Node> {
    set col | col in columns :: ColumnNode(org, c, t, col)
  }

  ghost function ColumnRels(org: string, c: string, t: Table, columns: seq<Column>): set<Rel> {
    set col | col in columns :: ColumnRel(org, c, t, col)
  }

  ghost function TableNodes(org: string, c: string, tables: seq<Table>): set<Node> {
    (set t | t in tables :: TableNode(org, c, t)) +
    (set t, n | t in tables && n in ColumnNodes(org, c, t, t.columns) :: n)
  }

  ghost function TableRels(org: string, c: string, tables: seq<Table>): set<Rel> {
    (set t | t in tables :: TableRel(org, c, t)) +
    (set t, r | t in tables && r in ColumnRels(org, c, t, t.columns) :: r)
  }

  ghost function EdgeRels(org: string, c: string, edges: seq<JoinEdge>, members: set<string>): set<Rel> {
    set e | e in edges && e.left in members && e.right in members && e.left != e.right :: EdgeRel(org, c, e)
  }

  ghost function MetricNodes(org: string, c: string, metrics: seq<Metric>, tables: set<string>): set<Node> {
    set m | m in metrics && m.table in tables :: MetricNode(org, c, m)
  }

  ghost function MetricRels(org: string, c: string, metrics: seq<Metric>, tables: set<string>): set<Rel> {
    set m | m in metrics && m.table in tables :: MetricRel(org, c, m)
  }

  ghost function ConceptNodes(org: string, c: string, concepts: seq<Concept>): set<Node> {
    set k | k in concepts :: ConceptNode(org, c, k)
  }

  ghost function DescribesRels(org: string, c: string, concepts: seq<Concept>, tables: set<string>): set<Rel> {
    set k, t | k in concepts && t in k.mapsTo && t in tables :: DescribesRel(org, c, k, t)
  }

  function ConceptNames(concepts: seq<Concept>): set<string> {
    set k | k in concepts :: k.name
  }

  ghost function LinkRels(org: string, c: string, links: seq<ConceptLink>, names: set<string>): set<Rel> {
    set l | l in links && l.subject in names && l.objectName in names :: LinkRel(org, c, l)
  }

  ghost function ProjectedNodes(org: string, c: string, a: Artifacts): set<Node> {
    {ConnectionNode(org, c)} +
    TableNodes(org, c, a.tables) +
    MetricNodes(org, c, a.metrics, TableNames(a.tables)) +
    ConceptNodes(org, c, Concepts(a))
  }

  ghost function ProjectedRels(org: string, c: string, a: Artifacts): set<Rel> {
    TableRels(org, c, a.tables) +
    EdgeRels(org, c, Edges(a), Members(a.tables)) +
    MetricRels(org, c, a.metrics, TableNames(a.tables)) +
    DescribesRels(org, c, Concepts(a), TableNames(a.tables)) +
    LinkRels(org, c, ConceptLinks(a), ConceptNames(Concepts(a)))
  }

  ghost function NodeIds(ns: set<Node>): set<string> {
    set n | n in ns :: n.id
  }

  ghost function RelIds(rs: set<Rel>): set<string> {
    set r | r in rs :: r.id
  }

  // ---- What the projection holds, item by item ----

  ghost predicate HasTable(a: Artifacts, name: string) {
    exists t :: t in a.tables && t.name == name
  }

  ghost predicate HasMember(a: Artifacts, member: string) {
    exists t, col :: t in a.tables && col in t.columns && member == t.name + "." + col.name
  }

  ghost predicate HasConcept(a: Artifacts, name: string) {
    a.ontology.Some? && exists k :: k in a.ontology.value.concepts && k.name == name
  }

  ghost predicate NodeIs(n: Node, id: string, kind: string, c: string, name: string, details: string) {
    && n.id == id && n.kind == kind && n.details == details
    && n.properties == map["connection_id" := c, "name" := name]
  }

  /** A node of the projection stands for the connection, or for a table, column, metric or concept of it. */
  ghost predicate DrawnNode(org: string, c: string, a: Artifacts, n: Node) {
    && n.org == org
    && (|| NodeIs(n, "connection:" + c, "Connection", c, c, "")
        || (exists t :: t in a.tables && NodeIs(n, "table:" + c + ":" + t.name, "Table", c, t.name, t.details))
        || (exists t, col :: t in a.tables && col in t.columns &&
              NodeIs(n, "column:" + c + ":" + (t.name + "." + col.name), "Column", c, col.name, col.details))
        || (exists m :: m in a.metrics && HasTable(a, m.table) &&
              NodeIs(n, "metric:" + c + ":" + m.name, "Metric", c, m.name, m.details))
        || (a.ontology.Some? &&
            (exists k :: k in a.ontology.value.concepts &&
               NodeIs(n, "concept:" + c + ":" + k.name, "Concept", c, k.name, k.details))))
  }

  ghost predicate Spans(r: Rel, kind: string, source: string, target: string, details: string) {
    r.kind == kind && r.source == source && r.target == target && r.details == details
  }

  ghost predicate IdFromEnds(r: Rel) {
    r.id == "rel:" + r.kind + ":" + r.source + "->" + r.target
  }

  ghost predicate DrawnTableRel(c: string, a: Artifacts, r: Rel) {
    exists t :: t in a.tables && Spans(r, "HAS_TABLE", "connection:" + c, "table:" + c + ":" + t.name, "")
  }

  ghost predicate DrawnColumnRel(c: string, a: Artifacts, r: Rel) {
    exists t, col :: t in a.tables && col in t.columns &&
      Spans(r, "HAS_COLUMN", "table:" + c + ":" + t.name, "column:" + c + ":" + (t.name + "." + col.name), "")
  }

  /** Foreign keys become REFERENCES and all other edges JOINS_WITH, between two different known columns. */
  ghost predicate DrawnEdgeRel(c: string, a: Artifacts, r: Rel) {
    && a.topology.Some?
    && exists e ::
         && e in a.topology.value && HasMember(a, e.left) && HasMember(a, e.right) && e.left != e.right
         && Spans(r, if e.kind == "fk" then "REFERENCES" else "JOINS_WITH", "column:" + c + ":" + e.left,
                  "column:" + c + ":" + e.right, e.details)
  }

  ghost predicate DrawnMetricRel(c: string, a: Artifacts, r: Rel) {
    exists m :: m in a.metrics && HasTable(a, m.table) &&
      Spans(r, "HAS_METRIC", "table:" + c + ":" + m.table, "metric:" + c + ":" + m.name, "")
  }

  ghost predicate DrawnDescribesRel(c: string, a: Artifacts, r: Rel) {
    && a.ontology.Some?
    && exists k, t ::
         && k in a.ontology.value.concepts && t in k.mapsTo && HasTable(a, t)
         && Spans(r, "DESCRIBES", "concept:" + c + ":" + k.name, "table:" + c + ":" + t, k.details)
  }

  ghost predicate DrawnLinkRel(c: string, a: Artifacts, r: Rel) {
    && a.ontology.Some?
    && exists l ::
         && l in a.ontology.value.links && HasConcept(a, l.subject) && HasConcept(a, l.objectName)
         && Spans(r, "SEMANTICALLY_RELATED_TO", "concept:" + c + ":" + l.subject, "concept:" + c + ":" + l.objectName,
                  l.details)
         && r.id == "rel:" + r.kind + ":" + r.source + "->" + r.target + ":" + l.kind
  }

  /** A relationship of the projection: its type, its ends and its id, read off the artifacts. */
  ghost predicate DrawnRel(org: string, c: string, a: Artifacts, r: Rel) {
    && r.org == org
    && (|| (IdFromEnds(r) && (|| DrawnTableRel(c, a, r) || DrawnColumnRel(c, a, r) || DrawnEdgeRel(c, a, r)
                              || DrawnMetricRel(c, a, r) || DrawnDescribesRel(c, a, r)))
        || DrawnLinkRel(c, a, r))
  }

  lemma NamesExactly(a: Artifacts)
    ensures forall x :: x in TableNames(a.tables) <==> HasTable(a, x)
    ensures forall x :: x in Members(a.tables) <==> HasMember(a, x)
    ensures forall x :: x in ConceptNames(Concepts(a)) <==> HasConcept(a, x)
  {
  }

  lemma TableNodesExactly(org: string, c: string, a: Artifacts, n: Node)
    ensures n in TableNodes(org, c, a.tables) <==>
            && n.org == org
            && (|| (exists t :: t in a.tables &&
                      NodeIs(n, "table:" + c + ":" + t.name, "Table", c, t.name, t.details))
                || (exists t, col :: t in a.tables && col in t.columns &&
                      NodeIs(n, "column:" + c + ":" + (t.name + "." + col.name), "Column", c, col.name, col.details)))
  {
    if t, col :| t in a.tables && col in t.columns && n.org == org &&
                 NodeIs(n, "column:" + c + ":" + (t.name + "." + col.name), "Column", c, col.name, col.details)
    {
      assert n == ColumnNode(org, c, t, col) && n in ColumnNodes(org, c, t, t.columns);
    }
    if t :| t in a.tables && n.org == org && NodeIs(n, "table:" + c + ":" + t.name, "Table", c, t.name, t.details) {
      assert n == TableNode(org, c, t);
    }
  }

  lemma NodesExactly(org: string, c: string, a: Artifacts, n: Node)
    ensures n in ProjectedNodes(org, c, a) <==> DrawnNode(org, c, a, n)
  {
    NamesExactly(a);
    TableNodesExactly(org, c, a, n);
    hide TableNodes, HasTable, HasMember, HasConcept, TableNames, Members;
    if m :| m in a.metrics && HasTable(a, m.table) && n.org == org &&
            NodeIs(n, "metric:" + c + ":" + m.name, "Metric", c, m.name, m.details)
    {
      assert n == MetricNode(org, c, m);
    }
    if a.ontology.Some? {
      if k :| k in a.ontology.value.concepts && n.org == org &&
              NodeIs(n, "concept:" + c + ":" + k.name, "Concept", c, k.name, k.details)
      {
        assert n == ConceptNode(org, c, k);
      }
    }
  }

  lemma TableRelsExactly(org: string, c: string, a: Artifacts, r: Rel)
    ensures r in TableRels(org, c, a.tables) <==>
            r.org == org && IdFromEnds(r) && (DrawnTableRel(c, a, r) || DrawnColumnRel(c, a, r))
  {
    if r in TableRels(org, c, a.tables) && !(exists t :: t in a.tables && r == TableRel(org, c, t)) {
      var t :| t in a.tables && r in ColumnRels(org, c, t, t.columns);
      var col :| col in t.columns && r == ColumnRel(org, c, t, col);
      assert DrawnColumnRel(c, a, r);
    }
    if r.org == org && IdFromEnds(r) && DrawnColumnRel(c, a, r) {
      var t, col :| t in a.tables && col in t.columns &&
        Spans(r, "HAS_COLUMN", "table:" + c + ":" + t.name, "column:" + c + ":" + (t.name + "." + col.name), "");
      assert r == ColumnRel(org, c, t, col) && r in ColumnRels(org, c, t, t.columns);
    }
    if r.org == org && IdFromEnds(r) && DrawnTableRel(c, a, r) {
      var t :| t in a.tables && Spans(r, "HAS_TABLE", "connection:" + c, "table:" + c + ":" + t.name, "");
      assert r == TableRel(org, c, t);
    }
  }

  lemma EdgeRelsExactly(org: string, c: string, a: Artifacts, r: Rel)
    ensures r in EdgeRels(org, c, Edges(a), Members(a.tables)) <==>
            r.org == org && IdFromEnds(r) && DrawnEdgeRel(c, a, r)
  {
    NamesExactly(a);
    hide HasMember, Members, HasTable, TableNames, HasConcept, ConceptNames;
    if r.org == org && IdFromEnds(r) && DrawnEdgeRel(c, a, r) {
      var e :| e in a.topology.value && HasMember(a, e.left) && HasMember(a, e.right) && e.left != e.right
        && Spans(r, if e.kind == "fk" then "REFERENCES" else "JOINS_WITH", "column:" + c + ":" + e.left,
                 "column:" + c + ":" + e.right, e.details);
      assert r == EdgeRel(org, c, e);
    }
  }

  lemma MetricRelsExactly(org: string, c: string, a: Artifacts, r: Rel)
    ensures r in MetricRels(org, c, a.metrics, TableNames(a.tables)) <==>
            r.org == org && IdFromEnds(r) && DrawnMetricRel(c, a, r)
  {
    NamesExactly(a);
    hide HasMember, Members, HasTable, TableNames, HasConcept, ConceptNames;
    if r.org == org && IdFromEnds(r) && DrawnMetricRel(c, a, r) {
      var m :| m in a.metrics && HasTable(a, m.table) &&
        Spans(r, "HAS_METRIC", "table:" + c + ":" + m.table, "metric:" + c + ":" + m.name, "");
      assert r == MetricRel(org, c, m);
    }
  }

  lemma DescribesRelsExactly(org: string, c: string, a: Artifacts, r: Rel)
    ensures r in DescribesRels(org, c, Concepts(a), TableNames(a.tables)) <==>
            r.org == org && IdFromEnds(r) && DrawnDescribesRel(c, a, r)
  {
    NamesExactly(a);
    hide HasMember, Members, HasTable, TableNames, HasConcept, ConceptNames;
    if r.org == org && IdFromEnds(r) && DrawnDescribesRel(c, a, r) {
      var k, t :| k in a.ontology.value.concepts && t in k.mapsTo && HasTable(a, t) &&
        Spans(r, "DESCRIBES", "concept:" + c + ":" + k.name, "table:" + c + ":" + t, k.details);
      assert r == DescribesRel(org, c, k, t);
    }
  }

  lemma LinkRelsExactly(org: string, c: string, a: Artifacts, r: Rel)
    ensures r in LinkRels(org, c, ConceptLinks(a), ConceptNames(Concepts(a))) <==>
            r.org == org && DrawnLinkRel(c, a, r)
  {
    NamesExactly(a);
    hide HasMember, Members, HasTable, TableNames, HasConcept, ConceptNames;
    if r.org == org && DrawnLinkRel(c, a, r) {
      var l :| l in a.ontology.value.links && HasConcept(a, l.subject) && HasConcept(a, l.objectName)
        && Spans(r, "SEMANTICALLY_RELATED_TO", "concept:" + c + ":" + l.subject, "concept:" + c + ":" + l.objectName,
                 l.details)
        && r.id == "rel:" + r.kind + ":" + r.source + "->" + r.target + ":" + l.kind;
      assert r == LinkRel(org, c, l);
    }
  }

  lemma RelsExactly(org: string, c: string, a: Artifacts, r: Rel)
    ensures r in ProjectedRels(org, c, a) <==> DrawnRel(org, c, a, r)
  {
    TableRelsExactly(org, c, a, r);
    EdgeRelsExactly(org, c, a, r);
    MetricRelsExactly(org, c, a, r);
    DescribesRelsExactly(org, c, a, r);
    LinkRelsExactly(org, c, a, r);
    hide TableRels, EdgeRels, MetricRels, DescribesRels, LinkRels, IdFromEnds, DrawnTableRel, DrawnColumnRel,
         DrawnEdgeRel, DrawnMetricRel, DrawnDescribesRel, DrawnLinkRel, TableNames, Members, ConceptNames;
  }

  /** The sets that a draft is compared with hold exactly what the artifacts call for. */
  lemma ProjectionExactly(org: string, c: string, a: Artifacts)
    ensures forall n :: n in ProjectedNodes(org, c, a) <==> DrawnNode(org, c, a, n)
    ensures forall r :: r in ProjectedRels(org, c, a) <==> DrawnRel(org, c, a, r)
  {
    forall n ensures n in ProjectedNodes(org, c, a) <==> DrawnNode(org, c, a, n) { NodesExactly(org, c, a, n); }
    forall r ensures r in ProjectedRels(org, c, a) <==> DrawnRel(org, c, a, r) { RelsExactly(org, c, a, r); }
  }

  // ---- How many relationships the artifacts call for, repetitions included ----

  function Tally<T>(xs: seq<T>, p: T -> bool): nat {
    if |xs| == 0 then 0 else Tally(xs[..|xs| - 1], p) + if p(xs[|xs| - 1]) then 1 else 0
  }

  lemma TallyNext<T>(xs: seq<T>, i: nat, p: T -> bool)
    requires i < |xs|
    ensures Tally(xs[..i + 1], p) == Tally(xs[..i], p) + if p(xs[i]) then 1 else 0
  {
    assert xs[..i + 1][..i] == xs[..i];
  }

  lemma {:induction false} TallyAppends<T>(xs: seq<T>, ys: seq<T>, p: T -> bool)
    ensures Tally(xs + ys, p) == Tally(xs, p) + Tally(ys, p)
  {
    if |ys| == 0 {
      assert xs + ys == xs;
    } else {
      TallyAppends(xs, ys[..|ys| - 1], p);
      assert (xs + ys)[..|xs + ys| - 1] == xs + ys[..|ys| - 1];
    }
  }

  lemma TallyWithout<T>(xs: seq<T>, i: nat, p: T -> bool)
    requires i < |xs|
    ensures Tally(xs, p) == Tally(xs[..i] + xs[i + 1..], p) + if p(xs[i]) then 1 else 0
  {
    hide Tally;
    TallyAppends(xs[..i + 1], xs[i + 1..], p);
    TallyNext(xs, i, p);
    TallyAppends(xs[..i], xs[i + 1..], p);
    assert xs[..i + 1] + xs[i + 1..] == xs;
  }

  lemma MultisetWithout<T>(xs: seq<T>, i: nat)
    requires i < |xs|
    ensures multiset(xs[..i] + xs[i + 1..]) == multiset(xs) - multiset{xs[i]}
  {
    assert xs == xs[..i] + [xs[i]] + xs[i + 1..];
  }

  lemma {:induction false} TallySame<T>(xs: seq<T>, ys: seq<T>, p: T -> bool)
    requires multiset(xs) == multiset(ys)
    ensures Tally(xs, p) == Tally(ys, p)
    decreases |xs|
  {
    assert |xs| == |multiset(xs)| && |ys| == |multiset(ys)|;
    if |xs| > 0 {
      hide Tally;
      assert xs[0] in multiset(ys);
      var i :| 0 <= i < |ys| && ys[i] == xs[0];
      MultisetWithout(xs, 0);
      MultisetWithout(ys, i);
      TallySame(xs[..0] + xs[1..], ys[..i] + ys[i + 1..], p);
      TallyWithout(xs, 0, p);
      TallyWithout(ys, i, p);
    }
  }

  lemma {:induction false} TallyAll<T>(xs: seq<T>, p: T -> bool, all: bool)
    requires forall x | x in xs :: p(x) == all
    ensures Tally(xs, p) == if all then |xs| else 0
  {
    if |xs| > 0 { TallyAll(xs[..|xs| - 1], p, all); }
  }

  function Sum<T>(xs: seq<T>, f: T -> nat): nat {
    if |xs| == 0 then 0 else Sum(xs[..|xs| - 1], f) + f(xs[|xs| - 1])
  }

  lemma SumNext<T>(xs: seq<T>, i: nat, f: T -> nat)
    requires i < |xs|
    ensures Sum(xs[..i + 1], f) == Sum(xs[..i], f) + f(xs[i])
  {
    assert xs[..i + 1][..i] == xs[..i];
  }

  function TableTally(tables: seq<Table>): nat {
    Sum(tables, (t: Table) => 1 + |t.columns|)
  }

  function EdgeTally(edges: seq<JoinEdge>, members: set<string>): nat {
    Tally(edges, (e: JoinEdge) => e.left in members && e.right in members && e.left != e.right)
  }

  function MetricTally(metrics: seq<Metric>, tables: set<string>): nat {
    Tally(metrics, (m: Metric) => m.table in tables)
  }

  function DescribesTally(concepts: seq<Concept>, tables: set<string>): nat {
    Sum(concepts, (k: Concept) => Tally(k.mapsTo, t => t in tables))
  }

  function LinkTally(links: seq<ConceptLink>, names: set<string>): nat {
    Tally(links, (l: ConceptLink) => l.subject in names && l.objectName in names)
  }

  function RelTally(a: Artifacts): nat {
    TableTally(a.tables) + EdgeTally(Edges(a), Members(a.tables)) + MetricTally(a.metrics, TableNames(a.tables))
    + DescribesTally(Concepts(a), TableNames(a.tables)) + LinkTally(ConceptLinks(a), ConceptNames(Concepts(a)))
  }

  // ---- Drafting the projection ----

  /** The drafted dictionary and list hold these nodes (one per id) and these relationships. */
  ghost predicate Drafted(nodes: map<string, Node>, rels: seq<Rel>, ns: set<Node>, rs: set<Rel>) {
    && nodes.Keys == NodeIds(ns)
    && (forall id | id in nodes :: nodes[id] in ns && nodes[id].id == id)
    && (set r | r in rels) == rs
  }

  lemma DraftNode(nodes: map<string, Node>, rels: seq<Rel>, ns: set<Node>, rs: set<Rel>, n: Node)
    requires Drafted(nodes, rels, ns, rs)
    ensures Drafted(nodes[n.id := n], rels, ns + {n}, rs)
  {
  }

  lemma DraftRel(nodes: map<string, Node>, rels: seq<Rel>, ns: set<Node>, rs: set<Rel>, r: Rel)
    requires Drafted(nodes, rels, ns, rs)
    ensures Drafted(nodes, rels + [r], ns, rs + {r})
  {
  }

  method DraftColumns(org: string, c: string, t: Table, nodes0: map<string, Node>, rels0: seq<Rel>, ghost ns: set<Node>,
                      ghost rs: set<Rel>)
    returns (nodes: map<string, Node>, rels: seq<Rel>)
    requires Drafted(nodes0, rels0, ns, rs)
    ensures Drafted(nodes, rels, ns + ColumnNodes(org, c, t, t.columns), rs + ColumnRels(org, c, t, t.columns))
    ensures |rels| == |rels0| + |t.columns|
  {
    nodes, rels := nodes0, rels0;
    for j := 0 to |t.columns|
      invariant |rels| == |rels0| + j
      invariant Drafted(nodes, rels, ns + ColumnNodes(org, c, t, t.columns[..j]),
                rs + ColumnRels(org, c, t, t.columns[..j]))
    {
      hide Drafted, ColumnNode, ColumnRel;
      var col := t.columns[j];
      var node, rel := ColumnNode(org, c, t, col), ColumnRel(org, c, t, col);
      ghost var ns', rs' := ns + ColumnNodes(org, c, t, t.columns[..j]), rs + ColumnRels(org, c, t, t.columns[..j]);
      DraftNode(nodes, rels, ns', rs', node);
      nodes := nodes[node.id := node];
      DraftRel(nodes, rels, ns' + {node}, rs', rel);
      rels := rels + [rel];
      assert t.columns[..j + 1] == t.columns[..j] + [col];
      assert ns' + {node} == ns + ColumnNodes(org, c, t, t.columns[..j + 1]);
      assert rs' + {rel} == rs + ColumnRels(org, c, t, t.columns[..j + 1]);
    }
    assert t.columns[..|t.columns|] == t.columns;
  }

  lemma TablesExtend(org: string, c: string, ts: seq<Table>, i: nat, ns: set<Node>)
    requires i < |ts|
    ensures ns + TableNodes(org, c, ts[..i + 1]) ==
            ns + TableNodes(org, c, ts[..i]) + {TableNode(org, c, ts[i])} + ColumnNodes(org, c, ts[i], ts[i].columns)
    ensures TableRels(org, c, ts[..i + 1]) ==
            TableRels(org, c, ts[..i]) + {TableRel(org, c, ts[i])} + ColumnRels(org, c, ts[i], ts[i].columns)
  {
  }

  method DraftTables(org: string, c: string, tables: seq<Table>) returns (nodes: map<string, Node>, rels: seq<Rel>)
    ensures Drafted(nodes, rels, {ConnectionNode(org, c)} + TableNodes(org, c, tables), TableRels(org, c, tables))
    ensures |rels| == TableTally(tables)
  {
    nodes, rels := map[ConnectionId(c) := ConnectionNode(org, c)], [];
    ghost var start := {ConnectionNode(org, c)};
    assert Drafted(nodes, rels, start + TableNodes(org, c, []), TableRels(org, c, []));
    for i := 0 to |tables|
      invariant Drafted(nodes, rels, start + TableNodes(org, c, tables[..i]), TableRels(org, c, tables[..i]))
      invariant |rels| == TableTally(tables[..i])
    {
      SumNext(tables, i, (t: Table) => 1 + |t.columns|);
      hide Drafted, TableNode, TableRel, ColumnNodes, ColumnRels, TableNodes, TableRels;
      var t := tables[i];
      var node, rel := TableNode(org, c, t), TableRel(org, c, t);
      ghost var ns, rs := start + TableNodes(org, c, tables[..i]), TableRels(org, c, tables[..i]);
      DraftNode(nodes, rels, ns, rs, node);
      nodes := nodes[node.id := node];
      DraftRel(nodes, rels, ns + {node}, rs, rel);
      rels := rels + [rel];
      nodes, rels := DraftColumns(org, c, t, nodes, rels, ns + {node}, rs + {rel});
      TablesExtend(org, c, tables, i, start);
    }
    assert tables[..|tables|] == tables;
  }

  // ---- Which ids a draft holds ----

  ghost predicate BaseIds(c: string, tables: seq<Table>, ids: set<string>) {
    && (forall t :: TableId(c, t) in ids <==> t in TableNames(tables))
    && (forall m :: ColumnId(c, m) in ids <==> m in Members(tables))
  }

  lemma AfterPrefix(p: string, x: string, y: string)
    ensures p + x == p + y ==> x == y
  {
    assert (p + x)[|p|..] == x && (p + y)[|p|..] == y;
  }

  lemma IdKindsDiffer(c: string, x: string, y: string)
    ensures TableId(c, x) != ColumnId(c, y) && TableId(c, x) != MetricId(c, y) && TableId(c, x) != ConceptId(c, y)
            && TableId(c, x) != ConnectionId(c)
    ensures ColumnId(c, x) != MetricId(c, y) && ColumnId(c, x) != ConceptId(c, y) && ColumnId(c, x) != ConnectionId(c)
  {
    assert TableId(c, x)[0] == 't' && ColumnId(c, y)[0] == 'c' && MetricId(c, y)[0] == 'm' && ConceptId(c, y)[0] == 'c';
    assert ColumnId(c, x)[2] == 'l' && ConceptId(c, y)[2] == 'n' && ConnectionId(c)[2] == 'n'
           && ConnectionId(c)[0] == 'c' && MetricId(c, y)[2] == 't';
  }

  lemma IdsInjective(c: string)
    ensures forall x, y :: TableId(c, x) == TableId(c, y) ==> x == y
    ensures forall x, y :: ColumnId(c, x) == ColumnId(c, y) ==> x == y
    ensures forall x, y ::
              TableId(c, x) != ColumnId(c, y) && TableId(c, x) != MetricId(c, y) && TableId(c, x) != ConceptId(c, y)
    ensures forall x, y :: ColumnId(c, x) != MetricId(c, y) && ColumnId(c, x) != ConceptId(c, y)
    ensures forall x :: TableId(c, x) != ConnectionId(c) && ColumnId(c, x) != ConnectionId(c)
  {
    forall x, y ensures TableId(c, x) == TableId(c, y) ==> x == y { AfterPrefix("table:" + c + ":", x, y); }
    forall x, y ensures ColumnId(c, x) == ColumnId(c, y) ==> x == y { AfterPrefix("column:" + c + ":", x, y); }
    forall x, y ensures TableId(c, x) != ColumnId(c, y) { IdKindsDiffer(c, x, y); }
    forall x, y ensures TableId(c, x) != MetricId(c, y) { IdKindsDiffer(c, x, y); }
    forall x, y ensures TableId(c, x) != ConceptId(c, y) { IdKindsDiffer(c, x, y); }
    forall x, y ensures ColumnId(c, x) != MetricId(c, y) { IdKindsDiffer(c, x, y); }
    forall x, y ensures ColumnId(c, x) != ConceptId(c, y) { IdKindsDiffer(c, x, y); }
    forall x ensures TableId(c, x) != ConnectionId(c) && ColumnId(c, x) != ConnectionId(c) { IdKindsDiffer(c, x, x); }
  }

  ghost function TableDraftIdSet(c: string, tables: seq<Table>): set<string> {
    {ConnectionId(c)} + (set x | x in TableNames(tables) :: TableId(c, x)) +
      (set m | m in Members(tables) :: ColumnId(c, m))
  }

  lemma TableDraftIdsFormed(org: string, c: string, tables: seq<Table>)
    ensures NodeIds({ConnectionNode(org, c)} + TableNodes(org, c, tables)) == TableDraftIdSet(c, tables)
  {
    hide TableId, ColumnId, ConnectionId;
    var ns := {ConnectionNode(org, c)} + TableNodes(org, c, tables);
    forall n | n in ns ensures n.id in TableDraftIdSet(c, tables) {
      if n in TableNodes(org, c, tables) && !(exists t | t in tables :: n == TableNode(org, c, t)) {
        var t :| t in tables && n in ColumnNodes(org, c, t, t.columns);
        var col :| col in t.columns && n == ColumnNode(org, c, t, col);
        assert t.name + "." + col.name in Members(tables);
      }
    }
    forall x | x in TableNames(tables) ensures TableId(c, x) in NodeIds(ns) {
      var t :| t in tables && t.name == x;
      assert TableNode(org, c, t) in ns;
    }
    forall x | x in Members(tables) ensures ColumnId(c, x) in NodeIds(ns) {
      var t, col :| t in tables && col in t.columns && t.name + "." + col.name == x;
      assert ColumnNode(org, c, t, col) in ColumnNodes(org, c, t, t.columns);
      assert ColumnNode(org, c, t, col) in ns;
    }
  }

  lemma TableDraftIds(org: string, c: string, tables: seq<Table>)
    ensures BaseIds(c, tables, NodeIds({ConnectionNode(org, c)} + TableNodes(org, c, tables)))
  {
    hide TableId, ColumnId, ConnectionId, NodeIds, TableNames, Members;
    TableDraftIdsFormed(org, c, tables);
    IdsInjective(c);
  }

  /** Metric and concept ids do not disturb which tables and columns a draft holds. */
  lemma StillBaseIds(org: string, c: string, tables: seq<Table>, ids: set<string>, n: Node)
    requires BaseIds(c, tables, ids)
    requires (exists m :: n.id == MetricId(c, m)) || (exists k :: n.id == ConceptId(c, k))
    ensures BaseIds(c, tables, ids + {n.id})
  {
    IdsInjective(c);
    hide TableId, ColumnId, MetricId, ConceptId, TableNames, Members;
  }

  // ---- Drafting the rest ----

  lemma EdgesExtend(org: string, c: string, edges: seq<JoinEdge>, i: nat, members: set<string>, rs: set<Rel>)
    requires i < |edges|
    ensures var e := edges[i];
            rs + EdgeRels(org, c, edges[..i + 1], members) == rs + EdgeRels(org, c, edges[..i], members) +
              if e.left in members && e.right in members && e.left != e.right then {EdgeRel(org, c, e)} else {}
  {
  }

  method DraftEdges(org: string, c: string, edges: seq<JoinEdge>, nodes: map<string, Node>, rels0: seq<Rel>,
                    ghost tables: seq<Table>, ghost ns: set<Node>, ghost rs: set<Rel>)
    returns (rels: seq<Rel>)
    requires Drafted(nodes, rels0, ns, rs) && BaseIds(c, tables, nodes.Keys)
    ensures Drafted(nodes, rels, ns, rs + EdgeRels(org, c, edges, Members(tables)))
    ensures |rels| == |rels0| + EdgeTally(edges, Members(tables))
  {
    rels := rels0;
    ghost var members := Members(tables);
    IdsInjective(c);
    for i := 0 to |edges|
      invariant Drafted(nodes, rels, ns, rs + EdgeRels(org, c, edges[..i], members))
      invariant |rels| == |rels0| + EdgeTally(edges[..i], members)
    {
      TallyNext(edges, i, (e: JoinEdge) => e.left in members && e.right in members && e.left != e.right);
      hide Drafted, EdgeRel, EdgeRels, ColumnId, TableId, Members, TableNames;
      var e := edges[i];
      var sourceId, targetId := ColumnId(c, e.left), ColumnId(c, e.right);
      ghost var rs' := rs + EdgeRels(org, c, edges[..i], members);
      EdgesExtend(org, c, edges, i, members, rs);
      if sourceId !in nodes || targetId !in nodes || sourceId == targetId {
        assert rs' + {} == rs';
      } else {
        DraftRel(nodes, rels, ns, rs', EdgeRel(org, c, e));
        rels := rels + [EdgeRel(org, c, e)];
      }
    }
    assert edges[..|edges|] == edges;
  }

  /** `metrics_by_table`: one group per table, in order of first appearance. */
  function Grouped(metrics: seq<Metric>): (groups: seq<(string, seq<Metric>)>)
    ensures ByTable(groups)
    ensures multiset(Ungrouped(groups)) == multiset(metrics)
  {
    if |metrics| == 0 then [] else
      assert metrics == metrics[..|metrics| - 1] + [metrics[|metrics| - 1]];
      AddToGroup(Grouped(metrics[..|metrics| - 1]), metrics[|metrics| - 1])
  }

  function AddToGroup(groups: seq<(string, seq<Metric>)>, m: Metric): (out: seq<(string, seq<Metric>)>)
    ensures ByTable(groups) ==> ByTable(out)
    ensures multiset(Ungrouped(out)) == multiset(Ungrouped(groups)) + multiset{m}
  {
    if |groups| == 0 then [(m.table, [m])]
    else if groups[0].0 == m.table then [(m.table, groups[0].1 + [m])] + groups[1..]
    else [groups[0]] + AddToGroup(groups[1..], m)
  }

  function Ungrouped(groups: seq<(string, seq<Metric>)>): seq<Metric> {
    if |groups| == 0 then [] else groups[0].1 + Ungrouped(groups[1..])
  }

  ghost predicate ByTable(groups: seq<(string, seq<Metric>)>) {
    forall g | g in groups :: forall m | m in g.1 :: m.table == g.0
  }

  lemma {:induction false} UngroupedSnoc(groups: seq<(string, seq<Metric>)>, g: (string, seq<Metric>))
    ensures Ungrouped(groups + [g]) == Ungrouped(groups) + g.1
  {
    if |groups| == 0 {
      assert groups + [g] == [g];
    } else {
      assert (groups + [g])[1..] == groups[1..] + [g];
      UngroupedSnoc(groups[1..], g);
    }
  }

  lemma MetricsExtend(org: string, c: string, ms: seq<Metric>, j: nat, names: set<string>, ns: set<Node>, rs: set<Rel>)
    requires j < |ms| && ms[j].table in names
    ensures ns + MetricNodes(org, c, ms[..j], names) + {MetricNode(org, c, ms[j])} ==
            ns + MetricNodes(org, c, ms[..j + 1], names)
    ensures rs + MetricRels(org, c, ms[..j], names) + {MetricRel(org, c, ms[j])} ==
            rs + MetricRels(org, c, ms[..j + 1], names)
  {
  }

  method DraftMetric(org: string, c: string, m: Metric, nodes0: map<string, Node>, rels0: seq<Rel>,
                     ghost tables: seq<Table>, ghost ns: set<Node>, ghost rs: set<Rel>)
    returns (nodes: map<string, Node>, rels: seq<Rel>)
    requires Drafted(nodes0, rels0, ns, rs) && BaseIds(c, tables, nodes0.Keys)
    ensures Drafted(nodes, rels, ns + {MetricNode(org, c, m)}, rs + {MetricRel(org, c, m)})
    ensures BaseIds(c, tables, nodes.Keys) && |rels| == |rels0| + 1
  {
    hide Drafted, BaseIds, TableNames, MetricId, TableId;
    var node, rel := MetricNode(org, c, m), MetricRel(org, c, m);
    StillBaseIds(org, c, tables, nodes0.Keys, node);
    assert nodes0[node.id := node].Keys == nodes0.Keys + {node.id};
    DraftNode(nodes0, rels0, ns, rs, node);
    nodes := nodes0[node.id := node];
    DraftRel(nodes, rels0, ns + {node}, rs, rel);
    rels := rels0 + [rel];
  }

  method DraftTableMetrics(org: string, c: string, ms: seq<Metric>, nodes0: map<string, Node>, rels0: seq<Rel>,
                           ghost tables: seq<Table>, ghost ns: set<Node>, ghost rs: set<Rel>)
    returns (nodes: map<string, Node>, rels: seq<Rel>)
    requires forall m | m in ms :: m.table in TableNames(tables)
    requires Drafted(nodes0, rels0, ns, rs) && BaseIds(c, tables, nodes0.Keys)
    ensures Drafted(nodes, rels, ns + MetricNodes(org, c, ms, TableNames(tables)),
            rs + MetricRels(org, c, ms, TableNames(tables)))
    ensures BaseIds(c, tables, nodes.Keys) && |rels| == |rels0| + |ms|
  {
    nodes, rels := nodes0, rels0;
    ghost var names := TableNames(tables);
    assert ns + MetricNodes(org, c, [], names) == ns && rs + MetricRels(org, c, [], names) == rs;
    hide Drafted, BaseIds, TableNames, MetricNode, MetricRel, MetricNodes, MetricRels;
    for j := 0 to |ms|
      invariant Drafted(nodes, rels, ns + MetricNodes(org, c, ms[..j], names), rs + MetricRels(org, c, ms[..j], names))
      invariant BaseIds(c, tables, nodes.Keys) && |rels| == |rels0| + j
    {
      assert ms[j] in ms;
      ghost var ns', rs' := ns + MetricNodes(org, c, ms[..j], names), rs + MetricRels(org, c, ms[..j], names);
      MetricsExtend(org, c, ms, j, names, ns, rs);
      nodes, rels := DraftMetric(org, c, ms[j], nodes, rels, tables, ns', rs');
    }
    assert ms[..|ms|] == ms;
  }

  method DraftMetrics(org: string, c: string, metrics: seq<Metric>, nodes0: map<string, Node>, rels0: seq<Rel>,
                      ghost tables: seq<Table>, ghost ns: set<Node>, ghost rs: set<Rel>)
    returns (nodes: map<string, Node>, rels: seq<Rel>)
    requires Drafted(nodes0, rels0, ns, rs) && BaseIds(c, tables, nodes0.Keys)
    ensures Drafted(nodes, rels, ns + MetricNodes(org, c, metrics, TableNames(tables)),
            rs + MetricRels(org, c, metrics, TableNames(tables)))
    ensures BaseIds(c, tables, nodes.Keys) && |rels| == |rels0| + MetricTally(metrics, TableNames(tables))
  {
    hide Drafted, TableNames, MetricNodes, MetricRels, BaseIds, Grouped, TableId;
    var groups := Grouped(metrics);
    ghost var names := TableNames(tables);
    nodes, rels := nodes0, rels0;
    ghost var done: seq<Metric> := [];
    NoMetrics(org, c, done, names);
    assert ns + MetricNodes(org, c, done, names) == ns && rs + MetricRels(org, c, done, names) == rs;
    for i := 0 to |groups|
      invariant done == Ungrouped(groups[..i])
      invariant Drafted(nodes, rels, ns + MetricNodes(org, c, done, names), rs + MetricRels(org, c, done, names))
      invariant BaseIds(c, tables, nodes.Keys) && |rels| == |rels0| + MetricTally(done, names)
    {
      hide Ungrouped;
      var (table, ms) := groups[i];
      TallyAppends(done, ms, (m: Metric) => m.table in names);
      TallyAll(ms, (m: Metric) => m.table in names, table in names);
      assert groups[i] in groups;
      assert groups[..i + 1] == groups[..i] + [groups[i]];
      UngroupedSnoc(groups[..i], groups[i]);
      MetricsAppend(org, c, done, ms, names, ns, rs);
      ghost var ns', rs' := ns + MetricNodes(org, c, done, names), rs + MetricRels(org, c, done, names);
      BaseTable(c, tables, nodes.Keys, table);
      if TableId(c, table) in nodes {
        nodes, rels := DraftTableMetrics(org, c, ms, nodes, rels, tables, ns', rs');
      } else {
        NoMetrics(org, c, ms, names);
        assert ns' + {} == ns' && rs' + {} == rs';
      }
      done := done + ms;
    }
    assert groups[..|groups|] == groups;
    Sorting.Rearranged(done, metrics);
    SameMetrics(org, c, done, metrics, names);
    TallySame(done, metrics, (m: Metric) => m.table in names);
  }

  lemma BaseTable(c: string, tables: seq<Table>, ids: set<string>, table: string)
    requires BaseIds(c, tables, ids)
    ensures TableId(c, table) in ids <==> table in TableNames(tables)
  {
  }

  lemma MetricsAppend(org: string, c: string, ms: seq<Metric>, more: seq<Metric>, tables: set<string>, ns: set<Node>,
                      rs: set<Rel>)
    ensures ns + MetricNodes(org, c, ms + more, tables) ==
            ns + MetricNodes(org, c, ms, tables) + MetricNodes(org, c, more, tables)
    ensures rs + MetricRels(org, c, ms + more, tables) ==
            rs + MetricRels(org, c, ms, tables) + MetricRels(org, c, more, tables)
  {
  }

  lemma NoMetrics(org: string, c: string, ms: seq<Metric>, tables: set<string>)
    requires forall m | m in ms :: m.table !in tables
    ensures MetricNodes(org, c, ms, tables) == {} && MetricRels(org, c, ms, tables) == {}
  {
  }

  lemma SameMetrics(org: string, c: string, ms: seq<Metric>, others: seq<Metric>, tables: set<string>)
    requires forall m :: m in ms <==> m in others
    ensures MetricNodes(org, c, ms, tables) == MetricNodes(org, c, others, tables)
    ensures MetricRels(org, c, ms, tables) == MetricRels(org, c, others, tables)
  {
  }

  ghost function DescribesOf(org: string, c: string, k: Concept, mapped: seq<string>, tables: set<string>): set<Rel> {
    set t | t in mapped && t in tables :: DescribesRel(org, c, k, t)
  }

  lemma DescribesExtend(org: string, c: string, k: Concept, j: nat, tables: set<string>, rs: set<Rel>)
    requires j < |k.mapsTo|
    ensures rs + DescribesOf(org, c, k, k.mapsTo[..j + 1], tables) ==
            rs + DescribesOf(org, c, k, k.mapsTo[..j], tables) +
            if k.mapsTo[j] in tables then {DescribesRel(org, c, k, k.mapsTo[j])} else {}
  {
    assert k.mapsTo[..j + 1] == k.mapsTo[..j] + [k.mapsTo[j]];
  }

  lemma DescribesOfOne(org: string, c: string, k: Concept, tables: set<string>)
    ensures DescribesRels(org, c, [k], tables) == DescribesOf(org, c, k, k.mapsTo, tables)
  {
  }

  method DraftDescribes(org: string, c: string, k: Concept, nodes: map<string, Node>, rels0: seq<Rel>,
                        ghost tables: seq<Table>, ghost ns: set<Node>, ghost rs: set<Rel>)
    returns (rels: seq<Rel>)
    requires Drafted(nodes, rels0, ns, rs) && BaseIds(c, tables, nodes.Keys)
    ensures Drafted(nodes, rels, ns, rs + DescribesRels(org, c, [k], TableNames(tables)))
    ensures |rels| == |rels0| + Tally(k.mapsTo, t => t in TableNames(tables))
  {
    rels := rels0;
    ghost var names := TableNames(tables);
    for j := 0 to |k.mapsTo|
      invariant Drafted(nodes, rels, ns, rs + DescribesOf(org, c, k, k.mapsTo[..j], names))
      invariant |rels| == |rels0| + Tally(k.mapsTo[..j], t => t in names)
    {
      hide Drafted, TableNames, DescribesRel, DescribesOf, Tally, BaseIds, TableId;
      var t := k.mapsTo[j];
      BaseTable(c, tables, nodes.Keys, t);
      TallyNext(k.mapsTo, j, t => t in names);
      DescribesExtend(org, c, k, j, names, rs);
      ghost var rs' := rs + DescribesOf(org, c, k, k.mapsTo[..j], names);
      if TableId(c, t) in nodes {
        DraftRel(nodes, rels, ns, rs', DescribesRel(org, c, k, t));
        rels := rels + [DescribesRel(org, c, k, t)];
      } else {
        assert rs' + {} == rs';
      }
    }
    assert k.mapsTo[..|k.mapsTo|] == k.mapsTo;
    DescribesOfOne(org, c, k, names);
  }

  lemma ConceptsExtend(org: string, c: string, ks: seq<Concept>, i: nat, names: set<string>, ns: set<Node>,
                       rs: set<Rel>)
    requires i < |ks|
    ensures ns + ConceptNodes(org, c, ks[..i + 1]) == ns + ConceptNodes(org, c, ks[..i]) + {ConceptNode(org, c, ks[i])}
    ensures rs + DescribesRels(org, c, ks[..i + 1], names) ==
            rs + DescribesRels(org, c, ks[..i], names) + DescribesRels(org, c, [ks[i]], names)
    ensures ConceptNames(ks[..i + 1]) == ConceptNames(ks[..i]) + {ks[i].name}
  {
  }

  method DraftConcept(org: string, c: string, k: Concept, nodes0: map<string, Node>, rels0: seq<Rel>,
                      ghost tables: seq<Table>, ghost ns: set<Node>, ghost rs: set<Rel>)
    returns (nodes: map<string, Node>, rels: seq<Rel>)
    requires Drafted(nodes0, rels0, ns, rs) && BaseIds(c, tables, nodes0.Keys)
    ensures Drafted(nodes, rels, ns + {ConceptNode(org, c, k)}, rs + DescribesRels(org, c, [k], TableNames(tables)))
    ensures BaseIds(c, tables, nodes.Keys)
    ensures |rels| == |rels0| + Tally(k.mapsTo, t => t in TableNames(tables))
  {
    hide Drafted, BaseIds, TableNames, ConceptId, DescribesRels;
    var node := ConceptNode(org, c, k);
    StillBaseIds(org, c, tables, nodes0.Keys, node);
    assert nodes0[node.id := node].Keys == nodes0.Keys + {node.id};
    DraftNode(nodes0, rels0, ns, rs, node);
    nodes := nodes0[node.id := node];
    rels := DraftDescribes(org, c, k, nodes, rels0, tables, ns + {node}, rs);
  }

  method DraftConcepts(org: string, c: string, concepts: seq<Concept>, nodes0: map<string, Node>, rels0: seq<Rel>,
                       ghost tables: seq<Table>, ghost ns: set<Node>, ghost rs: set<Rel>)
    returns (nodes: map<string, Node>, rels: seq<Rel>, conceptIds: map<string, string>)
    requires Drafted(nodes0, rels0, ns, rs) && BaseIds(c, tables, nodes0.Keys)
    ensures Drafted(nodes, rels, ns + ConceptNodes(org, c, concepts),
            rs + DescribesRels(org, c, concepts, TableNames(tables)))
    ensures |rels| == |rels0| + DescribesTally(concepts, TableNames(tables))
    ensures conceptIds.Keys == ConceptNames(concepts) && forall n | n in conceptIds :: conceptIds[n] == ConceptId(c, n)
  {
    nodes, rels, conceptIds := nodes0, rels0, map[];
    ghost var names := TableNames(tables);
    for i := 0 to |concepts|
      invariant Drafted(nodes, rels, ns + ConceptNodes(org, c, concepts[..i]),
                rs + DescribesRels(org, c, concepts[..i], names))
      invariant BaseIds(c, tables, nodes.Keys)
      invariant conceptIds.Keys == ConceptNames(concepts[..i]) && forall n | n in conceptIds ::
                conceptIds[n] == ConceptId(c, n)
      invariant |rels| == |rels0| + DescribesTally(concepts[..i], names)
    {
      SumNext(concepts, i, (k: Concept) => Tally(k.mapsTo, t => t in names));
      hide Drafted, BaseIds, TableNames, ConceptId, ConceptNode, ConceptNodes, DescribesRels, ConceptNames;
      var k := concepts[i];
      ghost var ns', rs' := ns + ConceptNodes(org, c, concepts[..i]), rs + DescribesRels(org, c, concepts[..i], names);
      ConceptsExtend(org, c, concepts, i, names, ns, rs);
      conceptIds := conceptIds[k.name := ConceptId(c, k.name)];
      assert conceptIds.Keys == ConceptNames(concepts[..i + 1]);
      nodes, rels := DraftConcept(org, c, k, nodes, rels, tables, ns', rs');
    }
    assert concepts[..|concepts|] == concepts;
  }

  method DraftLinks(org: string, c: string, links: seq<ConceptLink>, conceptIds: map<string, string>,
                    ghost nodes: map<string, Node>, rels0: seq<Rel>, ghost ns: set<Node>, ghost rs: set<Rel>)
    returns (rels: seq<Rel>)
    requires Drafted(nodes, rels0, ns, rs) && forall n | n in conceptIds :: conceptIds[n] == ConceptId(c, n)
    ensures Drafted(nodes, rels, ns, rs + LinkRels(org, c, links, conceptIds.Keys))
    ensures |rels| == |rels0| + LinkTally(links, conceptIds.Keys)
  {
    rels := rels0;
    for i := 0 to |links|
      invariant Drafted(nodes, rels, ns, rs + LinkRels(org, c, links[..i], conceptIds.Keys))
      invariant |rels| == |rels0| + LinkTally(links[..i], conceptIds.Keys)
    {
      TallyNext(links, i, (l: ConceptLink) => l.subject in conceptIds.Keys && l.objectName in conceptIds.Keys);
      hide Drafted, LinkRel;
      var l := links[i];
      assert links[..i + 1] == links[..i] + [l];
      ghost var rs' := rs + LinkRels(org, c, links[..i], conceptIds.Keys);
      if l.subject in conceptIds && l.objectName in conceptIds {
        DraftRel(nodes, rels, ns, rs', LinkRel(org, c, l));
        rels := rels + [LinkRel(org, c, l)];
        assert rs' + {LinkRel(org, c, l)} == rs + LinkRels(org, c, links[..i + 1], conceptIds.Keys);
      } else {
        assert rs' == rs + LinkRels(org, c, links[..i + 1], conceptIds.Keys);
      }
    }
    assert links[..|links|] == links;
  }

  /** The dictionary of nodes and the list of relationships that one build writes. */
  method Draft(org: string, c: string, a: Artifacts) returns (nodes: map<string, Node>, rels: seq<Rel>)
    ensures Drafted(nodes, rels, ProjectedNodes(org, c, a), ProjectedRels(org, c, a)) && |rels| == RelTally(a)
    ensures forall n | DrawnNode(org, c, a, n) :: n.id in nodes && DrawnNode(org, c, a, nodes[n.id])
    ensures forall id | id in nodes :: DrawnNode(org, c, a, nodes[id]) && nodes[id].id == id
    ensures forall r :: r in rels <==> DrawnRel(org, c, a, r)
  {
    ghost var ns, rs := {ConnectionNode(org, c)} + TableNodes(org, c, a.tables), TableRels(org, c, a.tables);
    nodes, rels := DraftTables(org, c, a.tables);
    TableDraftIds(org, c, a.tables);
    hide BaseIds, TableNodes, TableRels, ConnectionNode, EdgeRels, MetricNodes, MetricRels, ConceptNodes,
         DescribesRels, LinkRels, ConceptNames;
    rels := DraftEdges(org, c, Edges(a), nodes, rels, a.tables, ns, rs);
    rs := rs + EdgeRels(org, c, Edges(a), Members(a.tables));
    nodes, rels := DraftMetrics(org, c, a.metrics, nodes, rels, a.tables, ns, rs);
    ns := ns + MetricNodes(org, c, a.metrics, TableNames(a.tables));
    rs := rs + MetricRels(org, c, a.metrics, TableNames(a.tables));
    var conceptIds;
    nodes, rels, conceptIds := DraftConcepts(org, c, Concepts(a), nodes, rels, a.tables, ns, rs);
    ns := ns + ConceptNodes(org, c, Concepts(a));
    rs := rs + DescribesRels(org, c, Concepts(a), TableNames(a.tables));
    rels := DraftLinks(org, c, ConceptLinks(a), conceptIds, nodes, rels, ns, rs);
    DraftDrawn(org, c, a, nodes, rels);
  }

  lemma DraftDrawn(org: string, c: string, a: Artifacts, nodes: map<string, Node>, rels: seq<Rel>)
    requires Drafted(nodes, rels, ProjectedNodes(org, c, a), ProjectedRels(org, c, a))
    ensures forall n | DrawnNode(org, c, a, n) :: n.id in nodes && DrawnNode(org, c, a, nodes[n.id])
    ensures forall id | id in nodes :: DrawnNode(org, c, a, nodes[id]) && nodes[id].id == id
    ensures forall r :: r in rels <==> DrawnRel(org, c, a, r)
  {
    ProjectionExactly(org, c, a);
    hide DrawnNode, DrawnRel, ProjectedNodes, ProjectedRels;
    forall n | DrawnNode(org, c, a, n) ensures n.id in nodes { assert n in ProjectedNodes(org, c, a); }
    forall r ensures r in rels <==> r in ProjectedRels(org, c, a) {}
  }

  // ---- Writing and pruning ----

  /** What pruning looks at: the caller's nodes of the connection under one label. */
  predicate Labelled(n: Node, org: string, c: string, kind: string) {
    n.org == org && n.kind == kind && "connection_id" in n.properties && n.properties["connection_id"] == c
  }

  ghost predicate Mine(n: Node, org: string, c: string) {
    exists kind | kind in LABELS :: Labelled(n, org, c, kind)
  }

  ghost function LabelledIds(nodes: map<string, Node>, org: string, c: string, kind: string): set<string> {
    set id | id in nodes && Labelled(nodes[id], org, c, kind)
  }

  method WriteNodes(repo: InMemoryGraphRepository, org: string, drafts: map<string, Node>)
    requires repo.Valid() && forall id | id in drafts :: drafts[id].id == id && drafts[id].org == org
    modifies repo`nodes
    ensures repo.Valid() && repo.nodes == old(repo.nodes) + drafts
  {
    hide Tenanted, NoDangling;
    var todo := drafts.Keys;
    ghost var before := repo.nodes;
    while todo != {}
      invariant repo.Valid()
      invariant todo <= drafts.Keys
      invariant repo.nodes.Keys == before.Keys + (drafts.Keys - todo)
      invariant forall id | id in repo.nodes ::
                repo.nodes[id] == if id in drafts && id !in todo then drafts[id] else before[id]
      decreases todo
    {
      var id :| id in todo;
      todo := todo - {id};
      var _ := repo.CreateNode(drafts[id]);
    }
  }

  method WriteRel(repo: InMemoryGraphRepository, org: string, r: Rel, ghost before: seq<Rel>, ghost done: seq<Rel>)
    requires repo.Valid() && Overlaid(before, done, repo.rels)
    requires r.kind in KNOWN_RELATIONSHIP_TYPES && r.org == org
    requires Owned(repo.nodes, org, r.source) && Owned(repo.nodes, org, r.target)
    modifies repo`rels
    ensures repo.Valid()
    ensures Overlaid(before, done + [r], repo.rels)
  {
    hide KNOWN_RELATIONSHIP_TYPES, Owned, Tenanted, Overlaid;
    ghost var current := repo.rels;
    var written := repo.CreateRelationship(org, r);
    OverlaidAdds(before, done, current, r);
  }

  method WriteRels(repo: InMemoryGraphRepository, org: string, rels: seq<Rel>)
    requires repo.Valid()
    requires forall r | r in rels :: r.kind in KNOWN_RELATIONSHIP_TYPES && r.org == org
    requires forall r | r in rels :: Owned(repo.nodes, org, r.source) && Owned(repo.nodes, org, r.target)
    modifies repo`rels
    ensures repo.Valid()
    ensures Overlaid(old(repo.rels), rels, repo.rels)
  {
    ghost var before := repo.rels;
    for i := 0 to |rels|
      invariant repo.Valid()
      invariant Overlaid(before, rels[..i], repo.rels)
    {
      hide KNOWN_RELATIONSHIP_TYPES, Owned, Tenanted, Overlaid;
      assert rels[..i + 1] == rels[..i] + [rels[i]];
      WriteRel(repo, org, rels[i], before, rels[..i]);
    }
    assert rels[..|rels|] == rels;
  }

  ghost function IdsOf(rels: seq<Rel>): set<string> {
    set r | r in rels :: r.id
  }

  /** Writing a list of relationships over a dictionary of them. */
  ghost predicate Overlaid(before: seq<Rel>, rels: seq<Rel>, after: seq<Rel>) {
    && (forall r | r in after :: r in rels || (r in before && r.id !in IdsOf(rels)))
    && (forall r | r in before && r.id !in IdsOf(rels) :: r in after)
    && IdsOf(rels) <= IdsOf(after)
  }

  lemma OverlaidAdds(before: seq<Rel>, rels: seq<Rel>, current: seq<Rel>, r: Rel)
    requires Overlaid(before, rels, current) && UniqueIds(current)
    ensures Overlaid(before, rels + [r], PutRel(current, r))
  {
    var after := PutRel(current, r);
    assert IdsOf(rels + [r]) == IdsOf(rels) + {r.id};
    forall id | id in IdsOf(rels) ensures id in IdsOf(after) {
      var x :| x in current && x.id == id;
      if id != r.id { assert x in after; } else { assert r in after; }
    }
    assert r in after;
  }

  lemma {:induction false} DistinctIdsCount(found: seq<Node>)
    requires forall i, j | 0 <= i < j < |found| :: found[i].id != found[j].id
    ensures |set n | n in found :: n.id| == |found|
  {
    if |found| > 0 {
      var init, last := found[..|found| - 1], found[|found| - 1];
      DistinctIdsCount(init);
      assert found == init + [last];
      assert (set n | n in found :: n.id) == (set n | n in init :: n.id) + {last.id};
      assert forall n | n in init :: n.id != last.id;
    }
  }

  /** A query for at most limit nodes finds all of them when there are no more than limit. */
  lemma FoundAll(nodes: map<string, Node>, org: string, c: string, kind: string, limit: nat, found: seq<Node>)
    requires forall n | n in found :: n.id in nodes && nodes[n.id] == n && Labelled(n, org, c, kind)
    requires forall i, j | 0 <= i < j < |found| :: found[i].id != found[j].id
    requires forall id | id in nodes && Labelled(nodes[id], org, c, kind) && nodes[id] !in found :: |found| == limit
    requires KeyedById(nodes) && |LabelledIds(nodes, org, c, kind)| <= limit
    ensures forall id | id in LabelledIds(nodes, org, c, kind) :: nodes[id] in found
  {
    hide Labelled;
    var ids := set n | n in found :: n.id;
    DistinctIdsCount(found);
    forall id | id in LabelledIds(nodes, org, c, kind) ensures nodes[id] in found {
      if nodes[id] !in found {
        assert id !in ids;
        Subsets(ids + {id}, LabelledIds(nodes, org, c, kind));
      }
    }
  }

  lemma Subsets<T>(a: set<T>, b: set<T>)
    requires a <= b
    ensures |a| <= |b|
  {
    assert b == a + (b - a);
  }

  /** Neither end of the relationship has gone from the graph. */
  predicate EndsStay(r: Rel, nodes0: map<string, Node>, nodes: map<string, Node>) {
    && (r.source in nodes0 ==> r.source in nodes)
    && (r.target in nodes0 ==> r.target in nodes)
  }

  /** Only nodes of the connection outside the projection have gone, each with its relationships. */
  ghost predicate Shrunk(nodes0: map<string, Node>, rels0: seq<Rel>, nodes: map<string, Node>, rels: seq<Rel>,
                         org: string, c: string, keep: set<string>) {
    && (forall id | id in nodes :: id in nodes0 && nodes[id] == nodes0[id])
    && (forall id | id in nodes0 && id !in nodes :: id !in keep && Mine(nodes0[id], org, c))
    && (forall r :: r in rels <==> r in rels0 && EndsStay(r, nodes0, nodes))
  }

  lemma ShrunkDeletes(nodes0: map<string, Node>, rels0: seq<Rel>, nodes: map<string, Node>, rels: seq<Rel>, org: string,
                      c: string, keep: set<string>, id: string, kind: string)
    requires Shrunk(nodes0, rels0, nodes, rels, org, c, keep)
    requires id in nodes && id !in keep && kind in LABELS && Labelled(nodes[id], org, c, kind)
    ensures Shrunk(nodes0, rels0, nodes - {id}, Detached(rels, id), org, c, keep)
  {
    hide Labelled, Mine, Detached;
    assert Mine(nodes[id], org, c) by { LabelledIsMine(nodes[id], org, c, kind); }
  }

  lemma LabelledIsMine(n: Node, org: string, c: string, kind: string)
    requires kind in LABELS && Labelled(n, org, c, kind)
    ensures Mine(n, org, c)
  {
  }

  lemma ShrunkTwice(nodes0: map<string, Node>, rels0: seq<Rel>, nodes1: map<string, Node>, rels1: seq<Rel>,
                    nodes2: map<string, Node>, rels2: seq<Rel>, org: string, c: string, keep: set<string>)
    requires Shrunk(nodes0, rels0, nodes1, rels1, org, c, keep) && Shrunk(nodes1, rels1, nodes2, rels2, org, c, keep)
    ensures Shrunk(nodes0, rels0, nodes2, rels2, org, c, keep)
  {
  }

  method FindLabelled(repo: InMemoryGraphRepository, org: string, c: string, kind: string) returns (existing: seq<Node>)
    requires repo.Valid()
    ensures forall n | n in existing :: n.id in repo.nodes && repo.nodes[n.id] == n && Labelled(n, org, c, kind)
    ensures forall i, j | 0 <= i < j < |existing| :: existing[i].id != existing[j].id
    ensures |existing| <= PRUNE_LIMIT
    ensures |LabelledIds(repo.nodes, org, c, kind)| <= PRUNE_LIMIT ==>
              forall id | id in LabelledIds(repo.nodes, org, c, kind) :: repo.nodes[id] in existing
  {
    existing := repo.FindNodes(org, kind, map["connection_id" := c], PRUNE_LIMIT);
    forall n | n in existing ensures Labelled(n, org, c, kind) {
      assert "connection_id" in map["connection_id" := c];
    }
    forall i, j | 0 <= i < j < |existing| ensures existing[i].id != existing[j].id {
      Text.BeforeIrreflexive(existing[i].id);
    }
    if |LabelledIds(repo.nodes, org, c, kind)| <= PRUNE_LIMIT {
      FoundAll(repo.nodes, org, c, kind, PRUNE_LIMIT, existing);
    }
  }

  method PruneNode(repo: InMemoryGraphRepository, org: string, c: string, kind: string, keep: set<string>, id: string,
                   ghost nodes0: map<string, Node>, ghost rels0: seq<Rel>)
    requires repo.Valid() && Shrunk(nodes0, rels0, repo.nodes, repo.rels, org, c, keep)
    requires id in repo.nodes && id !in keep && kind in LABELS && Labelled(repo.nodes[id], org, c, kind)
    modifies repo
    ensures repo.Valid() && Shrunk(nodes0, rels0, repo.nodes, repo.rels, org, c, keep)
    ensures repo.nodes == old(repo.nodes) - {id} && |repo.nodes| == |old(repo.nodes)| - 1
  {
    OwnedLabelled(repo.nodes, org, c, kind, id);
    ShrunkDeletes(nodes0, rels0, repo.nodes, repo.rels, org, c, keep, id, kind);
    hide *;
    RemovedOne(repo.nodes, id);
    repo.DeleteNode(org, id);
  }

  /** Delete the label's nodes that the projection no longer has, as far as one query reaches. */
  method PruneLabel(repo: InMemoryGraphRepository, org: string, c: string, kind: string,
                    keep: set<string>) returns (pruned: nat)
    requires repo.Valid() && kind in LABELS
    modifies repo
    ensures repo.Valid()
    ensures Shrunk(old(repo.nodes), old(repo.rels), repo.nodes, repo.rels, org, c, keep)
    ensures pruned == |old(repo.nodes)| - |repo.nodes| && pruned <= 1000
    ensures |LabelledIds(old(repo.nodes), org, c, kind)| <= PRUNE_LIMIT ==>
            LabelledIds(repo.nodes, org, c, kind) <= keep
  {
    hide Labelled, Tenanted, UniqueIds, LABELS;
    ghost var nodes0, rels0 := repo.nodes, repo.rels;
    var existing := FindLabelled(repo, org, c, kind);
    assert Shrunk(nodes0, rels0, nodes0, rels0, org, c, keep);
    pruned := 0;
    for i := 0 to |existing|
      invariant repo.Valid()
      invariant Shrunk(nodes0, rels0, repo.nodes, repo.rels, org, c, keep)
      invariant pruned == |nodes0| - |repo.nodes| && pruned <= i
      invariant forall j | i <= j < |existing| :: existing[j].id in repo.nodes
      invariant forall j | 0 <= j < i :: existing[j].id in keep || existing[j].id !in repo.nodes
    {
      hide KeyedById, Shrunk, Detached, NoDangling, Owned;
      var id := existing[i].id;
      if id !in keep {
        assert existing[i] in existing;
        StillThere(nodes0, rels0, repo.nodes, repo.rels, org, c, keep, id);
        PruneNode(repo, org, c, kind, keep, id, nodes0, rels0);
        pruned := pruned + 1;
      }
    }
    hide LabelledIds;
    LabelCleared(nodes0, rels0, repo.nodes, repo.rels, org, c, kind, keep, existing);
  }

  lemma StillThere(nodes0: map<string, Node>, rels0: seq<Rel>, nodes: map<string, Node>, rels: seq<Rel>, org: string,
                   c: string, keep: set<string>, id: string)
    requires Shrunk(nodes0, rels0, nodes, rels, org, c, keep) && id in nodes
    ensures id in nodes0 && nodes[id] == nodes0[id]
  {
  }

  lemma LabelCleared(nodes0: map<string, Node>, rels0: seq<Rel>, nodes: map<string, Node>, rels: seq<Rel>, org: string,
                     c: string, kind: string, keep: set<string>, existing: seq<Node>)
    requires Shrunk(nodes0, rels0, nodes, rels, org, c, keep) && KeyedById(nodes0)
    requires forall j | 0 <= j < |existing| :: existing[j].id in keep || existing[j].id !in nodes
    requires |LabelledIds(nodes0, org, c, kind)| <= PRUNE_LIMIT ==>
               forall id | id in LabelledIds(nodes0, org, c, kind) :: nodes0[id] in existing
    ensures |LabelledIds(nodes0, org, c, kind)| <= PRUNE_LIMIT ==> LabelledIds(nodes, org, c, kind) <= keep
  {
  }

  lemma OwnedLabelled(nodes: map<string, Node>, org: string, c: string, kind: string, id: string)
    requires id in nodes && Labelled(nodes[id], org, c, kind)
    ensures Owned(nodes, org, id)
  {
  }

  lemma RemovedOne(nodes: map<string, Node>, id: string)
    requires id in nodes
    ensures |nodes - {id}| == |nodes| - 1
  {
  }

  method Prune(repo: InMemoryGraphRepository, org: string, c: string, keep: set<string>) returns (pruned: nat)
    requires repo.Valid()
    modifies repo
    ensures repo.Valid()
    ensures Shrunk(old(repo.nodes), old(repo.rels), repo.nodes, repo.rels, org, c, keep)
    ensures pruned == |old(repo.nodes)| - |repo.nodes|
    ensures forall kind | kind in LABELS && |LabelledIds(old(repo.nodes), org, c, kind)| <= PRUNE_LIMIT ::
              LabelledIds(repo.nodes, org, c, kind) <= keep
  {
    hide Labelled, Tenanted, UniqueIds, KeyedById, LABELS;
    ghost var nodes0, rels0 := repo.nodes, repo.rels;
    assert Shrunk(nodes0, rels0, nodes0, rels0, org, c, keep);
    pruned := 0;
    for i := 0 to |LABELS|
      invariant repo.Valid()
      invariant Shrunk(nodes0, rels0, repo.nodes, repo.rels, org, c, keep)
      invariant pruned == |nodes0| - |repo.nodes|
      invariant forall j | 0 <= j < i && |LabelledIds(nodes0, org, c, LABELS[j])| <= PRUNE_LIMIT ::
                  LabelledIds(repo.nodes, org, c, LABELS[j]) <= keep
    {
      ghost var nodes1, rels1 := repo.nodes, repo.rels;
      var more := PruneLabel(repo, org, c, LABELS[i], keep);
      pruned := pruned + more;
      ShrunkTwice(nodes0, rels0, nodes1, rels1, repo.nodes, repo.rels, org, c, keep);
      forall j | 0 <= j <= i && |LabelledIds(nodes0, org, c, LABELS[j])| <= PRUNE_LIMIT
        ensures LabelledIds(repo.nodes, org, c, LABELS[j]) <= keep
      {
        assert LabelledIds(repo.nodes, org, c, LABELS[j]) <= LabelledIds(nodes1, org, c, LABELS[j]);
        if j == i { Subsets(LabelledIds(nodes1, org, c, LABELS[i]), LabelledIds(nodes0, org, c, LABELS[i])); }
      }
    }
  }

  // ---- The build ----

  lemma ProjectedNodesMine(org: string, c: string, a: Artifacts)
    ensures forall n | n in ProjectedNodes(org, c, a) :: n.org == org && n.kind in LABELS && Labelled(n, org, c, n.kind)
  {
  }

  lemma ProjectedIdMembers(org: string, c: string, a: Artifacts)
    ensures var ids := NodeIds(ProjectedNodes(org, c, a));
            && ConnectionId(c) in ids
            && (forall x | x in TableNames(a.tables) :: TableId(c, x) in ids)
            && (forall x | x in Members(a.tables) :: ColumnId(c, x) in ids)
            && (forall m | m in a.metrics && m.table in TableNames(a.tables) :: MetricId(c, m.name) in ids)
            && (forall x | x in ConceptNames(Concepts(a)) :: ConceptId(c, x) in ids)
  {
    hide ConnectionId, TableId, ColumnId, MetricId, ConceptId, TableNodes, TableNames, Members;
    var ns := ProjectedNodes(org, c, a);
    TableDraftIdsFormed(org, c, a.tables);
    var base := {ConnectionNode(org, c)} + TableNodes(org, c, a.tables);
    assert base <= ns;
    assert forall id | id in NodeIds(base) :: id in NodeIds(ns);
    forall m | m in a.metrics && m.table in TableNames(a.tables) ensures MetricId(c, m.name) in NodeIds(ns) {
      assert MetricNode(org, c, m) in ns;
    }
    forall x | x in ConceptNames(Concepts(a)) ensures ConceptId(c, x) in NodeIds(ns) {
      var k :| k in Concepts(a) && k.name == x;
      assert ConceptNode(org, c, k) in ns;
    }
  }

  /** Every projected relationship is of a known kind and joins two projected nodes. */
  lemma ProjectedRelsJoin(org: string, c: string, a: Artifacts)
    ensures forall r | r in ProjectedRels(org, c, a) ::
              && r.kind in KNOWN_RELATIONSHIP_TYPES && r.org == org
              && r.source in NodeIds(ProjectedNodes(org, c, a)) && r.target in NodeIds(ProjectedNodes(org, c, a))
  {
    hide ConnectionId, TableId, ColumnId, MetricId, ConceptId, RelId, NodeIds, ProjectedNodes, TableNames, Members,
         ConceptNames;
    var ids := NodeIds(ProjectedNodes(org, c, a));
    ProjectedIdMembers(org, c, a);
    NamesOf(a.tables);
    assert forall r | r in EdgeRels(org, c, Edges(a), Members(a.tables)) ::
        r.kind in KNOWN_RELATIONSHIP_TYPES && r.org == org && r.source in ids && r.target in ids;
    assert forall r | r in MetricRels(org, c, a.metrics, TableNames(a.tables)) ::
        r.kind in KNOWN_RELATIONSHIP_TYPES && r.org == org && r.source in ids && r.target in ids;
    assert forall r | r in LinkRels(org, c, ConceptLinks(a), ConceptNames(Concepts(a))) ::
        r.kind in KNOWN_RELATIONSHIP_TYPES && r.org == org && r.source in ids && r.target in ids;
    assert forall k | k in Concepts(a) :: k.name in ConceptNames(Concepts(a)) by { NamesOfConcepts(Concepts(a)); }
    assert forall r | r in DescribesRels(org, c, Concepts(a), TableNames(a.tables)) ::
        r.kind in KNOWN_RELATIONSHIP_TYPES && r.org == org && r.source in ids && r.target in ids;
    assert forall r | r in TableRels(org, c, a.tables) ::
        r.kind in KNOWN_RELATIONSHIP_TYPES && r.org == org && r.source in ids && r.target in ids;
  }

  lemma NamesOf(tables: seq<Table>)
    ensures forall t | t in tables :: t.name in TableNames(tables)
    ensures forall t, col | t in tables && col in t.columns :: t.name + "." + col.name in Members(tables)
  {
  }

  lemma NamesOfConcepts(concepts: seq<Concept>)
    ensures forall k | k in concepts :: k.name in ConceptNames(concepts)
  {
  }

  ghost function ProjectedIds(org: string, c: string, a: Artifacts): set<string> {
    NodeIds(ProjectedNodes(org, c, a))
  }

  ghost function ProjectedRelIds(org: string, c: string, a: Artifacts): set<string> {
    RelIds(ProjectedRels(org, c, a))
  }

  /** The connection's nodes are exactly the projection, and the projected relationships are all there. */
  ghost predicate Converged(nodes: map<string, Node>, rels: seq<Rel>, org: string, c: string, a: Artifacts) {
    && ProjectedIds(org, c, a) <= nodes.Keys
    && (forall id | id in nodes && Mine(nodes[id], org, c) :: id in ProjectedIds(org, c, a))
    && ProjectedRelIds(org, c, a) <= IdsOf(rels)
  }

  /** The connection's projected nodes are there; of the others only nodes of the connection are gone. */
  ghost predicate NodesRebuilt(nodes0: map<string, Node>, nodes: map<string, Node>, org: string, c: string,
                               a: Artifacts) {
    && (forall id | id in ProjectedIds(org, c, a) ::
      id in nodes && nodes[id].id == id && nodes[id] in ProjectedNodes(org, c, a))
    && (forall id | id in nodes && id !in ProjectedIds(org, c, a) :: id in nodes0 && nodes[id] == nodes0[id])
    && (forall id | id in nodes0 && id !in ProjectedIds(org, c, a) && !Mine(nodes0[id], org, c) :: id in nodes)
  }

  /** Every projected id has a relationship; the others stay unless one of their ends is gone. */
  ghost predicate RelsRebuilt(nodes0: map<string, Node>, rels0: seq<Rel>, nodes: map<string, Node>, rels: seq<Rel>,
                              org: string, c: string, a: Artifacts) {
    && ProjectedRelIds(org, c, a) <= IdsOf(rels)
    && (forall r | r in rels :: r in ProjectedRels(org, c, a) || (r in rels0 && r.id !in ProjectedRelIds(org, c, a)))
    && (forall r | r in rels0 && r.id !in ProjectedRelIds(org, c, a) && EndsStay(r, nodes0, nodes) :: r in rels)
    && (forall r | r in rels :: EndsStay(r, nodes0, nodes))
  }

  /** What any build does to the graph, whatever the artifacts and whatever was there before. */
  ghost predicate Rebuilt(nodes0: map<string, Node>, rels0: seq<Rel>, nodes: map<string, Node>, rels: seq<Rel>,
                          org: string, c: string, a: Artifacts) {
    NodesRebuilt(nodes0, nodes, org, c, a) && RelsRebuilt(nodes0, rels0, nodes, rels, org, c, a)
  }

  /** No label of the connection holds more nodes than one prune query returns. */
  ghost predicate WithinPruneLimit(nodes0: map<string, Node>, org: string, c: string, a: Artifacts) {
    forall kind | kind in LABELS ::
      |(set id | id in nodes0 && id !in ProjectedIds(org, c, a) && Labelled(nodes0[id], org, c, kind)) +
       (set n | n in ProjectedNodes(org, c, a) && n.kind == kind :: n.id)| <= 1000
  }

  lemma LabelledAfterWrites(nodes0: map<string, Node>, drafts: map<string, Node>, org: string, c: string, a: Artifacts,
                            kind: string)
    requires drafts.Keys == ProjectedIds(org, c, a) && forall id | id in drafts ::
             drafts[id] in ProjectedNodes(org, c, a) && drafts[id].id == id
    requires WithinPruneLimit(nodes0, org, c, a) && kind in LABELS
    ensures |LabelledIds(nodes0 + drafts, org, c, kind)| <= PRUNE_LIMIT
  {
    var stale := set id | id in nodes0 && id !in ProjectedIds(org, c, a) && Labelled(nodes0[id], org, c, kind);
    var current := set n | n in ProjectedNodes(org, c, a) && n.kind == kind :: n.id;
    assert |stale + current| <= PRUNE_LIMIT;
    hide ProjectedNodes, ProjectedIds, LABELS;
    forall id | id in LabelledIds(nodes0 + drafts, org, c, kind) ensures id in stale + current {
      if id in drafts { assert drafts[id] in ProjectedNodes(org, c, a) && drafts[id].kind == kind; }
    }
    Subsets(LabelledIds(nodes0 + drafts, org, c, kind), stale + current);
  }

  lemma RelsStay(nodes0: map<string, Node>, rels0: seq<Rel>, drafts: map<string, Node>, draftRels: seq<Rel>,
                 rels1: seq<Rel>, nodes: map<string, Node>, rels: seq<Rel>, org: string, c: string)
    requires Overlaid(rels0, draftRels, rels1)
    requires Shrunk(nodes0 + drafts, rels1, nodes, rels, org, c, drafts.Keys)
    requires forall r | r in draftRels :: r.source in drafts && r.target in drafts
    ensures IdsOf(draftRels) <= IdsOf(rels)
    ensures forall r | r in rels ::
              EndsStay(r, nodes0, nodes) && (r in draftRels || (r in rels0 && r.id !in IdsOf(draftRels)))
    ensures forall r | r in rels0 && r.id !in IdsOf(draftRels) && EndsStay(r, nodes0, nodes) :: r in rels
  {
    hide Mine;
    forall id | id in IdsOf(draftRels) ensures id in IdsOf(rels) {
      var r :| r in rels1 && r.id == id;
      assert r in draftRels;
    }
  }

  lemma BuildRels(nodes0: map<string, Node>, rels0: seq<Rel>, drafts: map<string, Node>, draftRels: seq<Rel>,
                  rels1: seq<Rel>, nodes: map<string, Node>, rels: seq<Rel>, org: string, c: string, a: Artifacts)
    requires Drafted(drafts, draftRels, ProjectedNodes(org, c, a), ProjectedRels(org, c, a))
    requires Overlaid(rels0, draftRels, rels1)
    requires Shrunk(nodes0 + drafts, rels1, nodes, rels, org, c, drafts.Keys)
    ensures RelsRebuilt(nodes0, rels0, nodes, rels, org, c, a)
  {
    DraftedRelsInside(drafts, draftRels, org, c, a);
    hide ProjectedRels, ProjectedRelIds, EndsStay, Overlaid, Shrunk, IdsOf, Drafted, ProjectedNodes;
    RelsStay(nodes0, rels0, drafts, draftRels, rels1, nodes, rels, org, c);
  }

  lemma DraftedRelsInside(drafts: map<string, Node>, draftRels: seq<Rel>, org: string, c: string, a: Artifacts)
    requires Drafted(drafts, draftRels, ProjectedNodes(org, c, a), ProjectedRels(org, c, a))
    ensures IdsOf(draftRels) == ProjectedRelIds(org, c, a)
    ensures forall r :: r in draftRels <==> r in ProjectedRels(org, c, a)
    ensures forall r | r in draftRels :: r.source in drafts && r.target in drafts
  {
    hide ProjectedNodes, ProjectedRels;
    DraftedIds(drafts, draftRels, ProjectedNodes(org, c, a), ProjectedRels(org, c, a));
    ProjectedRelsInside(org, c, a);
  }

  lemma BuildNodes(nodes0: map<string, Node>, drafts: map<string, Node>, draftRels: seq<Rel>, rels1: seq<Rel>,
                   nodes: map<string, Node>, rels: seq<Rel>, org: string, c: string, a: Artifacts)
    requires Drafted(drafts, draftRels, ProjectedNodes(org, c, a), ProjectedRels(org, c, a))
    requires Shrunk(nodes0 + drafts, rels1, nodes, rels, org, c, drafts.Keys)
    ensures NodesRebuilt(nodes0, nodes, org, c, a)
  {
    hide ProjectedNodes, ProjectedRels, Mine, EndsStay, NodeIds;
  }

  lemma AllRebuilt(nodes0: map<string, Node>, rels0: seq<Rel>, drafts: map<string, Node>, draftRels: seq<Rel>,
                   rels1: seq<Rel>, nodes: map<string, Node>, rels: seq<Rel>, org: string, c: string, a: Artifacts)
    requires Drafted(drafts, draftRels, ProjectedNodes(org, c, a), ProjectedRels(org, c, a))
    requires Overlaid(rels0, draftRels, rels1)
    requires Shrunk(nodes0 + drafts, rels1, nodes, rels, org, c, drafts.Keys)
    ensures Rebuilt(nodes0, rels0, nodes, rels, org, c, a)
  {
    BuildNodes(nodes0, drafts, draftRels, rels1, nodes, rels, org, c, a);
    BuildRels(nodes0, rels0, drafts, draftRels, rels1, nodes, rels, org, c, a);
    hide NodesRebuilt, RelsRebuilt;
  }

  lemma DraftedIds(nodes: map<string, Node>, rels: seq<Rel>, ns: set<Node>, rs: set<Rel>)
    requires Drafted(nodes, rels, ns, rs)
    ensures IdsOf(rels) == RelIds(rs)
    ensures forall r :: r in rels <==> r in rs
  {
  }

  /** A build leaves no relationship without its ends that was not so before. */
  lemma BuildKeepsIntegrity(nodes0: map<string, Node>, rels0: seq<Rel>, nodes: map<string, Node>, rels: seq<Rel>,
                            org: string, c: string, a: Artifacts)
    requires Rebuilt(nodes0, rels0, nodes, rels, org, c, a) && NoDangling(nodes0, rels0)
    ensures NoDangling(nodes, rels)
  {
    hide ProjectedNodes, ProjectedRels, ProjectedIds, ProjectedRelIds, KNOWN_RELATIONSHIP_TYPES, Mine;
    ProjectedRelsInside(org, c, a);
  }

  lemma ProjectedRelsInside(org: string, c: string, a: Artifacts)
    ensures forall r | r in ProjectedRels(org, c, a) ::
              r.org == org && r.source in ProjectedIds(org, c, a) && r.target in ProjectedIds(org, c, a)
    ensures forall n | n in ProjectedNodes(org, c, a) :: n.org == org
  {
    hide ProjectedNodes, ProjectedRels, KNOWN_RELATIONSHIP_TYPES;
    ProjectedRelsJoin(org, c, a);
    ProjectedNodesMine(org, c, a);
  }

  lemma ForeignNotMine(nodes: map<string, Node>, owner: string, id: string, org: string, c: string)
    requires Owned(nodes, owner, id) && owner != org
    ensures !Mine(nodes[id], org, c)
  {
  }

  /** A relationship of another tenant survives a build that does not write its id. */
  lemma ForeignRelStays(nodes0: map<string, Node>, rels0: seq<Rel>, nodes: map<string, Node>, rels: seq<Rel>,
                        org: string, c: string, a: Artifacts, r: Rel)
    requires Rebuilt(nodes0, rels0, nodes, rels, org, c, a) && Tenanted(nodes0, rels0)
    requires r in rels0 && r.id !in ProjectedRelIds(org, c, a) && r.org != org
    ensures r in rels
  {
    hide ProjectedNodes, ProjectedRels, ProjectedIds, ProjectedRelIds, Mine;
    ForeignNotMine(nodes0, r.org, r.source, org, c);
    ForeignNotMine(nodes0, r.org, r.target, org, c);
  }

  /**
   A build keeps tenants apart exactly when no relationship of another tenant that it does not overwrite ends at a
   projected node.
  */
  lemma BuildKeepsTenants(nodes0: map<string, Node>, rels0: seq<Rel>, nodes: map<string, Node>, rels: seq<Rel>,
                          org: string, c: string, a: Artifacts)
    requires Rebuilt(nodes0, rels0, nodes, rels, org, c, a) && Tenanted(nodes0, rels0)
    ensures Tenanted(nodes, rels) <==> forall r | r in rels0 && r.id !in ProjectedRelIds(org, c, a) &&
              (r.source in ProjectedIds(org, c, a) || r.target in ProjectedIds(org, c, a)) :: r.org == org
  {
    hide ProjectedNodes, ProjectedRels, ProjectedIds, ProjectedRelIds, KNOWN_RELATIONSHIP_TYPES, Mine;
    ProjectedRelsInside(org, c, a);
    var ids, relIds := ProjectedIds(org, c, a), ProjectedRelIds(org, c, a);
    if forall r | r in rels0 && r.id !in relIds && (r.source in ids || r.target in ids) :: r.org == org {
      forall r | r in rels ensures Owned(nodes, r.org, r.source) && Owned(nodes, r.org, r.target) {
        if r !in ProjectedRels(org, c, a) { assert Owned(nodes0, r.org, r.source) && Owned(nodes0, r.org, r.target); }
      }
    }
    if Tenanted(nodes, rels) {
      forall r | r in rels0 && r.id !in relIds && (r.source in ids || r.target in ids) ensures r.org == org {
        if r.org != org { ForeignRelStays(nodes0, rels0, nodes, rels, org, c, a, r); }
      }
    }
  }

  /** A build over a graph that already holds the projection removes nothing and adds no id. */
  lemma ConvergedStays(nodes0: map<string, Node>, rels0: seq<Rel>, nodes: map<string, Node>, rels: seq<Rel>,
                       org: string, c: string, a: Artifacts)
    requires Rebuilt(nodes0, rels0, nodes, rels, org, c, a) && Converged(nodes0, rels0, org, c, a)
    ensures nodes.Keys == nodes0.Keys && IdsOf(rels) == IdsOf(rels0)
  {
    hide ProjectedIds, ProjectedRels, ProjectedNodes, Mine;
    assert nodes.Keys == nodes0.Keys;
    forall r | r in rels ensures r.id in IdsOf(rels0) {
      if r in ProjectedRels(org, c, a) { assert r.id in ProjectedRelIds(org, c, a); }
    }
    forall r | r in rels0 ensures r.id in IdsOf(rels) {
      if r.id !in ProjectedRelIds(org, c, a) { assert r in rels; }
    }
  }

  /** Rebuild the connection's part of the graph from its current artifacts. */
  method Build(repo: InMemoryGraphRepository?, org: string, c: string, a: Artifacts) returns (report: Report)
    requires repo != null ==> repo.Valid()
    modifies repo
    ensures repo == null ==> report == Report(0, 0, 0, true)
    ensures repo != null ==>
              && repo.Valid() && Rebuilt(old(repo.nodes), old(repo.rels), repo.nodes, repo.rels, org, c, a)
              && (WithinPruneLimit(old(repo.nodes), org, c, a) ==> Converged(repo.nodes, repo.rels, org, c, a))
              && report.nodesWritten == |ProjectedIds(org, c, a)| && !report.degraded
              && report.nodesPruned == |old(repo.nodes).Keys + ProjectedIds(org, c, a)| - |repo.nodes|
              && report.relationshipsWritten == RelTally(a)
              && GraphDrawn(old(repo.nodes), old(repo.rels), repo.nodes, repo.rels, org, c, a)
    ensures repo != null && Converged(old(repo.nodes), old(repo.rels), org, c, a) ==>
              && report.nodesPruned == 0
              && repo.nodes.Keys == old(repo.nodes).Keys && IdsOf(repo.rels) == IdsOf(old(repo.rels))
  {
    if repo == null {
      return Report(0, 0, 0, true);
    }
    hide *;
    ghost var nodes0, rels0 := repo.nodes, repo.rels;
    var drafts, draftRels := Draft(org, c, a);
    DraftsReady(nodes0, drafts, draftRels, org, c, a);
    var pruned := WriteAndPrune(repo, org, c, drafts, draftRels, a);
    RebuiltDrawn(nodes0, rels0, repo.nodes, repo.rels, org, c, a);
    if WithinPruneLimit(nodes0, org, c, a) {
      BuildConverges(nodes0, rels0, drafts, draftRels, repo.nodes, repo.rels, org, c, a);
    }
    if Converged(nodes0, rels0, org, c, a) {
      ConvergedStays(nodes0, rels0, repo.nodes, repo.rels, org, c, a);
      HasProjection(nodes0, rels0, org, c, a);
      assert |repo.nodes| == |repo.nodes.Keys|;
    }
    report := Report(|drafts|, |draftRels|, pruned, false);
  }

  lemma HasProjection(nodes: map<string, Node>, rels: seq<Rel>, org: string, c: string, a: Artifacts)
    requires Converged(nodes, rels, org, c, a)
    ensures nodes.Keys + ProjectedIds(org, c, a) == nodes.Keys
  {
  }

  method WriteAndPrune(repo: InMemoryGraphRepository, org: string, c: string, drafts: map<string, Node>,
                       draftRels: seq<Rel>, ghost a: Artifacts)
    returns (pruned: nat)
    requires repo.Valid() && Drafted(drafts, draftRels, ProjectedNodes(org, c, a), ProjectedRels(org, c, a))
    requires forall id | id in drafts :: drafts[id].id == id && drafts[id].org == org
    requires forall r | r in draftRels :: r.kind in KNOWN_RELATIONSHIP_TYPES && r.org == org
    requires forall r | r in draftRels ::
             Owned(repo.nodes + drafts, org, r.source) && Owned(repo.nodes + drafts, org, r.target)
    modifies repo
    ensures repo.Valid() && Rebuilt(old(repo.nodes), old(repo.rels), repo.nodes, repo.rels, org, c, a)
    ensures forall kind | kind in LABELS && |LabelledIds(old(repo.nodes) + drafts, org, c, kind)| <= PRUNE_LIMIT ::
              LabelledIds(repo.nodes, org, c, kind) <= drafts.Keys
    ensures pruned == |old(repo.nodes).Keys + drafts.Keys| - |repo.nodes|
  {
    hide *;
    ghost var nodes0, rels0 := repo.nodes, repo.rels;
    WriteNodes(repo, org, drafts);
    ghost var nodes1 := repo.nodes;
    assert nodes1.Keys == nodes0.Keys + drafts.Keys && |nodes1| == |nodes1.Keys|;
    WriteRels(repo, org, draftRels);
    ghost var rels1 := repo.rels;
    pruned := Prune(repo, org, c, drafts.Keys);
    AllRebuilt(nodes0, rels0, drafts, draftRels, rels1, repo.nodes, repo.rels, org, c, a);
  }

  lemma DraftsReady(nodes0: map<string, Node>, drafts: map<string, Node>, draftRels: seq<Rel>, org: string, c: string,
                    a: Artifacts)
    requires Drafted(drafts, draftRels, ProjectedNodes(org, c, a), ProjectedRels(org, c, a))
    ensures drafts.Keys == ProjectedIds(org, c, a) && |drafts| == |ProjectedIds(org, c, a)|
    ensures forall id | id in drafts :: drafts[id].id == id && drafts[id].org == org
    ensures forall r | r in draftRels :: r.kind in KNOWN_RELATIONSHIP_TYPES && r.org == org
    ensures forall r | r in draftRels :: Owned(nodes0 + drafts, org, r.source) && Owned(nodes0 + drafts, org, r.target)
  {
    hide ProjectedNodes, ProjectedRels, KNOWN_RELATIONSHIP_TYPES;
    ProjectedNodesMine(org, c, a);
    ProjectedRelsJoin(org, c, a);
    DraftedIds(drafts, draftRels, ProjectedNodes(org, c, a), ProjectedRels(org, c, a));
    assert |drafts| == |drafts.Keys|;
  }

  lemma BuildConverges(nodes0: map<string, Node>, rels0: seq<Rel>, drafts: map<string, Node>, draftRels: seq<Rel>,
                       nodes: map<string, Node>, rels: seq<Rel>, org: string, c: string, a: Artifacts)
    requires Drafted(drafts, draftRels, ProjectedNodes(org, c, a), ProjectedRels(org, c, a))
    requires Rebuilt(nodes0, rels0, nodes, rels, org, c, a) && WithinPruneLimit(nodes0, org, c, a)
    requires forall kind | kind in LABELS && |LabelledIds(nodes0 + drafts, org, c, kind)| <= PRUNE_LIMIT ::
               LabelledIds(nodes, org, c, kind) <= drafts.Keys
    ensures Converged(nodes, rels, org, c, a)
  {
    hide ProjectedNodes, ProjectedRels, LABELS, Labelled, WithinPruneLimit;
    forall id | id in nodes && Mine(nodes[id], org, c) ensures id in ProjectedIds(org, c, a) {
      var kind :| kind in LABELS && Labelled(nodes[id], org, c, kind);
      LabelledAfterWrites(nodes0, drafts, org, c, a, kind);
      assert id in LabelledIds(nodes, org, c, kind);
    }
  }

  // ---- Connections keep apart ----

  predicate ColonFree(c: string) {
    ':' !in c
  }

  /** id has one of the shapes the builder gives to nodes of connection c. */
  ghost predicate BelongsTo(id: string, c: string) {
    id == ConnectionId(c) ||
    exists x :: id == TableId(c, x) || id == ColumnId(c, x) || id == MetricId(c, x) || id == ConceptId(c, x)
  }

  /** The text before the first colon, and the text after it. */
  function SplitColon(s: string): (r: (string, string)) {
    if |s| == 0 then ("", "") else if s[0] == ':' then ("", s[1..]) else
      var (head, tail) := SplitColon(s[1..]); ([s[0]] + head, tail)
  }

  lemma {:induction false} SplitAfter(p: string, rest: string)
    requires ColonFree(p)
    ensures SplitColon(p + ":" + rest) == (p, rest)
    ensures SplitColon(p) == (p, "")
  {
    if |p| == 0 {
      assert p + ":" + rest == [':'] + rest;
    } else {
      assert (p + ":" + rest)[1..] == p[1..] + ":" + rest;
      SplitAfter(p[1..], rest);
      assert p == [p[0]] + p[1..];
    }
  }

  lemma SecondPart(id: string, p: string, c: string, rest: string)
    requires ColonFree(p) && ColonFree(c) && id == p + ":" + c + ":" + rest
    ensures SplitColon(SplitColon(id).1).0 == c
  {
    assert id == p + ":" + (c + ":" + rest);
    SplitAfter(p, c + ":" + rest);
    SplitAfter(c, rest);
  }

  lemma OwnerOfId(id: string, c: string)
    requires BelongsTo(id, c) && ColonFree(c)
    ensures SplitColon(SplitColon(id).1).0 == c
  {
    hide SplitColon;
    if id == ConnectionId(c) {
      assert id == "connection" + ":" + c;
      SplitAfter("connection", c);
      SplitAfter(c, "");
    } else {
      var x :| id == TableId(c, x) || id == ColumnId(c, x) || id == MetricId(c, x) || id == ConceptId(c, x);
      OwnerOfNamed(id, c, x);
    }
  }

  lemma OwnerOfNamed(id: string, c: string, x: string)
    requires id == TableId(c, x) || id == ColumnId(c, x) || id == MetricId(c, x) || id == ConceptId(c, x)
    requires ColonFree(c)
    ensures SplitColon(SplitColon(id).1).0 == c
  {
    hide SplitColon;
    if id == TableId(c, x) {
      SecondPart(id, "table", c, x);
    } else if id == ColumnId(c, x) {
      SecondPart(id, "column", c, x);
    } else if id == MetricId(c, x) {
      SecondPart(id, "metric", c, x);
    } else {
      SecondPart(id, "concept", c, x);
    }
  }

  lemma ProjectedIdsBelong(org: string, c: string, a: Artifacts)
    ensures forall id | id in ProjectedIds(org, c, a) :: BelongsTo(id, c)
  {
  }

  /** A build touches no node of another connection: no node id it writes or prunes is one of theirs. */
  lemma OtherConnectionsUntouched(nodes0: map<string, Node>, rels0: seq<Rel>, nodes: map<string, Node>, rels: seq<Rel>,
                                  org: string, c: string, a: Artifacts, id: string, other: string)
    requires Rebuilt(nodes0, rels0, nodes, rels, org, c, a)
    requires ColonFree(c) && ColonFree(other) && c != other
    requires id in nodes0 && BelongsTo(id, other)
    requires "connection_id" in nodes0[id].properties && nodes0[id].properties["connection_id"] == other
    ensures id in nodes && nodes[id] == nodes0[id]
  {
    hide ProjectedIds, ProjectedNodes, ProjectedRels, BelongsTo, SplitColon, RelsRebuilt;
    ProjectedIdsBelong(org, c, a);
    OwnerOfId(id, other);
    if id in ProjectedIds(org, c, a) { OwnerOfId(id, c); }
  }

  /** The second and the fourth part of a relationship id: its type, and the text that names the connection. */
  function RelParts(id: string): (string, string) {
    var (kind, ends) := SplitColon(SplitColon(id).1);
    (kind, SplitColon(SplitColon(ends).1).0)
  }

  lemma RelPartsOf(id: string, kind: string, p: string, owner: string, rest: string)
    requires ColonFree(kind) && ColonFree(p) && ColonFree(owner)
    requires id == "rel" + ":" + (kind + ":" + (p + ":" + (owner + ":" + rest)))
    ensures RelParts(id) == (kind, owner)
  {
    hide SplitColon;
    SplitAfter("rel", kind + ":" + (p + ":" + (owner + ":" + rest)));
    SplitAfter(kind, p + ":" + (owner + ":" + rest));
    SplitAfter(p, owner + ":" + rest);
    SplitAfter(owner, rest);
  }

  /** The text that names connection c in the ids of its relationships of one type. */
  function OwnerText(kind: string, c: string): string {
    if kind == "HAS_TABLE" then c + "->table" else c
  }

  lemma HasTableOwner(org: string, c: string, t: Table)
    requires ColonFree(c)
    ensures var r := TableRel(org, c, t); RelParts(r.id) == (r.kind, OwnerText(r.kind, c))
  {
    var r := TableRel(org, c, t);
    assert r.id == "rel" + ":" + ("HAS_TABLE" + ":" +
           ("connection" + ":" + ((c + "->table") + ":" + (c + ":" + t.name))));
    hide *;
    RelPartsOf(r.id, "HAS_TABLE", "connection", c + "->table", c + ":" + t.name);
  }

  /** Any other relationship starts at a node whose id names the connection between colons. */
  lemma NamedSourceOwner(r: Rel, p: string, c: string, x: string, tail: string)
    requires ColonFree(c) && ColonFree(p) && ColonFree(r.kind) && r.kind != "HAS_TABLE"
    requires r.source == p + ":" + c + ":" + x && r.id == RelId(r.kind, r.source, r.target) + tail
    ensures RelParts(r.id) == (r.kind, OwnerText(r.kind, c))
  {
    assert r.id == "rel" + ":" + (r.kind + ":" + (p + ":" + (c + ":" + (x + "->" + r.target + tail))));
    hide RelParts, RelId;
    RelPartsOf(r.id, r.kind, p, c, x + "->" + r.target + tail);
  }

  /** The relationship starts at a node whose id names connection c, and its id is built from its ends. */
  ghost predicate FromNamed(r: Rel, c: string) {
    && r.kind != "HAS_TABLE" && ColonFree(r.kind)
    && exists x, tail :: (r.source == TableId(c, x) || r.source == ColumnId(c, x) || r.source == ConceptId(c, x))
                         && r.id == RelId(r.kind, r.source, r.target) + tail
  }

  lemma IsFromNamed(r: Rel, c: string, x: string, tail: string)
    requires r.kind != "HAS_TABLE" && ColonFree(r.kind)
    requires r.source == TableId(c, x) || r.source == ColumnId(c, x) || r.source == ConceptId(c, x)
    requires r.id == RelId(r.kind, r.source, r.target) + tail
             || (tail == "" && r.id == RelId(r.kind, r.source, r.target))
    ensures FromNamed(r, c)
  {
    assert r.id == RelId(r.kind, r.source, r.target) + tail;
  }

  lemma TableRelShapes(org: string, c: string, tables: seq<Table>, r: Rel)
    requires r in TableRels(org, c, tables)
    ensures (exists t :: r == TableRel(org, c, t)) || FromNamed(r, c)
  {
    hide FromNamed, TableId, ColumnId, RelId, ConnectionId;
    if t, col :| t in tables && col in t.columns && r == ColumnRel(org, c, t, col) { IsFromNamed(r, c, t.name, ""); }
  }

  lemma EdgeRelShapes(org: string, c: string, edges: seq<JoinEdge>, members: set<string>, r: Rel)
    requires r in EdgeRels(org, c, edges, members)
    ensures FromNamed(r, c)
  {
    hide FromNamed, TableId, ColumnId, ConceptId, MetricId;
    var e :| e in edges && r == EdgeRel(org, c, e);
    assert r == EdgeRel(org, c, e);
    IsFromNamed(r, c, e.left, "");
  }

  lemma MetricRelShapes(org: string, c: string, metrics: seq<Metric>, tables: set<string>, r: Rel)
    requires r in MetricRels(org, c, metrics, tables)
    ensures FromNamed(r, c)
  {
    hide FromNamed, TableId, ColumnId, ConceptId, MetricId;
    var m :| m in metrics && r == MetricRel(org, c, m);
    assert r == MetricRel(org, c, m);
    IsFromNamed(r, c, m.table, "");
  }

  lemma DescribesRelShapes(org: string, c: string, concepts: seq<Concept>, tables: set<string>, r: Rel)
    requires r in DescribesRels(org, c, concepts, tables)
    ensures FromNamed(r, c)
  {
    hide FromNamed, TableId, ColumnId, ConceptId, MetricId;
    var k, t :| k in concepts && t in k.mapsTo && r == DescribesRel(org, c, k, t);
    assert r == DescribesRel(org, c, k, t);
    IsFromNamed(r, c, k.name, "");
  }

  lemma LinkRelForm(org: string, c: string, l: ConceptLink)
    ensures var r := LinkRel(org, c, l);
            && r.kind != "HAS_TABLE" && ColonFree(r.kind) && r.source == ConceptId(c, l.subject)
            && r.id == RelId(r.kind, r.source, r.target) + (":" + l.kind)
  {
    hide ConceptId;
  }

  lemma LinkRelShapes(org: string, c: string, links: seq<ConceptLink>, names: set<string>, r: Rel)
    requires r in LinkRels(org, c, links, names)
    ensures FromNamed(r, c)
  {
    hide FromNamed, TableId, ColumnId, ConceptId, MetricId;
    var l :| l in links && r == LinkRel(org, c, l);
    LinkRelForm(org, c, l);
    hide LinkRel, RelId;
    IsFromNamed(r, c, l.subject, ":" + l.kind);
  }

  lemma OwnerOfRel(org: string, c: string, a: Artifacts, r: Rel)
    requires ColonFree(c) && r in ProjectedRels(org, c, a)
    ensures RelParts(r.id) == (r.kind, OwnerText(r.kind, c))
  {
    hide RelParts, OwnerText, TableRel, TableRels, EdgeRels, MetricRels, DescribesRels, LinkRels, FromNamed;
    if r in TableRels(org, c, a.tables) {
      TableRelShapes(org, c, a.tables, r);
    } else if r in EdgeRels(org, c, Edges(a), Members(a.tables)) {
      EdgeRelShapes(org, c, Edges(a), Members(a.tables), r);
    } else if r in MetricRels(org, c, a.metrics, TableNames(a.tables)) {
      MetricRelShapes(org, c, a.metrics, TableNames(a.tables), r);
    } else if r in DescribesRels(org, c, Concepts(a), TableNames(a.tables)) {
      DescribesRelShapes(org, c, Concepts(a), TableNames(a.tables), r);
    } else {
      LinkRelShapes(org, c, ConceptLinks(a), ConceptNames(Concepts(a)), r);
    }
    if t :| r == TableRel(org, c, t) { HasTableOwner(org, c, t); } else { NamedOwner(r, c); }
  }

  lemma NamedOwner(r: Rel, c: string)
    requires ColonFree(c) && FromNamed(r, c)
    ensures RelParts(r.id) == (r.kind, OwnerText(r.kind, c))
  {
    hide RelParts, RelId, OwnerText;
    var x, tail :| (r.source == TableId(c, x) || r.source == ColumnId(c, x) || r.source == ConceptId(c, x))
                   && r.id == RelId(r.kind, r.source, r.target) + tail;
    if r.source == TableId(c, x) {
      NamedSourceOwner(r, "table", c, x, tail);
    } else if r.source == ColumnId(c, x) {
      NamedSourceOwner(r, "column", c, x, tail);
    } else {
      NamedSourceOwner(r, "concept", c, x, tail);
    }
  }

  lemma ProjectedEnds(org: string, c: string, a: Artifacts, r: Rel)
    requires r in ProjectedRels(org, c, a)
    ensures BelongsTo(r.source, c) && BelongsTo(r.target, c)
  {
    hide ProjectedRels, ProjectedNodes, BelongsTo, KNOWN_RELATIONSHIP_TYPES;
    ProjectedRelsJoin(org, c, a);
    ProjectedIdsBelong(org, c, a);
  }

  /** Relationships that the builder makes for two connections never share an id. */
  lemma RelIdsApart(org: string, c: string, a: Artifacts, r: Rel, org': string, other: string, b: Artifacts, s: Rel)
    requires ColonFree(c) && ColonFree(other) && c != other
    requires r in ProjectedRels(org, c, a) && s in ProjectedRels(org', other, b)
    ensures r.id != s.id
  {
    hide ProjectedRels, RelParts;
    OwnerOfRel(org, c, a, r);
    OwnerOfRel(org', other, b, s);
    assert (c + "->table")[..|c|] == c && (other + "->table")[..|other|] == other;
  }

  /**
   A build neither removes, replaces nor adds a relationship of another connection: one that a build for that
   connection could have made, between nodes of that connection.
  */
  lemma OtherRelationshipsUntouched(nodes0: map<string, Node>, rels0: seq<Rel>, nodes: map<string, Node>,
                                    rels: seq<Rel>, org: string, c: string, a: Artifacts, org': string, other: string,
                                    b: Artifacts, s: Rel)
    requires Rebuilt(nodes0, rels0, nodes, rels, org, c, a)
    requires ColonFree(c) && ColonFree(other) && c != other
    requires s in ProjectedRels(org', other, b)
    requires forall id | id in {s.source, s.target} ::
               id in nodes0 && "connection_id" in nodes0[id].properties
                 && nodes0[id].properties["connection_id"] == other
    ensures s in rels <==> s in rels0
  {
    hide ProjectedIds, ProjectedNodes, ProjectedRels, BelongsTo;
    forall r | r in ProjectedRels(org, c, a) ensures r.id != s.id { RelIdsApart(org, c, a, r, org', other, b, s); }
    ProjectedEnds(org', other, b, s);
    OtherConnectionsUntouched(nodes0, rels0, nodes, rels, org, c, a, s.source, other);
    OtherConnectionsUntouched(nodes0, rels0, nodes, rels, org, c, a, s.target, other);
  }

  // ---- Which relationships a build leaves ----

  /** No arrow in a name, and no colon in a concept's, so that the id of a relationship tells its ends. */
  ghost predicate PlainNames(c: string, a: Artifacts) {
    && ArrowFree(c)
    && (forall x | HasTable(a, x) :: ArrowFree(x))
    && (forall x | HasMember(a, x) :: ArrowFree(x))
    && (forall x | HasConcept(a, x) :: ArrowFree(x) && ColonFree(x))
  }

  lemma ArrowFreeParts(p: string, x: string)
    requires ArrowFree(p) && ArrowFree(x) && |p| > 0 && p[|p| - 1] == ':'
    ensures ArrowFree(p + x)
  {
    var all := p + x;
    forall i | 0 <= i < |all| - 1 && all[i] == '-' ensures all[i + 1] != '>' {
      if i >= |p| { assert all[i] == x[i - |p|] && all[i + 1] == x[i - |p| + 1]; }
    }
  }

  lemma ArrowFreeId(p: string, c: string, x: string)
    requires p in {"connection:", "table:", "column:", "concept:"} && ArrowFree(c) && ArrowFree(x)
    ensures ArrowFree(p + c) && ArrowFree(p + c + ":" + x)
  {
    ArrowFreeParts(p, c);
    assert ArrowFree(p + c + ":");
    ArrowFreeParts(p + c + ":", x);
  }

  /** What the id says after the type: the ends, and for a link its kind. */
  ghost predicate EndsText(r: Rel, tail: string) {
    && ColonFree(r.kind) && ArrowFree(r.source)
    && r.id == "rel:" + r.kind + ":" + r.source + "->" + r.target + tail
  }

  lemma SameIdSameEnds(r: Rel, s: Rel, tail: string, tail': string)
    requires EndsText(r, tail) && EndsText(s, tail') && r.id == s.id
    ensures r.kind == s.kind && r.source == s.source && r.target + tail == s.target + tail'
  {
    var x, y := PairKey(r.source, r.target + tail), PairKey(s.source, s.target + tail');
    assert r.id == "rel" + ":" + (r.kind + ":" + x) && s.id == "rel" + ":" + (s.kind + ":" + y);
    hide EndsText, SplitColon, PairKey;
    SplitAfter("rel", r.kind + ":" + x);
    SplitAfter("rel", s.kind + ":" + y);
    SplitAfter(r.kind, x);
    SplitAfter(s.kind, y);
    PairKeysDiffer(r.source, r.target + tail, s.source, s.target + tail');
  }

  lemma TableSources(c: string, a: Artifacts, r: Rel)
    requires PlainNames(c, a) && (DrawnTableRel(c, a, r) || DrawnColumnRel(c, a, r) || DrawnMetricRel(c, a, r))
    ensures ArrowFree(r.source) && r.kind != "SEMANTICALLY_RELATED_TO" && ColonFree(r.kind)
  {
    hide HasMember, HasConcept, ArrowFree;
    ArrowFreeId("connection:", c, c);
    forall x | HasTable(a, x) ensures ArrowFree("table:" + c + ":" + x) { ArrowFreeId("table:", c, x); }
    hide HasTable;
    forall t | t in a.tables ensures HasTable(a, t.name) { HasThisTable(a, t); }
  }

  lemma HasThisTable(a: Artifacts, t: Table)
    requires t in a.tables
    ensures HasTable(a, t.name)
  {
  }

  lemma EdgeSources(c: string, a: Artifacts, r: Rel)
    requires PlainNames(c, a) && DrawnEdgeRel(c, a, r)
    ensures ArrowFree(r.source) && r.kind in {"REFERENCES", "JOINS_WITH"} && ColonFree(r.kind)
  {
    hide HasTable, HasMember, HasConcept, ArrowFree;
    forall x | HasMember(a, x) ensures ArrowFree("column:" + c + ":" + x) { ArrowFreeId("column:", c, x); }
  }

  lemma ConceptIdsArrowFree(c: string, a: Artifacts)
    requires PlainNames(c, a)
    ensures forall x | HasConcept(a, x) :: ArrowFree("concept:" + c + ":" + x)
  {
    hide HasTable, HasMember, HasConcept, ArrowFree;
    forall x | HasConcept(a, x) ensures ArrowFree("concept:" + c + ":" + x) { ArrowFreeId("concept:", c, x); }
  }

  lemma DescribesSources(c: string, a: Artifacts, r: Rel)
    requires PlainNames(c, a) && DrawnDescribesRel(c, a, r)
    ensures ArrowFree(r.source) && r.kind == "DESCRIBES" && ColonFree(r.kind)
  {
    ConceptIdsArrowFree(c, a);
    hide PlainNames, HasTable, ArrowFree;
    var k, t :| k in a.ontology.value.concepts && t in k.mapsTo && HasTable(a, t) &&
      Spans(r, "DESCRIBES", "concept:" + c + ":" + k.name, "table:" + c + ":" + t, k.details);
    assert HasConcept(a, k.name);
  }

  lemma LinkSources(c: string, a: Artifacts, r: Rel)
    requires PlainNames(c, a) && DrawnLinkRel(c, a, r)
    ensures ArrowFree(r.source) && r.kind == "SEMANTICALLY_RELATED_TO" && ColonFree(r.kind)
  {
    ConceptIdsArrowFree(c, a);
    hide PlainNames, HasConcept, ArrowFree;
  }

  lemma PlainEnds(r: Rel)
    requires IdFromEnds(r) && ArrowFree(r.source) && ColonFree(r.kind)
    ensures EndsText(r, "")
  {
    assert r.id == "rel:" + r.kind + ":" + r.source + "->" + r.target + "";
  }

  lemma FormedEnds(org: string, c: string, a: Artifacts, r: Rel)
    requires PlainNames(c, a) && DrawnRel(org, c, a, r) && !DrawnLinkRel(c, a, r)
    ensures EndsText(r, "") && r.kind != "SEMANTICALLY_RELATED_TO"
  {
    hide DrawnTableRel, DrawnColumnRel, DrawnEdgeRel, DrawnMetricRel, DrawnDescribesRel, DrawnLinkRel, PlainNames,
         ArrowFree, ColonFree, IdFromEnds, EndsText;
    if DrawnEdgeRel(c, a, r) {
      EdgeSources(c, a, r);
    } else if DrawnDescribesRel(c, a, r) {
      DescribesSources(c, a, r);
    } else {
      TableSources(c, a, r);
    }
    PlainEnds(r);
  }

  lemma LinkEnds(c: string, a: Artifacts, r: Rel) returns (name: string, kind: string)
    requires PlainNames(c, a) && DrawnLinkRel(c, a, r)
    ensures EndsText(r, ":" + kind) && r.kind == "SEMANTICALLY_RELATED_TO"
    ensures r.target == "concept:" + c + ":" + name && ColonFree(name)
  {
    LinkSources(c, a, r);
    hide HasTable, HasMember, HasConcept, ArrowFree;
    var l :| l in a.ontology.value.links && HasConcept(a, l.objectName)
             && r.target == "concept:" + c + ":" + l.objectName
             && r.id == "rel:" + r.kind + ":" + r.source + "->" + r.target + ":" + l.kind;
    name, kind := l.objectName, l.kind;
    assert r.id == "rel:" + r.kind + ":" + r.source + "->" + r.target + (":" + kind);
  }

  /** With plain names, relationships of the projection that share an id have the same type and ends. */
  lemma IdTellsEnds(org: string, c: string, a: Artifacts, r: Rel, s: Rel)
    requires PlainNames(c, a) && DrawnRel(org, c, a, r) && DrawnRel(org, c, a, s) && r.id == s.id
    ensures r.kind == s.kind && r.source == s.source && r.target == s.target
  {
    hide DrawnRel, DrawnLinkRel, EndsText, PlainNames;
    if DrawnLinkRel(c, a, r) {
      var name, kind := LinkEnds(c, a, r);
      if DrawnLinkRel(c, a, s) {
        var name', kind' := LinkEnds(c, a, s);
        SameIdSameEnds(r, s, ":" + kind, ":" + kind');
        LinkTargets(c, name, kind, name', kind');
      } else {
        FormedEnds(org, c, a, s);
        SameIdSameEnds(r, s, ":" + kind, "");
      }
    } else {
      FormedEnds(org, c, a, r);
      if DrawnLinkRel(c, a, s) {
        var name', kind' := LinkEnds(c, a, s);
        SameIdSameEnds(r, s, "", ":" + kind');
      } else {
        FormedEnds(org, c, a, s);
        SameIdSameEnds(r, s, "", "");
        assert r.target + "" == r.target && s.target + "" == s.target;
      }
    }
  }

  lemma LinkTargets(c: string, name: string, kind: string, name': string, kind': string)
    requires ColonFree(name) && ColonFree(name')
    requires "concept:" + c + ":" + name + (":" + kind) == "concept:" + c + ":" + name' + (":" + kind')
    ensures name == name'
  {
    var p := "concept:" + c + ":";
    assert p + name + (":" + kind) == p + (name + ":" + kind);
    assert p + name' + (":" + kind') == p + (name' + ":" + kind');
    AfterPrefix(p, name + ":" + kind, name' + ":" + kind');
    hide SplitColon;
    SplitAfter(name, kind);
    SplitAfter(name', kind');
  }

  /** What a build leaves, read off the artifacts: what it draws is there, and anything else was there before. */
  ghost predicate GraphDrawn(nodes0: map<string, Node>, rels0: seq<Rel>, nodes: map<string, Node>, rels: seq<Rel>,
                             org: string, c: string, a: Artifacts) {
    && (forall n | DrawnNode(org, c, a, n) :: n.id in nodes && DrawnNode(org, c, a, nodes[n.id]))
    && (forall id | id in nodes :: DrawnNode(org, c, a, nodes[id]) || (id in nodes0 && nodes[id] == nodes0[id]))
    && (forall r | DrawnRel(org, c, a, r) :: exists x | x in rels :: x.id == r.id && DrawnRel(org, c, a, x))
    && (forall r | r in rels :: DrawnRel(org, c, a, r) || (r in rels0 && r.id !in ProjectedRelIds(org, c, a)))
  }

  lemma NodesDrawn(nodes0: map<string, Node>, nodes: map<string, Node>, org: string, c: string, a: Artifacts)
    requires NodesRebuilt(nodes0, nodes, org, c, a)
    ensures forall n | DrawnNode(org, c, a, n) :: n.id in nodes && DrawnNode(org, c, a, nodes[n.id])
    ensures forall id | id in nodes :: DrawnNode(org, c, a, nodes[id]) || (id in nodes0 && nodes[id] == nodes0[id])
  {
    ProjectionExactly(org, c, a);
    hide ProjectedNodes, ProjectedRels, DrawnNode, DrawnRel, Mine;
    forall n | DrawnNode(org, c, a, n) ensures n.id in nodes && DrawnNode(org, c, a, nodes[n.id]) {
      assert n in ProjectedNodes(org, c, a) && n.id in ProjectedIds(org, c, a);
    }
  }

  lemma RelsDrawn(nodes0: map<string, Node>, rels0: seq<Rel>, nodes: map<string, Node>, rels: seq<Rel>,
                  org: string, c: string, a: Artifacts)
    requires RelsRebuilt(nodes0, rels0, nodes, rels, org, c, a)
    ensures forall r | DrawnRel(org, c, a, r) :: exists x | x in rels :: x.id == r.id && DrawnRel(org, c, a, x)
    ensures forall r | r in rels :: DrawnRel(org, c, a, r) || (r in rels0 && r.id !in ProjectedRelIds(org, c, a))
  {
    ProjectionExactly(org, c, a);
    hide ProjectedNodes, ProjectedRels, DrawnNode, DrawnRel, EndsStay;
    forall r | DrawnRel(org, c, a, r) ensures exists x | x in rels :: x.id == r.id && DrawnRel(org, c, a, x) {
      assert r in ProjectedRels(org, c, a) && r.id in ProjectedRelIds(org, c, a);
      var x :| x in rels && x.id == r.id;
    }
  }

  lemma RebuiltDrawn(nodes0: map<string, Node>, rels0: seq<Rel>, nodes: map<string, Node>, rels: seq<Rel>,
                     org: string, c: string, a: Artifacts)
    requires Rebuilt(nodes0, rels0, nodes, rels, org, c, a)
    ensures GraphDrawn(nodes0, rels0, nodes, rels, org, c, a)
  {
    hide NodesRebuilt, RelsRebuilt, DrawnNode, DrawnRel, ProjectedRelIds;
    NodesDrawn(nodes0, nodes, org, c, a);
    RelsDrawn(nodes0, rels0, nodes, rels, org, c, a);
  }

  /**
   Among the relationships that a build writes, one of a type leads from one node to another exactly when the artifacts
   call for it.
  */
  lemma WrittenExactly(nodes0: map<string, Node>, rels0: seq<Rel>, nodes: map<string, Node>, rels: seq<Rel>,
                       org: string, c: string, a: Artifacts, kind: string, source: string, target: string)
    requires Rebuilt(nodes0, rels0, nodes, rels, org, c, a) && PlainNames(c, a)
    ensures (exists r :: r in rels && r.id in ProjectedRelIds(org, c, a)
                         && r.kind == kind && r.source == source && r.target == target) <==>
            (exists r :: DrawnRel(org, c, a, r) && r.kind == kind && r.source == source && r.target == target)
  {
    hide *;
    if r :| r in rels && r.id in ProjectedRelIds(org, c, a) && r.kind == kind && r.source == source
            && r.target == target
    {
      WrittenIsDrawn(nodes0, rels0, nodes, rels, org, c, a, r);
    }
    if r :| DrawnRel(org, c, a, r) && r.kind == kind && r.source == source && r.target == target {
      var x := DrawnIsWritten(nodes0, rels0, nodes, rels, org, c, a, r);
      IdTellsEnds(org, c, a, r, x);
    }
  }

  lemma WrittenIsDrawn(nodes0: map<string, Node>, rels0: seq<Rel>, nodes: map<string, Node>, rels: seq<Rel>,
                       org: string, c: string, a: Artifacts, r: Rel)
    requires Rebuilt(nodes0, rels0, nodes, rels, org, c, a) && r in rels && r.id in ProjectedRelIds(org, c, a)
    ensures DrawnRel(org, c, a, r)
  {
    RebuiltDrawn(nodes0, rels0, nodes, rels, org, c, a);
    hide ProjectedRelIds, DrawnRel, DrawnNode, Rebuilt;
  }

  lemma DrawnIsWritten(nodes0: map<string, Node>, rels0: seq<Rel>, nodes: map<string, Node>, rels: seq<Rel>,
                       org: string, c: string, a: Artifacts, r: Rel)
    returns (x: Rel)
    requires Rebuilt(nodes0, rels0, nodes, rels, org, c, a) && DrawnRel(org, c, a, r)
    ensures x in rels && x.id == r.id && x.id in ProjectedRelIds(org, c, a) && DrawnRel(org, c, a, x)
  {
    RebuiltDrawn(nodes0, rels0, nodes, rels, org, c, a);
    x :| x in rels && x.id == r.id && DrawnRel(org, c, a, x);
    RelsExactly(org, c, a, x);
    hide ProjectedRels, DrawnRel, DrawnNode, Rebuilt;
  }

  /** A foreign key becomes REFERENCES and any other edge JOINS_WITH, when its two columns are known and differ. */
  lemma EdgesWritten(nodes0: map<string, Node>, rels0: seq<Rel>, nodes: map<string, Node>, rels: seq<Rel>,
                     org: string, c: string, a: Artifacts, kind: string, l: string, r: string)
    requires Rebuilt(nodes0, rels0, nodes, rels, org, c, a) && PlainNames(c, a)
    requires kind in {"REFERENCES", "JOINS_WITH"}
    ensures (exists x :: x in rels && x.id in ProjectedRelIds(org, c, a) && x.kind == kind
                         && x.source == "column:" + c + ":" + l && x.target == "column:" + c + ":" + r) <==>
            (exists e :: e in Edges(a) && (e.kind == "fk" <==> kind == "REFERENCES") && e.left == l && e.right == r
                         && HasMember(a, l) && HasMember(a, r) && l != r)
  {
    WrittenExactly(nodes0, rels0, nodes, rels, org, c, a, kind, "column:" + c + ":" + l, "column:" + c + ":" + r);
    EdgeDrawn(org, c, a, kind, l, r);
  }

  lemma EdgeDrawn(org: string, c: string, a: Artifacts, kind: string, l: string, r: string)
    requires kind in {"REFERENCES", "JOINS_WITH"}
    ensures (exists x :: DrawnRel(org, c, a, x) && x.kind == kind
                         && x.source == "column:" + c + ":" + l && x.target == "column:" + c + ":" + r) <==>
            (exists e :: e in Edges(a) && (e.kind == "fk" <==> kind == "REFERENCES") && e.left == l && e.right == r
                         && HasMember(a, l) && HasMember(a, r) && l != r)
  {
    hide HasTable, HasMember, HasConcept;
    var source, target := "column:" + c + ":" + l, "column:" + c + ":" + r;
    if x :| DrawnRel(org, c, a, x) && x.kind == kind && x.source == source && x.target == target {
      EdgeOfDrawn(org, c, a, x);
      hide DrawnRel;
      var e :| e in a.topology.value && HasMember(a, e.left) && HasMember(a, e.right) && e.left != e.right
        && Spans(x, if e.kind == "fk" then "REFERENCES" else "JOINS_WITH", "column:" + c + ":" + e.left,
                 "column:" + c + ":" + e.right, e.details);
      AfterPrefix("column:" + c + ":", e.left, l);
      AfterPrefix("column:" + c + ":", e.right, r);
    }
    if e :| e in Edges(a) && (e.kind == "fk" <==> kind == "REFERENCES") && e.left == l && e.right == r
            && HasMember(a, l) && HasMember(a, r) && l != r
    {
      var x := DrawnOfEdge(org, c, a, e);
    }
  }

  lemma EdgeOfDrawn(org: string, c: string, a: Artifacts, x: Rel)
    requires DrawnRel(org, c, a, x) && x.kind in {"REFERENCES", "JOINS_WITH"}
    ensures DrawnEdgeRel(c, a, x)
  {
    hide HasTable, HasMember, HasConcept, DrawnEdgeRel;
  }

  lemma EdgeDraws(c: string, a: Artifacts, e: JoinEdge, x: Rel)
    requires e in Edges(a) && HasMember(a, e.left) && HasMember(a, e.right) && e.left != e.right
    requires Spans(x, if e.kind == "fk" then "REFERENCES" else "JOINS_WITH", "column:" + c + ":" + e.left,
                   "column:" + c + ":" + e.right, e.details)
    ensures DrawnEdgeRel(c, a, x)
  {
    hide HasMember, Spans;
  }

  lemma DrawnOfEdge(org: string, c: string, a: Artifacts, e: JoinEdge) returns (x: Rel)
    requires e in Edges(a) && HasMember(a, e.left) && HasMember(a, e.right) && e.left != e.right
    ensures DrawnRel(org, c, a, x) && x.kind == (if e.kind == "fk" then "REFERENCES" else "JOINS_WITH")
    ensures x.source == "column:" + c + ":" + e.left && x.target == "column:" + c + ":" + e.right
  {
    hide HasMember, DrawnEdgeRel, DrawnTableRel, DrawnColumnRel, DrawnMetricRel, DrawnDescribesRel, DrawnLinkRel;
    var kind := if e.kind == "fk" then "REFERENCES" else "JOINS_WITH";
    var source, target := "column:" + c + ":" + e.left, "column:" + c + ":" + e.right;
    x := Rel("rel:" + kind + ":" + source + "->" + target, org, kind, source, target, e.details);
    EdgeDraws(c, a, e, x);
  }

  /** With an arrow in a column's name two foreign keys can share an id, and the later one takes the other's place. */
  lemma ArrowsShareId(c: string, l: string, m: string, r: string)
    ensures RelId("REFERENCES", ColumnId(c, l), ColumnId(c, m + "->" + ColumnId(c, r))) ==
            RelId("REFERENCES", ColumnId(c, l + "->" + ColumnId(c, m)), ColumnId(c, r))
  {
    assert ColumnId(c, m + "->" + ColumnId(c, r)) == ColumnId(c, m) + "->" + ColumnId(c, r);
    assert ColumnId(c, l + "->" + ColumnId(c, m)) == ColumnId(c, l) + "->" + ColumnId(c, m);
    hide ColumnId;
  }
}
