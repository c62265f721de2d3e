/** The logical plan: column references, read nodes, reference normalization and validation. */
module Plan {
  import opened Common
  import opened SearchCondition

  /** A dotted name by its components. */
  type Path = p: seq<string> | |p| > 0 witness [""]

  /**
   A column reference by its parse: `*`, a dotted name by its components, or a whitelisted
   DATE_TRUNC call over a dotted name, with its optional alias.
  */
  datatype Ref = Star | Col(path: Path) | Trunc(unit: string, path: Path, alias: Option<string>)

  datatype Aggregate = Aggregate(function_: string, column: Ref, alias: string)

  datatype Join = Join(table: string, onLeft: Ref, onRight: Option<Ref>, left: bool)

  /** An ORDER BY entry: its text, and how it reads: a position, a DATE_TRUNC call, or a name as its first word. */
  datatype OrderKey = Position(index: nat) | Bucket(unit: string, path: Path, alias: Option<string>) | Named(path: Path)
  datatype OrderEntry = OrderEntry(text: string, key: OrderKey)

  datatype ReadNode = ReadNode(source: string, columns: seq<Ref>, filter: seq<Token>, groupBy: seq<Ref>,
                               having: Option<string>, aggregates: seq<Aggregate>, orderBy: seq<OrderEntry>,
                               limit: Option<nat>, joins: seq<Join>)

  datatype PlanNode = Read(node: ReadNode) | Write(source: string)

  datatype LogicalPlan = LogicalPlan(nodes: seq<PlanNode>)

  datatype Family = Number | Text | Time | Bool | Other

  datatype Catalog = Catalog(tables: set<string>, columns: map<string, set<string>>,
                             types: map<string, map<string, Family>>, dialect: Option<string>)

  predicate ReadOnly(plan: LogicalPlan) {
    forall n | n in plan.nodes :: n.Read?
  }

  // ---- References ----

  /** The text after the last dot of a reference; only plain names and `*` are compared by it. */
  function LastPart(r: Ref): Option<string> {
    match r
    case Star => Some("*")
    case Col(path) => Some(path[|path| - 1])
    case Trunc(_, _, _) => None
  }

  /** `same_plan_ref` */
  predicate SameRef(a: Ref, b: Ref) {
    if a.Trunc? && b.Trunc? then a.unit == b.unit && a.path == b.path
    else LastPart(a).Some? && LastPart(a) == LastPart(b)
  }

  function ColumnsOf(cat: Catalog, table: string): set<string> {
    if table in cat.columns then cat.columns[table] else {}
  }

  function JoinTables(joins: seq<Join>): set<string> {
    set j | j in joins :: j.table
  }

  function Aliases(aggregates: seq<Aggregate>): set<string> {
    set a | a in aggregates :: a.alias
  }

  predicate IsAlias(r: Ref, aggregates: seq<Aggregate>) {
    r.Col? && |r.path| == 1 && r.path[0] in Aliases(aggregates)
  }

  // ---- Normalization of bare references under joins ----

  /** The joins whose table has a column of this name, in order. */
  function Matching(joins: seq<Join>, name: string, cat: Catalog): seq<string> {
    if |joins| == 0 then [] else
      (if name in ColumnsOf(cat, joins[0].table) then [joins[0].table] else []) + Matching(joins[1..], name, cat)
  }

  function NormalizeRef(r: Ref, base: string, joins: seq<Join>, cat: Catalog): (out: Ref)
    ensures !(r.Col? && |r.path| == 1) ==> out == r
  {
    if !r.Col? || |r.path| != 1 || |joins| == 0 || r.path[0] in ColumnsOf(cat, base) then r
    else
      var matches := Matching(joins, r.path[0], cat);
      if |matches| == 1 then Col([matches[0], r.path[0]]) else r
  }

  function NormalizeRefs(rs: seq<Ref>, base: string, joins: seq<Join>, cat: Catalog): (out: seq<Ref>)
    ensures |out| == |rs|
    ensures forall i | 0 <= i < |rs| :: out[i] == NormalizeRef(rs[i], base, joins, cat)
  {
    seq(|rs|, i requires 0 <= i < |rs| => NormalizeRef(rs[i], base, joins, cat))
  }

  function NormalizeNode(n: ReadNode, cat: Catalog): ReadNode {
    if |n.joins| == 0 then n else
      n.(columns := NormalizeRefs(n.columns, n.source, n.joins, cat),
         groupBy := NormalizeRefs(n.groupBy, n.source, n.joins, cat),
         aggregates := seq(|n.aggregates|, i requires 0 <= i < |n.aggregates| =>
           n.aggregates[i].(column := NormalizeRef(n.aggregates[i].column, n.source, n.joins, cat))))
  }

  ghost predicate RefsRewritten(n: ReadNode, out: ReadNode, cat: Catalog) {
    && |out.columns| == |n.columns| && |out.groupBy| == |n.groupBy| && |out.aggregates| == |n.aggregates|
    && (forall i | 0 <= i < |n.columns| :: out.columns[i] == NormalizeRef(n.columns[i], n.source, n.joins, cat))
    && (forall i | 0 <= i < |n.groupBy| :: out.groupBy[i] == NormalizeRef(n.groupBy[i], n.source, n.joins, cat))
    && (forall i | 0 <= i < |n.aggregates| ::
          && out.aggregates[i].column == NormalizeRef(n.aggregates[i].column, n.source, n.joins, cat)
          && out.aggregates[i].function_ == n.aggregates[i].function_
          && out.aggregates[i].alias == n.aggregates[i].alias)
    && out.source == n.source && out.joins == n.joins && out.filter == n.filter && out.having == n.having
    && out.orderBy == n.orderBy && out.limit == n.limit
  }

  /** `_normalize_join_refs` */
  method NormalizeJoinRefs(plan: LogicalPlan, cat: Catalog) returns (out: LogicalPlan)
    ensures |out.nodes| == |plan.nodes|
    ensures forall i | 0 <= i < |plan.nodes| ::
              out.nodes[i] == if plan.nodes[i].Read? then Read(NormalizeNode(plan.nodes[i].node, cat))
                else plan.nodes[i]
    // Under joins each column, grouping entry and aggregate argument is rewritten and nothing else is.
    ensures forall i | 0 <= i < |plan.nodes| && plan.nodes[i].Read? && |plan.nodes[i].node.joins| > 0 ::
              out.nodes[i].Read? && RefsRewritten(plan.nodes[i].node, out.nodes[i].node, cat)
    ensures forall i | 0 <= i < |plan.nodes| && (plan.nodes[i].Write? || |plan.nodes[i].node.joins| == 0) ::
              out.nodes[i] == plan.nodes[i]
  {
    var nodes: seq<PlanNode> := [];
    for i := 0 to |plan.nodes|
      invariant |nodes| == i
      invariant forall k | 0 <= k < i ::
                  nodes[k] == if plan.nodes[k].Read? then Read(NormalizeNode(plan.nodes[k].node, cat))
                    else plan.nodes[k]
    {
      if plan.nodes[i].Write? || |plan.nodes[i].node.joins| == 0 {
        nodes := nodes + [plan.nodes[i]];
      } else {
        nodes := nodes + [Read(NormalizeNode(plan.nodes[i].node, cat))];
      }
    }
    out := LogicalPlan(nodes);
  }

  // ---- Validity ----

  const TRUNC_DIALECTS: set<string> := {"postgres", "duckdb", "clickhouse"}
  const SQL_FUNCTIONS: set<string> := {"count", "count_distinct", "sum", "avg", "min", "max"}

  function AllowedFunctions(dialect: Option<string>): set<string> {
    if dialect.Some? && dialect.value in {"postgres", "mysql", "sqlite", "duckdb"} then SQL_FUNCTIONS
    else SQL_FUNCTIONS + {"uniq"}
  }

  /** The column a dotted or bare name stands for, bare names in the default table. */
  predicate KnownPath(path: Path, default: string, n: ReadNode, cat: Catalog) {
    if |path| == 1 then path[0] in ColumnsOf(cat, default)
    else |path| == 2 && (path[0] == n.source || path[0] in JoinTables(n.joins)) && path[1] in ColumnsOf(cat, path[0])
  }

  predicate KnownRef(r: Ref, default: string, n: ReadNode, cat: Catalog) {
    match r
    case Star => true
    case Col(path) => KnownPath(path, default, n, cat)
    case Trunc(_, path, _) =>
      (cat.dialect.None? || cat.dialect.value in TRUNC_DIALECTS) && KnownPath(path, default, n, cat)
  }

  function TypeOf(r: Ref, default: string, cat: Catalog): Option<Family> {
    if !r.Col? then None else
      var (table, name) := if |r.path| == 1 then (default, r.path[0]) else if |r.path| == 2 then (r.path[0], r.path[1])
        else ("", "");
      if table in cat.types && name in cat.types[table] then Some(cat.types[table][name]) else None
  }

  predicate CompatibleTypes(left: Option<Family>, right: Option<Family>) {
    left.Some? && right.Some? ==> left == right || left.value == Other || right.value == Other
  }

  predicate ValidJoin(j: Join, n: ReadNode, cat: Catalog) {
    && j.table != n.source && j.table in cat.tables
    && KnownRef(j.onLeft, n.source, n, cat)
    && (j.onRight.Some? ==> KnownRef(j.onRight.value, j.table, n, cat))
    && (j.onRight.Some? ==> CompatibleTypes(TypeOf(j.onLeft, n.source, cat), TypeOf(j.onRight.value, j.table, cat)))
  }

  predicate ValidColumn(c: Ref, n: ReadNode, cat: Catalog) {
    IsAlias(c, n.aggregates) || KnownRef(c, n.source, n, cat)
  }

  predicate ValidGroup(g: Ref, n: ReadNode) {
    g in n.columns || IsAlias(g, n.aggregates) || exists c | c in n.columns :: SameRef(g, c)
  }

  /** The names an ORDER BY entry may use: aggregate aliases, last parts of columns, DATE_TRUNC aliases. */
  function Orderable(n: ReadNode): set<string> {
    Aliases(n.aggregates) +
    (set c | c in n.columns && LastPart(c).Some? :: LastPart(c).value) +
    (set c | c in n.columns && c.Trunc? && c.alias.Some? :: c.alias.value)
  }

  predicate ValidOrder(e: OrderEntry, n: ReadNode, cat: Catalog) {
    match e.key
    case Position(_) => true
    case Bucket(_, _, _) => true
    case Named(path) => (|path| == 1 && path[0] in Orderable(n)) || path[|path| - 1] in ColumnsOf(cat, n.source)
  }

  predicate ValidAggregate(a: Aggregate, n: ReadNode, cat: Catalog) {
    && a.function_ in AllowedFunctions(cat.dialect)
    && (a.function_ in {"sum", "avg"} && TypeOf(a.column, n.source, cat).Some? ==>
      TypeOf(a.column, n.source, cat).value == Number)
    && (a.function_ == "count_distinct" ==> a.column != Star)
    && KnownRef(a.column, n.source, n, cat)
  }

  ghost predicate ValidNode(n: ReadNode, cat: Catalog) {
    && n.source in cat.tables
    && (forall j | j in n.joins :: ValidJoin(j, n, cat))
    && (forall c | c in n.columns :: ValidColumn(c, n, cat))
    && (forall g | g in n.groupBy :: ValidGroup(g, n))
    && (forall e | e in n.orderBy :: ValidOrder(e, n, cat))
    && (n.having.Some? ==> |n.aggregates| > 0 && ';' !in n.having.value)
    && (forall a | a in n.aggregates :: ValidAggregate(a, n, cat))
  }

  // ---- What a valid node is, clause by clause ----

  /** The path names a column: a bare one of the table, a dotted one of the source or a joined table. */
  ghost predicate Readable(path: Path, table: string, n: ReadNode, cat: Catalog) {
    exists u, c ::
      && ((path == [c] && u == table) || path == [u, c])
      && (u == n.source || exists j :: j in n.joins && j.table == u)
      && u in cat.columns && c in cat.columns[u]
  }

  /** DATE_TRUNC is known to three dialects, and passes when the dialect is unknown. */
  lemma KnownExactly(r: Ref, table: string, n: ReadNode, cat: Catalog)
    requires table == n.source || exists j :: j in n.joins && j.table == table
    ensures KnownRef(r, table, n, cat) <==>
            r == Star || (Readable(r.path, table, n, cat) &&
                          (r.Col? || cat.dialect == None || cat.dialect.value in {"postgres", "duckdb", "clickhouse"}))
  {
    if !r.Star? {
      var path := r.path;
      if |path| == 1 { assert path == [path[0]]; }
      if |path| == 2 { assert path == [path[0], path[1]]; }
    }
  }

  /** Two columns may be joined unless both types are known, differ, and neither is of no family. */
  lemma JoinableExactly(t: string, c: string, u: string, d: string, cat: Catalog)
    ensures TypeOf(Col([t, c]), u, cat) == TypeOf(Col([c]), t, cat)
    ensures CompatibleTypes(TypeOf(Col([c]), t, cat), TypeOf(Col([d]), u, cat)) <==>
            (t in cat.types && c in cat.types[t] && u in cat.types && d in cat.types[u] ==>
               var (f, g) := (cat.types[t][c], cat.types[u][d]); f == Other || g == Other || f == g)
  {
  }

  /** `uniq` is refused by four dialects, the other functions by none. */
  lemma FunctionsExactly(dialect: Option<string>, f: string)
    ensures f in AllowedFunctions(dialect) <==>
            || f in {"count", "count_distinct", "sum", "avg", "min", "max"}
            || (f == "uniq" && dialect != Some("postgres") && dialect != Some("mysql") && dialect != Some("sqlite")
                && dialect != Some("duckdb"))
  {
  }

  /** Plain references are the same when their last parts are, `*` being its own; buckets in unit and path. */
  lemma SameRefExactly(a: Ref, b: Ref)
    ensures SameRef(a, b) <==>
            match (a, b)
            case (Star, Star) => true
            case (Star, Col(p)) => p[|p| - 1] == "*"
            case (Col(p), Star) => p[|p| - 1] == "*"
            case (Col(p), Col(q)) => p[|p| - 1] == q[|q| - 1]
            case (Trunc(u, p, _), Trunc(v, q, _)) => u == v && p == q
            case _ => false
  {
  }

  /** A name to order by is an aggregate's alias, the last part of a column, a bucket's alias, or ends in a column. */
  lemma OrderExactly(text: string, path: Path, n: ReadNode, cat: Catalog)
    ensures ValidOrder(OrderEntry(text, Named(path)), n, cat) <==>
            || (exists a :: a in n.aggregates && path == [a.alias])
            || (exists c :: c in n.columns && c.Col? && path == [c.path[|c.path| - 1]])
            || (Star in n.columns && path == ["*"])
            || (exists c :: c in n.columns && c.Trunc? && c.alias.Some? && path == [c.alias.value])
            || (n.source in cat.columns && path[|path| - 1] in cat.columns[n.source])
    ensures forall i :: ValidOrder(OrderEntry(text, Position(i)), n, cat)
    ensures forall u, p, a :: ValidOrder(OrderEntry(text, Bucket(u, p, a)), n, cat)
  {
    var names := path[0] in Orderable(n);
    if |path| == 1 {
      assert path == [path[0]];
      if names {
        if path[0] in Aliases(n.aggregates) {
          var a :| a in n.aggregates && a.alias == path[0];
        } else if c :| c in n.columns && LastPart(c) == Some(path[0]) {
          assert c.Star? || path == [c.path[|c.path| - 1]];
        } else {
          var c :| c in n.columns && c.Trunc? && c.alias == Some(path[0]);
        }
      }
    }
    if a :| a in n.aggregates && path == [a.alias] { assert path[0] in Aliases(n.aggregates); }
    if c :| c in n.columns && c.Col? && path == [c.path[|c.path| - 1]] { assert LastPart(c) == Some(path[0]); }
    if Star in n.columns && path == ["*"] { assert LastPart(Star) == Some(path[0]); }
  }

  method ValidateNode(n: ReadNode, cat: Catalog) returns (res: Result<()>)
    ensures res == if ValidNode(n, cat) then Ok(()) else Err(PlanInvalid)
  {
    if n.source !in cat.tables {
      return Err(PlanInvalid);
    }
    for i := 0 to |n.joins|
      invariant forall k | 0 <= k < i :: ValidJoin(n.joins[k], n, cat)
    {
      var j := n.joins[i];
      assert j in n.joins;
      if j.table == n.source || j.table !in cat.tables || !KnownRef(j.onLeft, n.source, n, cat) {
        return Err(PlanInvalid);
      }
      if j.onRight.Some? {
        if !KnownRef(j.onRight.value, j.table, n, cat) {
          return Err(PlanInvalid);
        }
        if !CompatibleTypes(TypeOf(j.onLeft, n.source, cat), TypeOf(j.onRight.value, j.table, cat)) {
          return Err(PlanInvalid);
        }
      }
    }
    for i := 0 to |n.columns|
      invariant forall k | 0 <= k < i :: ValidColumn(n.columns[k], n, cat)
    {
      assert n.columns[i] in n.columns;
      if !IsAlias(n.columns[i], n.aggregates) && !KnownRef(n.columns[i], n.source, n, cat) {
        return Err(PlanInvalid);
      }
    }
    for i := 0 to |n.groupBy|
      invariant forall k | 0 <= k < i :: ValidGroup(n.groupBy[k], n)
    {
      var g := n.groupBy[i];
      assert g in n.groupBy;
      if g !in n.columns && !IsAlias(g, n.aggregates) && forall c | c in n.columns :: !SameRef(g, c) {
        return Err(PlanInvalid);
      }
    }
    for i := 0 to |n.orderBy|
      invariant forall k | 0 <= k < i :: ValidOrder(n.orderBy[k], n, cat)
    {
      assert n.orderBy[i] in n.orderBy;
      if !ValidOrder(n.orderBy[i], n, cat) {
        return Err(PlanInvalid);
      }
    }
    if n.having.Some? && (|n.aggregates| == 0 || ';' in n.having.value) {
      return Err(PlanInvalid);
    }
    for i := 0 to |n.aggregates|
      invariant forall k | 0 <= k < i :: ValidAggregate(n.aggregates[k], n, cat)
    {
      var a := n.aggregates[i];
      assert a in n.aggregates;
      if a.function_ !in AllowedFunctions(cat.dialect) {
        return Err(PlanInvalid);
      }
      if a.function_ in {"sum", "avg"} && a.column != Star && TypeOf(a.column, n.source, cat).Some?
         && TypeOf(a.column, n.source, cat).value != Number {
        return Err(PlanInvalid);
      }
      if a.function_ == "count_distinct" && a.column == Star {
        return Err(PlanInvalid);
      }
      if a.column != Star && !KnownRef(a.column, n.source, n, cat) {
        return Err(PlanInvalid);
      }
    }
    res := Ok(());
  }

  /** `validate_plan`: every read node is valid, write nodes are passed over, an empty plan is refused. */
  method ValidatePlan(plan: LogicalPlan, cat: Catalog) returns (res: Result<()>)
    ensures res == if |plan.nodes| > 0 && forall n | n in plan.nodes && n.Read? :: ValidNode(n.node, cat)
                   then Ok(()) else Err(PlanInvalid)
  {
    if |plan.nodes| == 0 {
      return Err(PlanInvalid);
    }
    for i := 0 to |plan.nodes|
      invariant forall k | 0 <= k < i && plan.nodes[k].Read? :: ValidNode(plan.nodes[k].node, cat)
    {
      if plan.nodes[i].Read? {
        var checked := ValidateNode(plan.nodes[i].node, cat);
        if checked.Err? {
          assert plan.nodes[i] in plan.nodes;
          return checked;
        }
      }
    }
    res := Ok(());
  }
}
