/** The plan-to-SQL compiler, what a read node means, and when the statement it compiles to means the same. */
module Compile {
  import opened Common
  import opened SearchCondition
  import opened Plan
  import S = Sql

  const DEFAULT_LIMIT: nat := 10

  // ---- The compiler ----

  /** A DATE_TRUNC call as text; it is never the name of a column. */
  function TruncText(r: Ref): string
    requires r.Trunc?
  {
    "date_trunc('" + r.unit + "'," + r.path[|r.path| - 1] + ")"
  }

  /** `_qualified`: a bare name gets the base table when the query joins. */
  function Qualified(r: Ref, base: string, hasJoins: bool): S.Expr {
    match r
    case Star => S.AllColumns
    case Col(path) => S.Column(if hasJoins && |path| == 1 then [base, path[0]] else path)
    case Trunc(unit, path, alias) => S.Truncated(unit, path, alias)
  }

  /** One side of a join condition: the reference as written when it has a dot, under the table otherwise. */
  function JoinSide(r: Ref, table: string): S.Expr {
    match r
    case Star => S.Column([table, "*"])
    case Col(path) => S.Column(if |path| == 1 then [table, path[0]] else path)
    case Trunc(unit, path, alias) => if |path| == 1 then S.Column([table, TruncText(r)])
      else S.Truncated(unit, path, alias)
  }

  /** The text after the last dot of the left side stands in for a missing right side. */
  function DefaultRight(j: Join): S.Expr {
    match j.onLeft
    case Star => S.Column([j.table, "*"])
    case Col(path) => S.Column([j.table, path[|path| - 1]])
    case Trunc(_, path, _) => S.Column([j.table, if |path| == 1 then TruncText(j.onLeft) else path[|path| - 1] + ")"])
  }

  function CompiledJoin(j: Join, base: string): S.JoinClause {
    S.JoinClause(j.left, j.table, JoinSide(j.onLeft, base), if j.onRight.Some? then JoinSide(j.onRight.value, j.table)
      else DefaultRight(j))
  }

  /** With aggregates, a select column stays only when some GROUP BY entry is the same reference. */
  predicate Stays(c: Ref, n: ReadNode) {
    |n.aggregates| == 0 || exists g | g in n.groupBy :: SameRef(c, g)
  }

  function StayingColumns(columns: seq<Ref>, n: ReadNode): (out: seq<Ref>)
    ensures forall c :: c in out <==> c in columns && Stays(c, n)
  {
    if |columns| == 0 then [] else
      StayingColumns(columns[..|columns| - 1], n) +
      if Stays(columns[|columns| - 1], n) then [columns[|columns| - 1]] else []
  }

  function CompiledCall(a: Aggregate, base: string, hasJoins: bool): S.Item {
    var arg := Qualified(a.column, base, hasJoins);
    if a.function_ == "count_distinct" then S.Call("count", true, arg, a.alias)
      else S.Call(a.function_, false, arg, a.alias)
  }

  function PlainItems(columns: seq<Ref>, base: string, hasJoins: bool): seq<S.Item> {
    S.Each(columns, (c: Ref) => S.Plain(Qualified(c, base, hasJoins)))
  }

  function Calls(aggregates: seq<Aggregate>, base: string, hasJoins: bool): seq<S.Item> {
    S.Each(aggregates, (a: Aggregate) => CompiledCall(a, base, hasJoins))
  }

  function Limit(n: ReadNode): nat {
    if n.limit.Some? && n.limit.value > 0 then n.limit.value else DEFAULT_LIMIT
  }

  /** ORDER BY entries are written as they are: a bare name stays bare under joins. */
  function CompiledOrder(e: OrderEntry): S.SortSpec {
    S.SortSpec(e.text, match e.key
      case Position(i) => S.Nth(i)
      case Bucket(unit, path, alias) => S.ByExpr(S.Truncated(unit, path, alias))
      case Named(path) => S.ByExpr(S.Column(path)))
  }

  function Compiled(n: ReadNode): S.Select {
    var hasJoins := |n.joins| > 0;
    S.Select(
      PlainItems(StayingColumns(n.columns, n), n.source, hasJoins) + Calls(n.aggregates, n.source, hasJoins),
      n.source,
      S.Each(n.joins, (j: Join) => CompiledJoin(j, n.source)),
      n.filter,
      S.Each(n.groupBy, (g: Ref) => Qualified(g, n.source, hasJoins)),
      n.having,
      S.Each(n.orderBy, (e: OrderEntry) => CompiledOrder(e)),
      Limit(n))
  }

  /** The select list: the columns that stay, then the aggregate calls. */
  method CompileItems(n: ReadNode) returns (items: seq<S.Item>)
    ensures items == Compiled(n).items
  {
    hide Stays, Qualified, CompiledCall, Limit, CompiledJoin, CompiledOrder;
    var hasJoins := |n.joins| > 0;
    var selectCols: seq<Ref> := [];
    for i := 0 to |n.columns|
      invariant selectCols == StayingColumns(n.columns[..i], n)
    {
      if Stays(n.columns[i], n) {
        selectCols := selectCols + [n.columns[i]];
      }
      assert n.columns[..i + 1][..i] == n.columns[..i];
    }
    assert n.columns[..|n.columns|] == n.columns;
    items := PlainItems(selectCols, n.source, hasJoins);
    for i := 0 to |n.aggregates|
      invariant items == PlainItems(selectCols, n.source, hasJoins) + Calls(n.aggregates[..i], n.source, hasJoins)
    {
      items := items + [CompiledCall(n.aggregates[i], n.source, hasJoins)];
    }
    assert n.aggregates[..|n.aggregates|] == n.aggregates;
  }

  /** `compile_sql`: the first node of a read-only plan. */
  method CompileSql(plan: LogicalPlan) returns (res: Result<S.Select>)
    ensures !ReadOnly(plan) ==> res == Err(Validation)
    ensures ReadOnly(plan) && |plan.nodes| == 0 ==> res == Err(PlanInvalid)
    ensures ReadOnly(plan) && |plan.nodes| > 0 ==>
              && res == Ok(Compiled(plan.nodes[0].node))
              && res.value.limit == match plan.nodes[0].node.limit
                                    case None => 10
                                    case Some(k) => if k == 0 then 10 else k
  {
    if !ReadOnly(plan) {
      return Err(Validation);
    }
    if |plan.nodes| == 0 {
      return Err(PlanInvalid);
    }
    assert plan.nodes[0] in plan.nodes;
    var n := plan.nodes[0].node;
    hide ReadOnly, Qualified, CompiledJoin, CompiledOrder, StayingColumns, PlainItems, Calls;
    var items := CompileItems(n);
    var joins: seq<S.JoinClause> := [];
    for i := 0 to |n.joins|
      invariant joins == S.Each(n.joins[..i], (j: Join) => CompiledJoin(j, n.source))
    {
      joins := joins + [CompiledJoin(n.joins[i], n.source)];
    }
    assert n.joins[..|n.joins|] == n.joins;
    var grouped := S.Each(n.groupBy, (g: Ref) => Qualified(g, n.source, |n.joins| > 0));
    var ordered := S.Each(n.orderBy, (e: OrderEntry) => CompiledOrder(e));
    res := Ok(S.Select(items, n.source, joins, n.filter, grouped, n.having, ordered, Limit(n)));
  }

  // ---- What a read node means: bare names are columns of the base table ----

  datatype Target = ColumnOf(table: string, name: string) | BucketOf(unit: string, table: string, name: string)
    | Nothing

  function Denoted(r: Ref, default: string): Target {
    match r
    case Star => Nothing
    case Col(path) => if |path| == 1 then ColumnOf(default, path[0])
      else if |path| == 2 then ColumnOf(path[0], path[1]) else Nothing
    case Trunc(unit, path, _) =>
      if |path| == 1 then BucketOf(unit, default, path[0]) else if |path| == 2 then BucketOf(unit, path[0], path[1])
        else Nothing
  }

  function TargetOut(t: Target, env: S.Env, m: S.Meaning): S.Out {
    match t
    case ColumnOf(table, name) => S.One(S.At(env, table, name))
    case BucketOf(unit, table, name) => S.One(m.trunc(unit, S.At(env, table, name)))
    case Nothing => S.Every(env)
  }

  /** The right side of a join condition: as given, or the left side's column name in the joined table. */
  function RightTarget(j: Join): Target {
    if j.onRight.Some? then Denoted(j.onRight.value, j.table)
    else if j.onLeft.Col? then ColumnOf(j.table, j.onLeft.path[|j.onLeft.path| - 1]) else Nothing
  }

  function JoinCondition(j: Join, base: string, m: S.Meaning): S.Env -> bool {
    (env: S.Env) => S.EqualCells(TargetOut(Denoted(j.onLeft, base), env, m), TargetOut(RightTarget(j), env, m))
  }

  function JoinedRows(n: ReadNode, cat: Catalog, db: S.Database, m: S.Meaning, k: nat): seq<S.Env>
    requires k <= |n.joins|
  {
    if k == 0 then S.Each(S.Rows(db, n.source), (row: S.TableRow) => map[n.source := row])
    else
      var j := n.joins[k - 1];
      S.JoinRows(JoinedRows(n, cat, db, m, k - 1), S.Rows(db, j.table), j.table, S.Blank(ColumnsOf(cat, j.table)),
                 j.left, JoinCondition(j, n.source, m))
  }

  /** Under aggregates, select columns that are not grouped are dropped. */
  predicate IsGrouped(c: Ref, n: ReadNode) {
    |n.aggregates| == 0 || exists g | g in n.groupBy :: Denoted(c, n.source) == Denoted(g, n.source)
  }

  function KeptColumns(columns: seq<Ref>, n: ReadNode): seq<Ref> {
    if |columns| == 0 then [] else
      KeptColumns(columns[..|columns| - 1], n) +
      if IsGrouped(columns[|columns| - 1], n) then [columns[|columns| - 1]] else []
  }

  function AggregateOut(a: Aggregate, n: ReadNode, unit: seq<S.Env>, m: S.Meaning): S.Out {
    var (f, distinct) := if a.function_ == "count_distinct" then ("count", true) else (a.function_, false);
    S.One(m.aggregate(f, distinct, S.Each(unit, (env: S.Env) => TargetOut(Denoted(a.column, n.source), env, m))))
  }

  function ColumnOut(c: Ref, n: ReadNode, unit: seq<S.Env>, m: S.Meaning): S.Out {
    if |unit| == 0 then S.One(S.Null) else TargetOut(Denoted(c, n.source), unit[0], m)
  }

  function NodeOuts(n: ReadNode, m: S.Meaning): seq<S.Env> -> seq<S.Out> {
    (unit: seq<S.Env>) =>
      S.Each(KeptColumns(n.columns, n), (c: Ref) => ColumnOut(c, n, unit, m)) +
      S.Each(n.aggregates, (a: Aggregate) => AggregateOut(a, n, unit, m))
  }

  function NodeKey(n: ReadNode, m: S.Meaning): S.Env -> seq<S.Out> {
    (env: S.Env) => S.Each(n.groupBy, (g: Ref) => TargetOut(Denoted(g, n.source), env, m))
  }

  /** The rows in the order that ORDER BY gives them, all of them. */
  function OrderedRows(n: ReadNode, cat: Catalog, db: S.Database, m: S.Meaning): seq<seq<S.Out>> {
    var envs := S.Keep(JoinedRows(n, cat, db, m, |n.joins|), S.WhereCondition(n.filter, m));
    var units := S.Units(envs, |n.groupBy| > 0 || |n.aggregates| > 0, n.groupBy == [], NodeKey(n, m));
    S.Sorted(units, NodeOuts(n, m), n.having, S.Each(n.orderBy, (e: OrderEntry) => e.text), m)
  }

  // ---- When the compiled statement is well formed ----

  function SchemaOf(cat: Catalog): S.Schema {
    S.Schema(cat.tables, cat.columns)
  }

  /** Column names are plain identifiers. */
  ghost predicate PlainCatalog(cat: Catalog) {
    forall t, c | c in ColumnsOf(cat, t) :: '*' !in c && ')' !in c
  }

  /** The tables a join condition may use: the base and the joins up to its own. */
  function TablesUpTo(n: ReadNode, k: nat): set<string>
    requires k <= |n.joins|
  {
    {n.source} + JoinTables(n.joins[..k])
  }

  /**
   A side of the k-th join condition is a column of a table joined by then, with its table named if it is a bucket.
  */
  predicate SideInScope(r: Ref, n: ReadNode, k: nat)
    requires k < |n.joins|
  {
    !r.Star? && (|r.path| == 1 ==> r.Col?) && (|r.path| == 2 ==> r.path[0] in TablesUpTo(n, k + 1))
      && (r.Trunc? ==> r.alias.None?)
  }

  predicate JoinInScope(n: ReadNode, k: nat, cat: Catalog)
    requires k < |n.joins|
  {
    var j := n.joins[k];
    && SideInScope(j.onLeft, n, k)
    && if j.onRight.Some? then SideInScope(j.onRight.value, n, k)
       else j.onLeft.Col? && j.onLeft.path[|j.onLeft.path| - 1] in ColumnsOf(cat, j.table)
  }

  /** A bare DATE_TRUNC is not qualified, so under joins no joined table may have its column. */
  predicate Unambiguous(r: Ref, n: ReadNode, cat: Catalog) {
    r.Trunc? && |r.path| == 1 ==> forall j | j in n.joins :: r.path[0] !in ColumnsOf(cat, j.table)
  }

  predicate NamesColumn(r: Ref, n: ReadNode, cat: Catalog) {
    !r.Star? && KnownPath(r.path, n.source, n, cat) && Unambiguous(r, n, cat)
  }

  function Tables(joins: seq<Join>): seq<string> {
    S.Each(joins, (j: Join) => j.table)
  }

  /** The column a name of an ORDER BY entry reads: a bare name, that of the only table of the query that has it. */
  function SortColumn(path: Path, n: ReadNode, cat: Catalog): Option<(string, string)> {
    if |path| == 1 then
      var owners := (if path[0] in ColumnsOf(cat, n.source) then [n.source] else []) + Matching(n.joins, path[0], cat);
      if |owners| == 1 then Some((owners[0], path[0])) else None
    else if |path| == 2 && (path[0] == n.source || path[0] in JoinTables(n.joins))
      && path[1] in ColumnsOf(cat, path[0]) then
      Some((path[0], path[1]))
    else None
  }

  /** How many output columns a select column yields, all in all or under one name. */
  function ColumnWidth(c: Ref, name: Option<string>, n: ReadNode, cat: Catalog): nat {
    match c
    case Star => S.StarWidth([n.source] + Tables(n.joins), name, SchemaOf(cat))
    case Col(path) => if name.None? || name.value == path[|path| - 1] then 1 else 0
    case Trunc(_, _, alias) => if name.None? || name == alias then 1 else 0
  }

  function ColumnsWidth(columns: seq<Ref>, name: Option<string>, n: ReadNode, cat: Catalog): nat {
    if |columns| == 0 then 0 else
      ColumnsWidth(columns[..|columns| - 1], name, n, cat) + ColumnWidth(columns[|columns| - 1], name, n, cat)
  }

  function AggregatesWidth(aggregates: seq<Aggregate>, name: Option<string>): nat {
    if |aggregates| == 0 then 0 else
      AggregatesWidth(aggregates[..|aggregates| - 1], name) +
      if name.None? || name.value == aggregates[|aggregates| - 1].alias then 1 else 0
  }

  function NodeWidth(n: ReadNode, name: Option<string>, cat: Catalog): nat {
    ColumnsWidth(StayingColumns(n.columns, n), name, n, cat) + AggregatesWidth(n.aggregates, name)
  }

  predicate HasGroups(n: ReadNode) {
    |n.groupBy| > 0 || |n.aggregates| > 0
  }

  /**
   An ORDER BY entry is a position within the output, the name of one output column, or a name that is read and
   grouped.
  */
  predicate OrderInScope(k: OrderKey, n: ReadNode, cat: Catalog) {
    match k
    case Position(i) => 1 <= i <= NodeWidth(n, None, cat)
    case Bucket(unit, path, alias) =>
      var r := SortColumn(path, n, cat);
      && alias.None? && r.Some?
      && (HasGroups(n) ==> exists g | g in n.groupBy :: Denoted(g, n.source) == BucketOf(unit, r.value.0, r.value.1))
    case Named(path) =>
      var outputs := if |path| == 1 then NodeWidth(n, Some(path[0]), cat) else 0;
      if outputs > 0 then outputs == 1
      else
        var r := SortColumn(path, n, cat);
        && r.Some?
        && (HasGroups(n) ==> exists g | g in n.groupBy :: Denoted(g, n.source) == ColumnOf(r.value.0, r.value.1))
  }

  /** What a caller can check on a valid node before compiling it. */
  ghost predicate Compilable(n: ReadNode, cat: Catalog) {
    && |n.columns| + |n.aggregates| > 0
    && NoDuplicates(S.Each(n.joins, (j: Join) => j.table))
    && (forall k | 0 <= k < |n.joins| :: JoinInScope(n, k, cat))
    && (n.filter != [] ==> Parse(n.filter).Some?)
    && (forall c | c in n.columns && Stays(c, n) :: c.Star? || NamesColumn(c, n, cat))
    && (forall a | a in n.aggregates ::
          if a.column.Star? then a.function_ == "count"
            else NamesColumn(a.column, n, cat) && (a.column.Trunc? ==> a.column.alias.None?))
    && (forall g | g in n.groupBy :: NamesColumn(g, n, cat) && (g.Trunc? ==> g.alias.None?))
    && (|n.groupBy| > 0 || |n.aggregates| > 0 ==>
          forall c | c in n.columns && Stays(c, n) :: exists g | g in n.groupBy ::
            Denoted(c, n.source) == Denoted(g, n.source))
    && (forall e | e in n.orderBy :: OrderInScope(e.key, n, cat))
  }

  // ---- Names in the compiled statement ----

  /** The scope after k joins. */
  function ScopeAt(n: ReadNode, k: nat): seq<string>
    requires k <= |n.joins|
  {
    [n.source] + Tables(n.joins)[..k]
  }

  lemma ScopeOfCompiled(n: ReadNode, k: nat)
    requires k <= |n.joins|
    ensures S.Scope(Compiled(n), k) == ScopeAt(n, k)
    ensures forall t :: t in ScopeAt(n, k) <==> t in TablesUpTo(n, k)
  {
    forall t ensures t in ScopeAt(n, k) <==> t in TablesUpTo(n, k) {
      if t in TablesUpTo(n, k) && t != n.source {
        var i :| 0 <= i < k && n.joins[i].table == t;
        assert Tables(n.joins)[..k][i] == t;
      }
    }
  }

  lemma {:induction false} CandidateMembers(scope: seq<string>, name: string, schema: S.Schema)
    ensures forall t :: t in S.Candidates(scope, name, schema) <==> t in scope && name in S.ColumnsIn(schema, t)
  {
    if |scope| > 0 {
      CandidateMembers(scope[1..], name, schema);
      assert scope == [scope[0]] + scope[1..];
    }
  }

  /** A bare name that the base table has is unambiguous exactly when no other table has it. */
  lemma BareResolves(base: string, rest: seq<string>, name: string, schema: S.Schema)
    requires name in S.ColumnsIn(schema, base)
    ensures S.Resolve([name], [base] + rest, schema) ==
            if forall t | t in rest :: name !in S.ColumnsIn(schema, t) then Some((base, name)) else None
  {
    var scope := [base] + rest;
    CandidateMembers(rest, name, schema);
    assert scope[1..] == rest;
    var others := S.Candidates(rest, name, schema);
    assert S.Candidates(scope, name, schema) == [base] + others;
    if |others| > 0 { assert others[0] in rest && name in S.ColumnsIn(schema, others[0]); }
  }

  function Location(path: Path, default: string): (string, string) {
    if |path| == 1 then (default, path[0]) else (path[0], path[1])
  }

  /** Qualified plain names resolve in the full scope exactly when the plan knows them, and to what it denotes. */
  lemma ColumnResolves(r: Ref, n: ReadNode, cat: Catalog)
    requires r.Col?
    ensures S.Resolve(Qualified(r, n.source, |n.joins| > 0).path, ScopeAt(n, |n.joins|), SchemaOf(cat)) ==
            if KnownPath(r.path, n.source, n, cat) then Some(Location(r.path, n.source)) else None
  {
    ScopeOfCompiled(n, |n.joins|);
    assert n.joins[..|n.joins|] == n.joins;
    if |n.joins| == 0 && |r.path| == 1 {
      assert ScopeAt(n, 0) == [n.source] + [];
      assert r.path == [r.path[0]];
      CandidateMembers(ScopeAt(n, 0), r.path[0], SchemaOf(cat));
      if r.path[0] in ColumnsOf(cat, n.source) {
        BareResolves(n.source, [], r.path[0], SchemaOf(cat));
      } else {
        assert forall t | t in S.Candidates(ScopeAt(n, 0), r.path[0], SchemaOf(cat)) :: t == n.source;
      }
    }
  }

  lemma SharedByJoins(n: ReadNode, cat: Catalog, name: string)
    ensures (forall t | t in Tables(n.joins) :: name !in ColumnsOf(cat, t))
            <==> forall j | j in n.joins :: name !in ColumnsOf(cat, j.table)
  {
    hide ColumnsOf;
    var rest := Tables(n.joins);
    if forall t | t in rest :: name !in ColumnsOf(cat, t) {
      forall j | j in n.joins ensures name !in ColumnsOf(cat, j.table) {
        var i :| 0 <= i < |n.joins| && n.joins[i] == j;
        assert rest[i] == j.table && rest[i] in rest;
      }
    }
    if forall j | j in n.joins :: name !in ColumnsOf(cat, j.table) {
      forall t | t in rest ensures name !in ColumnsOf(cat, t) {
        var i :| 0 <= i < |rest| && rest[i] == t;
        assert n.joins[i] in n.joins;
      }
    }
  }

  lemma BareBucketResolves(r: Ref, n: ReadNode, cat: Catalog)
    requires r.Trunc? && |r.path| == 1 && r.path[0] in ColumnsOf(cat, n.source)
    ensures S.Resolve(r.path, [n.source] + Tables(n.joins), SchemaOf(cat)) ==
            if Unambiguous(r, n, cat) then Some((n.source, r.path[0])) else None
  {
    var rest := Tables(n.joins);
    assert r.path == [r.path[0]];
    BareResolves(n.source, rest, r.path[0], SchemaOf(cat));
    SharedByJoins(n, cat, r.path[0]);
    hide S.Resolve, Tables;
    assert forall t :: S.ColumnsIn(SchemaOf(cat), t) == ColumnsOf(cat, t);
  }

  lemma BucketResolves(r: Ref, n: ReadNode, cat: Catalog)
    requires r.Trunc? && KnownPath(r.path, n.source, n, cat)
    ensures S.Resolve(r.path, ScopeAt(n, |n.joins|), SchemaOf(cat)) ==
            if Unambiguous(r, n, cat) then Some(Location(r.path, n.source)) else None
  {
    ScopeOfCompiled(n, |n.joins|);
    assert n.joins[..|n.joins|] == n.joins;
    if |r.path| == 1 {
      assert ScopeAt(n, |n.joins|) == [n.source] + Tables(n.joins);
      hide S.Resolve, ScopeAt, Unambiguous;
      BareBucketResolves(r, n, cat);
    }
  }

  /** In a valid node every DATE_TRUNC is over a known column. */
  lemma BucketsKnown(n: ReadNode, cat: Catalog, r: Ref)
    requires ValidNode(n, cat) && r.Trunc?
    requires r in n.columns || r in n.groupBy || exists a | a in n.aggregates :: a.column == r
    ensures KnownPath(r.path, n.source, n, cat)
  {
  }

  /** A reference of a valid node resolves exactly when it names a column, and then to what it denotes. */
  lemma RefResolves(r: Ref, n: ReadNode, cat: Catalog)
    requires ValidNode(n, cat) && !r.Star?
    requires r in n.columns || r in n.groupBy || exists a | a in n.aggregates :: a.column == r
    ensures var path := Qualified(r, n.source, |n.joins| > 0).path;
            S.Resolve(path, ScopeAt(n, |n.joins|), SchemaOf(cat)) ==
            if NamesColumn(r, n, cat) then Some(Location(r.path, n.source)) else None
  {
    if r.Col? {
      ColumnResolves(r, n, cat);
    } else {
      BucketsKnown(n, cat, r);
      BucketResolves(r, n, cat);
    }
  }

  lemma RefOut(r: Ref, n: ReadNode, cat: Catalog, env: S.Env, m: S.Meaning)
    requires ValidNode(n, cat)
    requires r in n.columns || r in n.groupBy || exists a | a in n.aggregates :: a.column == r
    requires r.Star? || NamesColumn(r, n, cat)
    ensures S.ExprOut(Qualified(r, n.source, |n.joins| > 0), ScopeAt(n, |n.joins|), SchemaOf(cat), env, m)
            == TargetOut(Denoted(r, n.source), env, m)
  {
    if !r.Star? { RefResolves(r, n, cat); }
  }

  // ---- The compiled statement is well formed exactly when the node is compilable ----

  lemma NotAColumn(cat: Catalog, table: string, name: string)
    requires PlainCatalog(cat) && ('*' in name || ')' in name)
    ensures name !in S.ColumnsIn(SchemaOf(cat), table)
  {
    assert name !in ColumnsOf(cat, table);
  }

  /** A star or a bare bucket on a join side is compiled to a name that no table can have. */
  lemma SideUnresolved(r: Ref, default: string, n: ReadNode, k: nat, cat: Catalog)
    requires k < |n.joins| && PlainCatalog(cat) && (r.Star? || (r.Trunc? && |r.path| == 1))
    ensures !S.Operand(JoinSide(r, default), ScopeAt(n, k + 1), SchemaOf(cat))
  {
    hide ScopeAt, PlainCatalog, SchemaOf;
    if r.Star? {
      assert "*"[0] == '*';
      NotAColumn(cat, default, "*");
    } else {
      var text := TruncText(r);
      assert text[|text| - 1] == ')';
      NotAColumn(cat, default, text);
    }
  }

  lemma TwoPartResolves(path: seq<string>, scope: seq<string>, schema: S.Schema)
    requires |path| == 2 && path[1] in S.ColumnsIn(schema, path[0])
    ensures S.Resolve(path, scope, schema) == if path[0] in scope then Some((path[0], path[1])) else None
  {
  }

  lemma SideResolves(r: Ref, default: string, n: ReadNode, k: nat, cat: Catalog)
    requires k < |n.joins| && PlainCatalog(cat) && KnownRef(r, default, n, cat)
    requires default == n.source || default == n.joins[k].table
    ensures S.Operand(JoinSide(r, default), ScopeAt(n, k + 1), SchemaOf(cat)) <==> SideInScope(r, n, k)
    ensures SideInScope(r, n, k) ==>
              S.Resolve(JoinSide(r, default).path, ScopeAt(n, k + 1), SchemaOf(cat)) == Some(Location(r.path, default))
  {
    if r.Star? || (r.Trunc? && |r.path| == 1) {
      SideUnresolved(r, default, n, k, cat);
    } else {
      ScopeOfCompiled(n, k + 1);
      assert n.joins[..k + 1][k] == n.joins[k];
      assert default in TablesUpTo(n, k + 1);
      var path := JoinSide(r, default).path;
      assert |path| == 2 && path == [Location(r.path, default).0, Location(r.path, default).1];
      assert path[1] in S.ColumnsIn(SchemaOf(cat), path[0]);
      hide Compiled, ScopeAt, PlainCatalog, TruncText, TablesUpTo, JoinTables, Tables, KnownRef, SchemaOf, S.Resolve;
      TwoPartResolves(path, ScopeAt(n, k + 1), SchemaOf(cat));
    }
  }

  lemma DefaultRightResolves(n: ReadNode, k: nat, cat: Catalog)
    requires k < |n.joins| && PlainCatalog(cat) && n.joins[k].onRight.None?
    ensures var j := n.joins[k];
            S.Operand(DefaultRight(j), ScopeAt(n, k + 1), SchemaOf(cat))
            <==> j.onLeft.Col? && j.onLeft.path[|j.onLeft.path| - 1] in ColumnsOf(cat, j.table)
  {
    var j := n.joins[k];
    ScopeOfCompiled(n, k + 1);
    assert n.joins[..k + 1][k] == j;
    assert j.table in TablesUpTo(n, k + 1);
    if !j.onLeft.Col? {
      var text := DefaultRight(j).path[1];
      assert if j.onLeft.Trunc? then text[|text| - 1] == ')' else text[0] == '*';
      NotAColumn(cat, j.table, text);
    }
  }

  lemma JoinResolves(n: ReadNode, k: nat, cat: Catalog)
    requires ValidNode(n, cat) && PlainCatalog(cat) && k < |n.joins|
    ensures var j := Compiled(n).joins[k];
            S.Operand(j.left, ScopeAt(n, k + 1), SchemaOf(cat)) && S.Operand(j.right, ScopeAt(n, k + 1), SchemaOf(cat))
            <==> JoinInScope(n, k, cat)
  {
    var j := n.joins[k];
    assert ValidJoin(j, n, cat);
    SideResolves(j.onLeft, n.source, n, k, cat);
    if j.onRight.Some? { SideResolves(j.onRight.value, j.table, n, k, cat); } else { DefaultRightResolves(n, k, cat); }
  }

  predicate CallNames(a: Aggregate, n: ReadNode, cat: Catalog) {
    if a.column.Star? then a.function_ == "count"
      else NamesColumn(a.column, n, cat) && (a.column.Trunc? ==> a.column.alias.None?)
  }

  lemma ColumnNamed(c: Ref, n: ReadNode, cat: Catalog)
    requires ValidNode(n, cat) && c in n.columns
    ensures S.ItemNamed(S.Plain(Qualified(c, n.source, |n.joins| > 0)), ScopeAt(n, |n.joins|), SchemaOf(cat)) <==>
            c.Star? || NamesColumn(c, n, cat)
  {
    hide S.Resolve, ScopeAt, SchemaOf, ValidNode, NamesColumn;
    if !c.Star? { RefResolves(c, n, cat); }
  }

  lemma CallNamed(a: Aggregate, n: ReadNode, cat: Catalog)
    requires ValidNode(n, cat) && a in n.aggregates
    ensures S.ItemNamed(CompiledCall(a, n.source, |n.joins| > 0), ScopeAt(n, |n.joins|), SchemaOf(cat)) <==>
            CallNames(a, n, cat)
  {
    hide S.Resolve, ScopeAt, SchemaOf;
    assert ValidAggregate(a, n, cat);
    if !a.column.Star? { RefResolves(a.column, n, cat); }
  }

  lemma ItemsNamedOnlyIf(n: ReadNode, cat: Catalog)
    requires ValidNode(n, cat)
    requires forall i | i in Compiled(n).items :: S.ItemNamed(i, ScopeAt(n, |n.joins|), SchemaOf(cat))
    ensures forall c | c in StayingColumns(n.columns, n) :: c.Star? || NamesColumn(c, n, cat)
    ensures forall a | a in n.aggregates :: CallNames(a, n, cat)
  {
    var sel, staying := Compiled(n), StayingColumns(n.columns, n);
    PlainItemsAre(n);
    hide Stays, Compiled, ScopeAt, SchemaOf, ValidNode, Qualified, CompiledCall, S.ItemNamed, NamesColumn, CallNames;
    forall c | c in staying ensures c.Star? || NamesColumn(c, n, cat) {
      var k :| 0 <= k < |staying| && staying[k] == c;
      assert sel.items[k] in sel.items;
      ColumnNamed(c, n, cat);
    }
    forall a | a in n.aggregates ensures CallNames(a, n, cat) {
      var k :| 0 <= k < |n.aggregates| && n.aggregates[k] == a;
      assert sel.items[|staying| + k] in sel.items;
      CallNamed(a, n, cat);
    }
  }

  lemma ItemsNamedIf(n: ReadNode, cat: Catalog, i: nat)
    requires ValidNode(n, cat) && i < |Compiled(n).items|
    requires forall c | c in StayingColumns(n.columns, n) :: c.Star? || NamesColumn(c, n, cat)
    requires forall a | a in n.aggregates :: CallNames(a, n, cat)
    ensures S.ItemNamed(Compiled(n).items[i], ScopeAt(n, |n.joins|), SchemaOf(cat))
  {
    var sel, staying := Compiled(n), StayingColumns(n.columns, n);
    PlainItemsAre(n);
    hide Stays, Compiled, ScopeAt, SchemaOf, ValidNode, Qualified, CompiledCall, S.ItemNamed, NamesColumn, CallNames;
    if i < |staying| {
      assert staying[i] in staying;
      ColumnNamed(staying[i], n, cat);
    } else {
      var a := n.aggregates[i - |staying|];
      assert a in n.aggregates && sel.items[|staying| + (i - |staying|)] == sel.items[i];
      CallNamed(a, n, cat);
    }
  }

  lemma ItemsNamed(n: ReadNode, cat: Catalog)
    requires ValidNode(n, cat)
    ensures var sel := Compiled(n);
            (forall i | i in sel.items :: S.ItemNamed(i, ScopeAt(n, |n.joins|), SchemaOf(cat)))
            <==> (forall c | c in n.columns && Stays(c, n) :: c.Star? || NamesColumn(c, n, cat)) &&
                 (forall a | a in n.aggregates :: CallNames(a, n, cat))
  {
    var sel, staying, scope, schema := Compiled(n), StayingColumns(n.columns, n), ScopeAt(n, |n.joins|), SchemaOf(cat);
    hide Stays, Compiled, ScopeAt, SchemaOf, ValidNode, S.ItemNamed, NamesColumn, CallNames, StayingColumns;
    if forall i | i in sel.items :: S.ItemNamed(i, scope, schema) { ItemsNamedOnlyIf(n, cat); }
    if (forall c | c in staying :: c.Star? || NamesColumn(c, n, cat))
       && (forall a | a in n.aggregates :: CallNames(a, n, cat)) {
      forall i | i in sel.items ensures S.ItemNamed(i, scope, schema) {
        var k :| 0 <= k < |sel.items| && sel.items[k] == i;
        ItemsNamedIf(n, cat, k);
      }
    }
  }

  lemma GroupsNamed(n: ReadNode, cat: Catalog)
    requires ValidNode(n, cat)
    ensures (forall e | e in Compiled(n).groupBy :: S.Operand(e, ScopeAt(n, |n.joins|), SchemaOf(cat)))
            <==> forall g | g in n.groupBy :: NamesColumn(g, n, cat) && (g.Trunc? ==> g.alias.None?)
  {
    var sel, scope, schema := Compiled(n), ScopeAt(n, |n.joins|), SchemaOf(cat);
    hide S.Resolve;
    forall k | 0 <= k < |n.groupBy|
      ensures S.Operand(sel.groupBy[k], scope, schema) <==>
              NamesColumn(n.groupBy[k], n, cat) && (n.groupBy[k].Trunc? ==> n.groupBy[k].alias.None?)
    {
      assert n.groupBy[k] in n.groupBy;
      if !n.groupBy[k].Star? { RefResolves(n.groupBy[k], n, cat); }
    }
  }

  lemma SameExprDenotes(c: Ref, g: Ref, n: ReadNode, cat: Catalog)
    requires ValidNode(n, cat) && c in n.columns && g in n.groupBy
    requires (c.Star? || NamesColumn(c, n, cat)) && NamesColumn(g, n, cat)
    ensures var hasJoins := |n.joins| > 0;
            S.SameExpr(Qualified(c, n.source, hasJoins), Qualified(g, n.source, hasJoins), ScopeAt(n, |n.joins|),
              SchemaOf(cat))
            <==> Denoted(c, n.source) == Denoted(g, n.source)
  {
    hide S.Resolve;
    RefResolves(g, n, cat);
    if !c.Star? { RefResolves(c, n, cat); }
  }

  lemma GroupingIs(n: ReadNode)
    ensures |Compiled(n).groupBy| == |n.groupBy|
    ensures forall k | 0 <= k < |n.groupBy| ::
              Compiled(n).groupBy[k] == Qualified(n.groupBy[k], n.source, |n.joins| > 0)
  {
    hide Qualified, StayingColumns, PlainItems, Calls, CompiledJoin, CompiledOrder, Limit;
  }

  lemma GroupedItem(c: Ref, n: ReadNode, cat: Catalog)
    requires ValidNode(n, cat) && c in n.columns && (c.Star? || NamesColumn(c, n, cat))
    requires forall g | g in n.groupBy :: NamesColumn(g, n, cat)
    ensures (exists e | e in Compiled(n).groupBy ::
              S.SameExpr(Qualified(c, n.source, |n.joins| > 0), e, ScopeAt(n, |n.joins|), SchemaOf(cat)))
            <==> exists g | g in n.groupBy :: Denoted(c, n.source) == Denoted(g, n.source)
  {
    var sel, scope, schema, hasJoins := Compiled(n), ScopeAt(n, |n.joins|), SchemaOf(cat), |n.joins| > 0;
    GroupingIs(n);
    hide S.SameExpr, NamesColumn, Denoted, Qualified, ValidNode, Compiled, ScopeAt, SchemaOf;
    forall k | 0 <= k < |n.groupBy|
      ensures S.SameExpr(Qualified(c, n.source, hasJoins), sel.groupBy[k], scope, schema) <==>
              Denoted(c, n.source) == Denoted(n.groupBy[k], n.source)
    {
      assert n.groupBy[k] in n.groupBy;
      SameExprDenotes(c, n.groupBy[k], n, cat);
    }
    var e := Qualified(c, n.source, hasJoins);
    if g :| g in n.groupBy && Denoted(c, n.source) == Denoted(g, n.source) {
      var k :| 0 <= k < |n.groupBy| && n.groupBy[k] == g;
      assert sel.groupBy[k] in sel.groupBy && S.SameExpr(e, sel.groupBy[k], scope, schema);
    }
    if f :| f in sel.groupBy && S.SameExpr(e, f, scope, schema) {
      var k :| 0 <= k < |sel.groupBy| && sel.groupBy[k] == f;
      assert n.groupBy[k] in n.groupBy && Denoted(c, n.source) == Denoted(n.groupBy[k], n.source);
    }
  }

  lemma GroupedItems(n: ReadNode, cat: Catalog)
    requires ValidNode(n, cat)
    requires forall c | c in n.columns && Stays(c, n) :: c.Star? || NamesColumn(c, n, cat)
    requires forall g | g in n.groupBy :: NamesColumn(g, n, cat)
    ensures var sel := Compiled(n);
            (forall i | i in sel.items && i.Plain? :: exists e | e in sel.groupBy ::
              S.SameExpr(i.e, e, ScopeAt(n, |n.joins|), SchemaOf(cat)))
            <==> forall c | c in n.columns && Stays(c, n) :: exists g | g in n.groupBy ::
              Denoted(c, n.source) == Denoted(g, n.source)
  {
    var sel, staying := Compiled(n), StayingColumns(n.columns, n);
    PlainItemsAre(n);
    hide Stays, Denoted, Compiled, ScopeAt, SchemaOf, ValidNode, Qualified, S.SameExpr, NamesColumn;
    if forall i | i in sel.items && i.Plain? :: exists e | e in sel.groupBy ::
        S.SameExpr(i.e, e, ScopeAt(n, |n.joins|), SchemaOf(cat)) {
      forall c | c in staying ensures exists g | g in n.groupBy :: Denoted(c, n.source) == Denoted(g, n.source) {
        var k :| 0 <= k < |staying| && staying[k] == c;
        assert sel.items[k] in sel.items;
        GroupedItem(c, n, cat);
      }
    }
    if forall c | c in staying :: exists g | g in n.groupBy :: Denoted(c, n.source) == Denoted(g, n.source) {
      forall i | i in sel.items && i.Plain?
        ensures exists e | e in sel.groupBy :: S.SameExpr(i.e, e, ScopeAt(n, |n.joins|), SchemaOf(cat))
      {
        var k :| 0 <= k < |sel.items| && sel.items[k] == i;
        assert staying[k] in staying;
        GroupedItem(staying[k], n, cat);
      }
    }
  }

  lemma ItemsAre(n: ReadNode)
    ensures Compiled(n).items == PlainItems(StayingColumns(n.columns, n), n.source, |n.joins| > 0) +
                                 Calls(n.aggregates, n.source, |n.joins| > 0)
  {
    hide PlainItems, Calls, StayingColumns, CompiledJoin, CompiledOrder, Limit, Qualified, S.Each;
  }

  lemma PlainItemsAre(n: ReadNode)
    ensures var sel, staying := Compiled(n), StayingColumns(n.columns, n);
            && |sel.items| == |staying| + |n.aggregates|
            && (forall i | 0 <= i < |staying| ::
              sel.items[i] == S.Plain(Qualified(staying[i], n.source, |n.joins| > 0)))
            && (forall i | 0 <= i < |n.aggregates| ::
              sel.items[|staying| + i] == CompiledCall(n.aggregates[i], n.source, |n.joins| > 0))
            && (forall i | |staying| <= i < |sel.items| :: sel.items[i].Call?)
  {
    ItemsAre(n);
    hide Qualified, Stays, StayingColumns, Compiled, CompiledCall;
    var staying := StayingColumns(n.columns, n);
    CallsAre(n.aggregates, n.source, |n.joins| > 0);
    hide Calls;
    assert forall i | |staying| <= i < |Compiled(n).items| ::
        Compiled(n).items[i] == Calls(n.aggregates, n.source, |n.joins| > 0)[i - |staying|];
  }

  lemma CallsAre(aggregates: seq<Aggregate>, base: string, hasJoins: bool)
    ensures var calls := Calls(aggregates, base, hasJoins);
            && |calls| == |aggregates|
            && forall i | 0 <= i < |calls| :: calls[i] == CompiledCall(aggregates[i], base, hasJoins) && calls[i].Call?
  {
  }

  lemma ScopeDistinct(n: ReadNode, cat: Catalog)
    requires ValidNode(n, cat)
    ensures NoDuplicates(ScopeAt(n, |n.joins|)) <==> NoDuplicates(Tables(n.joins))
    ensures forall t | t in ScopeAt(n, |n.joins|) :: t in cat.tables
  {
    var scope, tables := ScopeAt(n, |n.joins|), Tables(n.joins);
    assert scope == [n.source] + tables;
    forall i | 0 <= i < |tables| ensures tables[i] != n.source && tables[i] in cat.tables && scope[i + 1] == tables[i] {
      assert ValidJoin(n.joins[i], n, cat);
    }
    if NoDuplicates(scope) {
      forall i, j | 0 <= i < j < |tables| ensures tables[i] != tables[j] { assert scope[i + 1] != scope[j + 1]; }
    }
    if NoDuplicates(tables) {
      forall i, j | 0 <= i < j < |scope| ensures scope[i] != scope[j] {
        if i > 0 { assert tables[i - 1] != tables[j - 1]; }
      }
    }
  }

  lemma ShapeOfCompiled(n: ReadNode)
    ensures |Compiled(n).items| > 0 <==> |n.columns| + |n.aggregates| > 0
    ensures S.Grouped(Compiled(n)) <==> |n.groupBy| > 0 || |n.aggregates| > 0
  {
    var sel, staying := Compiled(n), StayingColumns(n.columns, n);
    PlainItemsAre(n);
    if |n.aggregates| > 0 { assert sel.items[|staying|] in sel.items; }
    if |n.aggregates| == 0 && |n.columns| > 0 { assert n.columns[0] in staying; }
    if |staying| > 0 { assert staying[0] in n.columns; }
  }

  lemma SortColumnResolves(path: Path, n: ReadNode, cat: Catalog)
    ensures S.Resolve(path, ScopeAt(n, |n.joins|), SchemaOf(cat)) == SortColumn(path, n, cat)
  {
    var scope := ScopeAt(n, |n.joins|);
    ScopeOfCompiled(n, |n.joins|);
    assert n.joins[..|n.joins|] == n.joins && scope == [n.source] + Tables(n.joins);
    if |path| == 1 {
      MatchingIsCandidates(n.joins, path[0], cat);
      assert scope[1..] == Tables(n.joins);
    }
  }

  lemma {:induction false} WidthAppends(xs: seq<S.Item>, ys: seq<S.Item>, name: Option<string>, scope: seq<string>,
                                        schema: S.Schema)
    ensures S.OutputWidth(xs + ys, name, scope, schema) ==
            S.OutputWidth(xs, name, scope, schema) + S.OutputWidth(ys, name, scope, schema)
  {
    if |ys| == 0 {
      assert xs + ys == xs;
    } else {
      assert (xs + ys)[..|xs + ys| - 1] == xs + ys[..|ys| - 1];
      WidthAppends(xs, ys[..|ys| - 1], name, scope, schema);
    }
  }

  lemma {:induction false} PlainWidth(columns: seq<Ref>, n: ReadNode, cat: Catalog, name: Option<string>)
    ensures S.OutputWidth(PlainItems(columns, n.source, |n.joins| > 0), name, ScopeAt(n, |n.joins|), SchemaOf(cat))
            == ColumnsWidth(columns, name, n, cat)
  {
    if |columns| > 0 {
      var init, items := columns[..|columns| - 1], PlainItems(columns, n.source, |n.joins| > 0);
      PlainWidth(init, n, cat, name);
      assert items[..|items| - 1] == PlainItems(init, n.source, |n.joins| > 0);
      assert ScopeAt(n, |n.joins|) == [n.source] + Tables(n.joins);
    }
  }

  lemma {:induction false} CallsWidth(aggregates: seq<Aggregate>, base: string, hasJoins: bool, name: Option<string>,
                                      scope: seq<string>, schema: S.Schema)
    ensures S.OutputWidth(Calls(aggregates, base, hasJoins), name, scope, schema) == AggregatesWidth(aggregates, name)
  {
    if |aggregates| > 0 {
      var init, items := aggregates[..|aggregates| - 1], Calls(aggregates, base, hasJoins);
      CallsWidth(init, base, hasJoins, name, scope, schema);
      assert items[..|items| - 1] == Calls(init, base, hasJoins);
    }
  }

  /** The compiled select list has as many columns, all in all and under each name, as the node says. */
  lemma CompiledWidth(n: ReadNode, cat: Catalog, name: Option<string>)
    ensures S.OutputWidth(Compiled(n).items, name, ScopeAt(n, |n.joins|), SchemaOf(cat)) == NodeWidth(n, name, cat)
  {
    var plain, calls := PlainItems(StayingColumns(n.columns, n), n.source, |n.joins| > 0),
      Calls(n.aggregates, n.source, |n.joins| > 0);
    WidthAppends(plain, calls, name, ScopeAt(n, |n.joins|), SchemaOf(cat));
    PlainWidth(StayingColumns(n.columns, n), n, cat, name);
    CallsWidth(n.aggregates, n.source, |n.joins| > 0, name, ScopeAt(n, |n.joins|), SchemaOf(cat));
  }

  /** What an ORDER BY expression over the column (table, name) denotes. */
  function SortTarget(e: S.Expr, at: (string, string)): Target {
    if e.Truncated? then BucketOf(e.unit, at.0, at.1) else ColumnOf(at.0, at.1)
  }

  lemma SortGroupDenotes(e: S.Expr, g: Ref, n: ReadNode, cat: Catalog, at: (string, string))
    requires ValidNode(n, cat) && g in n.groupBy && NamesColumn(g, n, cat)
    requires !e.AllColumns? && S.Resolve(e.path, ScopeAt(n, |n.joins|), SchemaOf(cat)) == Some(at)
    ensures S.SameExpr(e, Qualified(g, n.source, |n.joins| > 0), ScopeAt(n, |n.joins|), SchemaOf(cat))
            <==> Denoted(g, n.source) == SortTarget(e, at)
  {
    hide S.Resolve;
    RefResolves(g, n, cat);
  }

  /** A sort expression is grouped in the statement exactly when the node groups by what it denotes. */
  lemma SortGrouped(e: S.Expr, n: ReadNode, cat: Catalog, at: (string, string))
    requires ValidNode(n, cat) && forall g | g in n.groupBy :: NamesColumn(g, n, cat)
    requires !e.AllColumns? && S.Resolve(e.path, ScopeAt(n, |n.joins|), SchemaOf(cat)) == Some(at)
    ensures (exists g | g in Compiled(n).groupBy :: S.SameExpr(e, g, ScopeAt(n, |n.joins|), SchemaOf(cat)))
            <==> exists g | g in n.groupBy :: Denoted(g, n.source) == SortTarget(e, at)
  {
    var groups := Compiled(n).groupBy;
    assert |groups| == |n.groupBy|;
    forall k | 0 <= k < |n.groupBy|
      ensures n.groupBy[k] in n.groupBy && groups[k] in groups
      ensures S.SameExpr(e, groups[k], ScopeAt(n, |n.joins|), SchemaOf(cat)) <==>
              Denoted(n.groupBy[k], n.source) == SortTarget(e, at)
    {
      assert n.groupBy[k] in n.groupBy && groups[k] == Qualified(n.groupBy[k], n.source, |n.joins| > 0);
      SortGroupDenotes(e, n.groupBy[k], n, cat, at);
    }
    hide Compiled, S.SameExpr, Denoted, ValidNode, NamesColumn, S.Resolve;
  }

  /** A name or a bucket in ORDER BY, once it is no output name, is an operand that is grouped if the node is. */
  lemma OrderOperand(x: S.Expr, n: ReadNode, cat: Catalog)
    requires ValidNode(n, cat) && forall g | g in n.groupBy :: NamesColumn(g, n, cat)
    requires !x.AllColumns? && |x.path| > 0
    ensures var scope, schema, r := ScopeAt(n, |n.joins|), SchemaOf(cat), SortColumn(x.path, n, cat);
            S.Operand(x, scope, schema)
              && (S.Grouped(Compiled(n)) ==>
                    exists g | g in Compiled(n).groupBy :: S.SameExpr(x, g, scope, schema))
            <==> r.Some? && (x.Truncated? ==> x.alias.None?)
                   && (HasGroups(n) ==> exists g | g in n.groupBy :: Denoted(g, n.source) == SortTarget(x, r.value))
  {
    ShapeOfCompiled(n);
    SortColumnResolves(x.path, n, cat);
    var r := SortColumn(x.path, n, cat);
    hide Compiled, ScopeAt, ValidNode, NamesColumn, S.Resolve, SortColumn, S.Grouped, S.SameExpr, Denoted, SchemaOf,
         SortTarget;
    if r.Some? { SortGrouped(x, n, cat, r.value); }
  }

  /** An ORDER BY entry is well formed in the statement exactly when it is in scope in the node. */
  lemma OrderResolves(e: OrderEntry, n: ReadNode, cat: Catalog)
    requires ValidNode(n, cat) && forall g | g in n.groupBy :: NamesColumn(g, n, cat)
    ensures S.SortNamed(CompiledOrder(e).key, Compiled(n), SchemaOf(cat)) <==> OrderInScope(e.key, n, cat)
  {
    ScopeOfCompiled(n, |n.joins|);
    assert |Compiled(n).joins| == |n.joins|;
    hide Compiled, ScopeAt, ValidNode, NamesColumn, SortColumn, NodeWidth, S.OutputWidth, S.Grouped, S.Operand,
         HasGroups,
         S.SameExpr, Denoted, S.Scope, SchemaOf;
    match e.key {
      case Position(_) => CompiledWidth(n, cat, None);
      case Bucket(unit, path, alias) => OrderOperand(S.Truncated(unit, path, alias), n, cat);
      case Named(path) =>
        if |path| == 1 { CompiledWidth(n, cat, Some(path[0])); }
        OrderOperand(S.Column(path), n, cat);
    }
  }

  lemma OrderNamed(n: ReadNode, cat: Catalog)
    requires ValidNode(n, cat) && forall g | g in n.groupBy :: NamesColumn(g, n, cat)
    ensures (forall k | k in Compiled(n).orderBy :: S.SortNamed(k.key, Compiled(n), SchemaOf(cat)))
            <==> forall e | e in n.orderBy :: OrderInScope(e.key, n, cat)
  {
    var keys := Compiled(n).orderBy;
    assert |keys| == |n.orderBy|;
    forall i | 0 <= i < |n.orderBy|
      ensures keys[i] in keys && n.orderBy[i] in n.orderBy
      ensures S.SortNamed(keys[i].key, Compiled(n), SchemaOf(cat)) <==> OrderInScope(n.orderBy[i].key, n, cat)
    {
      assert keys[i] == CompiledOrder(n.orderBy[i]);
      OrderResolves(n.orderBy[i], n, cat);
    }
    hide Compiled, S.SortNamed, OrderInScope, ValidNode, NamesColumn;
  }

  /**
   A valid node compiles to a statement without unknown, ambiguous or ungrouped names exactly when it is compilable.
  */
  lemma WellFormedExactly(n: ReadNode, cat: Catalog)
    requires ValidNode(n, cat) && PlainCatalog(cat)
    ensures S.WellFormed(Compiled(n), SchemaOf(cat)) <==> Compilable(n, cat)
  {
    var sel, schema, full := Compiled(n), SchemaOf(cat), |n.joins|;
    hide ValidNode, PlainCatalog, S.Operand, S.ItemNamed, S.SameExpr, NamesColumn, JoinInScope, Stays, StayingColumns,
         S.Grouped, Denoted;
    ScopeOfCompiled(n, full);
    ScopeDistinct(n, cat);
    ShapeOfCompiled(n);
    ItemsNamed(n, cat);
    GroupsNamed(n, cat);
    forall k | 0 <= k < full
      ensures S.Operand(sel.joins[k].left, S.Scope(sel, k + 1), schema)
              && S.Operand(sel.joins[k].right, S.Scope(sel, k + 1), schema)
              <==> JoinInScope(n, k, cat)
    {
      ScopeOfCompiled(n, k + 1);
      JoinResolves(n, k, cat);
    }
    if forall g | g in n.groupBy :: NamesColumn(g, n, cat) {
      if forall c | c in n.columns && Stays(c, n) :: c.Star? || NamesColumn(c, n, cat) { GroupedItems(n, cat); }
      OrderNamed(n, cat);
    }
    hide Compiled, S.SortNamed, OrderInScope;
  }

  // ---- The compiled statement means what the node means ----

  lemma SideMeans(r: Ref, default: string, n: ReadNode, k: nat, cat: Catalog, env: S.Env, m: S.Meaning)
    requires k < |n.joins| && PlainCatalog(cat) && KnownRef(r, default, n, cat)
    requires default == n.source || default == n.joins[k].table
    requires SideInScope(r, n, k)
    ensures S.ExprOut(JoinSide(r, default), ScopeAt(n, k + 1), SchemaOf(cat), env, m) ==
            TargetOut(Denoted(r, default), env, m)
  {
    SideResolves(r, default, n, k, cat);
  }

  lemma ConditionMeans(n: ReadNode, k: nat, cat: Catalog, env: S.Env, m: S.Meaning)
    requires ValidNode(n, cat) && PlainCatalog(cat) && k < |n.joins| && JoinInScope(n, k, cat)
    ensures S.OnCondition(Compiled(n).joins[k], ScopeAt(n, k + 1), SchemaOf(cat), m)(env) ==
            JoinCondition(n.joins[k], n.source, m)(env)
  {
    var j := n.joins[k];
    assert ValidJoin(j, n, cat);
    SideMeans(j.onLeft, n.source, n, k, cat, env, m);
    if j.onRight.Some? { SideMeans(j.onRight.value, j.table, n, k, cat, env, m); }
      else { DefaultRightResolves(n, k, cat); }
  }

  lemma OneJoinMeans(n: ReadNode, cat: Catalog, db: S.Database, m: S.Meaning, k: nat, rows: seq<S.Env>)
    requires ValidNode(n, cat) && PlainCatalog(cat) && k < |n.joins| && JoinInScope(n, k, cat)
    ensures var sel, j := Compiled(n), n.joins[k];
            S.JoinRows(rows, S.Rows(db, j.table), j.table, S.Blank(ColumnsOf(cat, j.table)), j.left,
                       S.OnCondition(sel.joins[k], S.Scope(sel, k + 1), SchemaOf(cat), m)) ==
            S.JoinRows(rows, S.Rows(db, j.table), j.table, S.Blank(ColumnsOf(cat, j.table)), j.left,
                       JoinCondition(j, n.source, m))
  {
    var sel, schema, j := Compiled(n), SchemaOf(cat), n.joins[k];
    ScopeOfCompiled(n, k + 1);
    hide JoinInScope, ValidNode, PlainCatalog, S.OnCondition, JoinCondition, S.JoinRows, S.Blank, ColumnsOf;
    var p, q := S.OnCondition(sel.joins[k], ScopeAt(n, k + 1), schema, m), JoinCondition(j, n.source, m);
    forall env ensures p(env) == q(env) { ConditionMeans(n, k, cat, env, m); }
    S.JoinRowsCong(rows, S.Rows(db, j.table), j.table, S.Blank(ColumnsOf(cat, j.table)), j.left, p, q);
  }

  lemma {:induction false} JoinsMean(n: ReadNode, cat: Catalog, db: S.Database, m: S.Meaning, k: nat)
    requires ValidNode(n, cat) && PlainCatalog(cat) && k <= |n.joins|
    requires forall i | 0 <= i < |n.joins| :: JoinInScope(n, i, cat)
    ensures S.EvalFrom(Compiled(n), SchemaOf(cat), db, m, k) == JoinedRows(n, cat, db, m, k)
  {
    hide JoinInScope, ValidNode, PlainCatalog, S.OnCondition, JoinCondition, StayingColumns, PlainItems, Calls,
         S.JoinRows, CompiledOrder, Limit, Qualified, S.Scope;
    if k > 0 {
      JoinsMean(n, cat, db, m, k - 1);
      OneJoinMeans(n, cat, db, m, k - 1, JoinedRows(n, cat, db, m, k - 1));
    }
  }

  predicate SpelledAs(c: Ref, g: Ref) {
    c.Trunc? && g.Trunc? && c.unit == g.unit && c.path == g.path
  }

  /** A DATE_TRUNC column that reads the bucket of a GROUP BY entry is written like one of them. */
  ghost predicate SpelledAlike(n: ReadNode) {
    forall c | c in n.columns && c.Trunc?
      && (exists g | g in n.groupBy :: Denoted(c, n.source) == Denoted(g, n.source)) ::
      exists h | h in n.groupBy :: SpelledAs(c, h)
  }

  lemma StaysExactly(c: Ref, n: ReadNode, cat: Catalog)
    requires forall g | g in n.groupBy :: NamesColumn(g, n, cat)
    requires |n.aggregates| > 0 && c in n.columns
    requires Stays(c, n) ==> exists g | g in n.groupBy :: Denoted(c, n.source) == Denoted(g, n.source)
    ensures Stays(c, n) ==> IsGrouped(c, n)
    ensures !c.Trunc? ==> (Stays(c, n) <==> IsGrouped(c, n))
    ensures c.Trunc? ==> (Stays(c, n) <==> exists h | h in n.groupBy :: SpelledAs(c, h))
  {
  }

  lemma {:induction false} StayingIsKept(columns: seq<Ref>, n: ReadNode)
    requires forall c | c in columns :: Stays(c, n) <==> IsGrouped(c, n)
    ensures StayingColumns(columns, n) == KeptColumns(columns, n)
  {
    if |columns| > 0 { StayingIsKept(columns[..|columns| - 1], n); }
  }

  lemma {:induction false} StayingShorter(columns: seq<Ref>, n: ReadNode)
    requires forall c | c in columns :: Stays(c, n) ==> IsGrouped(c, n)
    ensures |StayingColumns(columns, n)| <= |KeptColumns(columns, n)|
    ensures (exists c | c in columns :: IsGrouped(c, n) && !Stays(c, n)) ==>
            |StayingColumns(columns, n)| < |KeptColumns(columns, n)|
  {
    if |columns| > 0 {
      assert columns == columns[..|columns| - 1] + [columns[|columns| - 1]];
      StayingShorter(columns[..|columns| - 1], n);
    }
  }

  /**
   The compiler keeps the grouped select columns exactly when their buckets are spelled alike; otherwise it drops one.
  */
  lemma KeepsGroupedExactly(n: ReadNode, cat: Catalog)
    requires Compilable(n, cat) && |n.aggregates| > 0
    ensures StayingColumns(n.columns, n) == KeptColumns(n.columns, n) <==> SpelledAlike(n)
    ensures !SpelledAlike(n) ==> |StayingColumns(n.columns, n)| < |KeptColumns(n.columns, n)|
  {
    forall c | c in n.columns
      ensures Stays(c, n) ==> IsGrouped(c, n)
      ensures !c.Trunc? ==> (Stays(c, n) <==> IsGrouped(c, n))
      ensures c.Trunc? ==> (Stays(c, n) <==> exists h | h in n.groupBy :: SpelledAs(c, h))
    {
      StaysExactly(c, n, cat);
    }
    hide Compilable, Stays, StayingColumns, KeptColumns, Denoted, SpelledAs;
    if SpelledAlike(n) {
      StayingIsKept(n.columns, n);
    } else {
      StayingShorter(n.columns, n);
    }
  }

  lemma KeyMeans(n: ReadNode, cat: Catalog, env: S.Env, m: S.Meaning)
    requires ValidNode(n, cat) && forall g | g in n.groupBy :: NamesColumn(g, n, cat)
    ensures S.GroupKey(Compiled(n), ScopeAt(n, |n.joins|), SchemaOf(cat), m)(env) == NodeKey(n, m)(env)
  {
    var sel := Compiled(n);
    hide S.ExprOut, TargetOut, Denoted, Qualified, NamesColumn, ValidNode;
    forall i | 0 <= i < |n.groupBy|
      ensures S.ExprOut(sel.groupBy[i], ScopeAt(n, |n.joins|), SchemaOf(cat), env, m) ==
              TargetOut(Denoted(n.groupBy[i], n.source), env, m)
    {
      assert n.groupBy[i] in n.groupBy;
      RefOut(n.groupBy[i], n, cat, env, m);
    }
  }

  lemma CallMeans(a: Aggregate, n: ReadNode, cat: Catalog, unit: seq<S.Env>, m: S.Meaning)
    requires ValidNode(n, cat) && a in n.aggregates && CallNames(a, n, cat)
    ensures S.ItemOut(CompiledCall(a, n.source, |n.joins| > 0), ScopeAt(n, |n.joins|), SchemaOf(cat), unit, m) ==
            AggregateOut(a, n, unit, m)
  {
    var scope, schema, arg := ScopeAt(n, |n.joins|), SchemaOf(cat), Qualified(a.column, n.source, |n.joins| > 0);
    hide S.ExprOut, TargetOut, Denoted, Qualified, NamesColumn, ValidNode;
    forall env ensures S.ExprOut(arg, scope, schema, env, m) == TargetOut(Denoted(a.column, n.source), env, m) {
      RefOut(a.column, n, cat, env, m);
    }
    S.EachCong(unit, (env: S.Env) => S.ExprOut(arg, scope, schema, env, m),
      (env: S.Env) => TargetOut(Denoted(a.column, n.source), env, m));
  }

  lemma PlainMeans(c: Ref, n: ReadNode, cat: Catalog, unit: seq<S.Env>, m: S.Meaning)
    requires ValidNode(n, cat) && c in n.columns && (c.Star? || NamesColumn(c, n, cat))
    ensures S.ItemOut(S.Plain(Qualified(c, n.source, |n.joins| > 0)), ScopeAt(n, |n.joins|), SchemaOf(cat), unit, m) ==
            ColumnOut(c, n, unit, m)
  {
    if |unit| > 0 { RefOut(c, n, cat, unit[0], m); }
  }

  lemma PlainItemsMean(n: ReadNode, cat: Catalog, unit: seq<S.Env>, m: S.Meaning, i: nat)
    requires ValidNode(n, cat) && Compilable(n, cat) && i < |StayingColumns(n.columns, n)|
             && StayingColumns(n.columns, n) == KeptColumns(n.columns, n)
    ensures S.ItemOut(Compiled(n).items[i], ScopeAt(n, |n.joins|), SchemaOf(cat), unit, m) ==
            ColumnOut(KeptColumns(n.columns, n)[i], n, unit, m)
  {
    var kept := StayingColumns(n.columns, n);
    assert kept[i] in kept;
    PlainItemsAre(n);
    hide Compiled, S.ItemOut, ColumnOut;
    PlainMeans(kept[i], n, cat, unit, m);
  }

  lemma CallItemsMean(n: ReadNode, cat: Catalog, unit: seq<S.Env>, m: S.Meaning, i: nat)
    requires ValidNode(n, cat) && Compilable(n, cat) && i < |n.aggregates|
    ensures S.ItemOut(Compiled(n).items[|StayingColumns(n.columns, n)| + i], ScopeAt(n, |n.joins|), SchemaOf(cat),
            unit, m) ==
            AggregateOut(n.aggregates[i], n, unit, m)
  {
    assert n.aggregates[i] in n.aggregates;
    assert CallNames(n.aggregates[i], n, cat);
    hide *;
    PlainItemsAre(n);
    CallMeans(n.aggregates[i], n, cat, unit, m);
  }

  lemma OutsSplit(sel: S.Select, scope: seq<string>, schema: S.Schema, n: ReadNode, unit: seq<S.Env>, m: S.Meaning)
    requires |sel.items| == |KeptColumns(n.columns, n)| + |n.aggregates|
    requires forall i | 0 <= i < |KeptColumns(n.columns, n)| ::
               S.ItemOut(sel.items[i], scope, schema, unit, m) == ColumnOut(KeptColumns(n.columns, n)[i], n, unit, m)
    requires forall i | 0 <= i < |n.aggregates| ::
               S.ItemOut(sel.items[|KeptColumns(n.columns, n)| + i], scope, schema, unit, m) ==
                 AggregateOut(n.aggregates[i], n, unit, m)
    ensures S.SelectList(sel, scope, schema, m)(unit) == NodeOuts(n, m)(unit)
  {
  }

  lemma SelectListMeans(n: ReadNode, cat: Catalog, unit: seq<S.Env>, m: S.Meaning)
    requires ValidNode(n, cat) && Compilable(n, cat) && StayingColumns(n.columns, n) == KeptColumns(n.columns, n)
    ensures S.SelectList(Compiled(n), ScopeAt(n, |n.joins|), SchemaOf(cat), m)(unit) == NodeOuts(n, m)(unit)
  {
    var sel, scope, schema, kept := Compiled(n), ScopeAt(n, |n.joins|), SchemaOf(cat), KeptColumns(n.columns, n);
    PlainItemsAre(n);
    assert |sel.items| == |kept| + |n.aggregates|;
    hide *;
    forall i | 0 <= i < |kept|
      ensures S.ItemOut(sel.items[i], scope, schema, unit, m) == ColumnOut(kept[i], n, unit, m) {
      PlainItemsMean(n, cat, unit, m, i);
    }
    forall i | 0 <= i < |n.aggregates|
      ensures S.ItemOut(sel.items[|kept| + i], scope, schema, unit, m) == AggregateOut(n.aggregates[i], n, unit, m)
    {
      CallItemsMean(n, cat, unit, m, i);
    }
    OutsSplit(sel, scope, schema, n, unit, m);
  }

  lemma OrderTexts(n: ReadNode)
    ensures S.SortTexts(Compiled(n).orderBy) == S.Each(n.orderBy, (e: OrderEntry) => e.text)
  {
  }

  lemma LimitCompiled(n: ReadNode)
    ensures Compiled(n).limit == if n.limit == None || n.limit == Some(0) then 10 else n.limit.value
  {
  }

  /** Up to the LIMIT, the compiled statement computes what the node does. */
  lemma RowsCompiled(n: ReadNode, cat: Catalog, db: S.Database, m: S.Meaning)
    requires ValidNode(n, cat) && PlainCatalog(cat) && Compilable(n, cat)
    requires |n.aggregates| > 0 ==> SpelledAlike(n)
    ensures S.EvalSelect(Compiled(n), SchemaOf(cat), db, m) ==
            Some(S.First(OrderedRows(n, cat, db, m), Compiled(n).limit))
  {
    var sel, scope, schema := Compiled(n), ScopeAt(n, |n.joins|), SchemaOf(cat);
    WellFormedExactly(n, cat);
    ScopeOfCompiled(n, |n.joins|);
    ShapeOfCompiled(n);
    JoinsMean(n, cat, db, m, |n.joins|);
    if |n.aggregates| > 0 { KeepsGroupedExactly(n, cat); } else { StayingIsKept(n.columns, n); }
    hide S.WellFormed, ValidNode, PlainCatalog, StayingColumns, KeptColumns, S.GroupKey, NodeKey, S.SelectList,
         NodeOuts, S.WhereCondition, S.Sorted, S.Units, S.Grouped, S.First;
    forall env ensures S.GroupKey(sel, scope, schema, m)(env) == NodeKey(n, m)(env) {
      assert forall g | g in n.groupBy :: NamesColumn(g, n, cat);
      KeyMeans(n, cat, env, m);
    }
    forall unit ensures S.SelectList(sel, scope, schema, m)(unit) ==
      NodeOuts(n, m)(unit) { SelectListMeans(n, cat, unit, m); }
    hide Compilable;
    var envs := S.Keep(JoinedRows(n, cat, db, m, |n.joins|), S.WhereCondition(n.filter, m));
    var grouped := |n.groupBy| > 0 || |n.aggregates| > 0;
    S.UnitsCong(envs, grouped, n.groupBy == [], S.GroupKey(sel, scope, schema, m), NodeKey(n, m));
    var units := S.Units(envs, grouped, n.groupBy == [], NodeKey(n, m));
    OrderTexts(n);
    S.SortedCong(units, S.SelectList(sel, scope, schema, m), NodeOuts(n, m), n.having, S.SortTexts(sel.orderBy), m);
    assert sel.groupBy == [] <==> n.groupBy == [];
  }

  /**
   For every database, the compiled statement is accepted and yields the rows the node means: the first of them in
   their order, as many as the node asks for, ten where it asks for none or for no number, all when there are no more.
  */
  lemma CompilationPreservesMeaning(n: ReadNode, cat: Catalog, db: S.Database, m: S.Meaning)
    requires ValidNode(n, cat) && PlainCatalog(cat) && Compilable(n, cat)
    requires |n.aggregates| > 0 ==> SpelledAlike(n)
    ensures var rows := OrderedRows(n, cat, db, m);
            var k := if n.limit == None || n.limit == Some(0) then 10 else n.limit.value;
            S.EvalSelect(Compiled(n), SchemaOf(cat), db, m) == Some(if |rows| <= k then rows else rows[..k])
  {
    hide OrderedRows, S.EvalSelect, ValidNode, Compilable, Compiled, PlainCatalog, SpelledAlike, SchemaOf;
    RowsCompiled(n, cat, db, m);
    LimitCompiled(n);
  }

  // ---- Valid nodes that validation lets through although they do not compile as meant ----

  /** Two tables that share the column names cid and t. */
  const TWO_TABLES := Catalog({"o", "c"}, map["o" := {"id", "cid", "t"}, "c" := {"cid", "t"}], map[], None)

  function Single(columns: seq<Ref>, groupBy: seq<Ref>, aggregates: seq<Aggregate>): ReadNode {
    ReadNode("o", columns, [], groupBy, None, aggregates, [], None, [])
  }

  /** Validation accepts sum over a star, which is no SQL. */
  lemma SumOfStar()
    ensures var n := Single([], [], [Aggregate("sum", Star, "s")]);
            ValidNode(n, TWO_TABLES) && PlainCatalog(TWO_TABLES) && !Compilable(n, TWO_TABLES)
  {
    var n := Single([], [], [Aggregate("sum", Star, "s")]);
    var a := n.aggregates[0];
    assert a in n.aggregates && a.column.Star? && a.function_ != "count";
  }

  /** Under joins, ORDER BY keeps its bare name: validation finds it in the base table, SQL in two tables. */
  function Ordered(orderBy: seq<OrderEntry>): ReadNode {
    ReadNode("o", [Col(["id"])], [], [], None, [], orderBy, None, [Join("c", Col(["cid"]), None, false)])
  }

  const BY_T := OrderEntry("t", Named(["t"]))

  lemma OrderedValid(orderBy: seq<OrderEntry>)
    requires forall e | e in orderBy :: e == BY_T
    ensures ValidNode(Ordered(orderBy), TWO_TABLES)
  {
    var n := Ordered(orderBy);
    var j := Join("c", Col(["cid"]), None, false);
    assert ValidJoin(j, n, TWO_TABLES) && n.joins == [j];
    assert ValidColumn(Col(["id"]), n, TWO_TABLES) && ValidOrder(BY_T, n, TWO_TABLES);
    hide ValidJoin, ValidColumn, ValidOrder;
  }

  lemma UnorderedCompilable()
    ensures Compilable(Ordered([]), TWO_TABLES)
  {
    var n := Ordered([]);
    assert n.joins[..1] == n.joins && JoinInScope(n, 0, TWO_TABLES) && NamesColumn(Col(["id"]), n, TWO_TABLES);
    assert n.columns == [Col(["id"])];
    hide JoinInScope, NamesColumn, Stays, Denoted;
  }

  lemma NotInScope()
    ensures !OrderInScope(BY_T.key, Ordered([BY_T]), TWO_TABLES)
  {
    var n := Ordered([BY_T]);
    assert n.columns[..0] == [] && StayingColumns(n.columns, n) == [Col(["id"])];
    assert ColumnsWidth([Col(["id"])], Some("t"), n, TWO_TABLES) == 0;
    assert n.joins[1..] == [] && Matching(n.joins, "t", TWO_TABLES) == ["c"];
  }

  lemma TwoTablesPlain()
    ensures PlainCatalog(TWO_TABLES)
  {
  }

  lemma AmbiguousOrder()
    ensures PlainCatalog(TWO_TABLES)
    ensures ValidNode(Ordered([BY_T]), TWO_TABLES) && !Compilable(Ordered([BY_T]), TWO_TABLES)
    ensures ValidNode(Ordered([]), TWO_TABLES) && Compilable(Ordered([]), TWO_TABLES)
  {
    OrderedValid([BY_T]);
    OrderedValid([]);
    UnorderedCompilable();
    NotInScope();
    TwoTablesPlain();
    hide OrderInScope, ValidNode, PlainCatalog;
    assert BY_T in Ordered([BY_T]).orderBy;
  }

  /** A grouped DATE_TRUNC column in another spelling is valid and compiles, but is dropped from the select list. */
  function Spelled(): ReadNode {
    Single([Trunc("day", ["t"], None), Trunc("day", ["o", "t"], None)], [Trunc("day", ["t"], None)],
      [Aggregate("count", Star, "n")])
  }

  lemma SpelledCompilable()
    ensures ValidNode(Spelled(), TWO_TABLES) && Compilable(Spelled(), TWO_TABLES)
  {
    var plain, dotted := Trunc("day", ["t"], None), Trunc("day", ["o", "t"], None);
    var n := Spelled();
    assert KnownRef(plain, "o", n, TWO_TABLES) && KnownRef(dotted, "o", n, TWO_TABLES);
    assert ValidAggregate(n.aggregates[0], n, TWO_TABLES) && plain in n.columns;
    assert NamesColumn(plain, n, TWO_TABLES) && NamesColumn(dotted, n, TWO_TABLES);
    assert plain in n.groupBy && Denoted(plain, "o") == Denoted(dotted, "o");
    hide KnownRef, ValidAggregate, NamesColumn, Denoted, Stays, SameRef;
  }

  lemma SpelledDifferently()
    ensures ValidNode(Spelled(), TWO_TABLES) && Compilable(Spelled(), TWO_TABLES) && !SpelledAlike(Spelled())
    ensures |StayingColumns(Spelled().columns, Spelled())| < |KeptColumns(Spelled().columns, Spelled())|
  {
    SpelledCompilable();
    var plain, dotted := Trunc("day", ["t"], None), Trunc("day", ["o", "t"], None);
    assert dotted in Spelled().columns && plain in Spelled().groupBy && Denoted(plain, "o") == Denoted(dotted, "o");
    assert |plain.path| != |dotted.path|;
    assert !SpelledAlike(Spelled());
    hide *;
    KeepsGroupedExactly(Spelled(), TWO_TABLES);
  }

  // ---- Normalized references ----

  lemma {:induction false} MatchingIsCandidates(joins: seq<Join>, name: string, cat: Catalog)
    ensures Matching(joins, name, cat) == S.Candidates(Tables(joins), name, SchemaOf(cat))
  {
    if |joins| > 0 {
      MatchingIsCandidates(joins[1..], name, cat);
      assert Tables(joins)[1..] == Tables(joins[1..]);
    }
  }

  /**
   After normalization a bare name denotes the base column if there is one, otherwise the column that SQL itself
   would resolve the bare name to; a name SQL finds unknown or ambiguous there is left for validation to refuse.
  */
  lemma NormalizedDenotes(name: string, n: ReadNode, cat: Catalog)
    requires |n.joins| > 0
    ensures var r := NormalizeRef(Col([name]), n.source, n.joins, cat);
            var resolved := S.Resolve([name], [n.source] + Tables(n.joins), SchemaOf(cat));
            if name in ColumnsOf(cat, n.source) then Denoted(r, n.source) == ColumnOf(n.source, name)
            else if resolved.Some? then Denoted(r, n.source) == ColumnOf(resolved.value.0, resolved.value.1)
            else r == Col([name]) && !KnownRef(r, n.source, n, cat)
  {
    MatchingIsCandidates(n.joins, name, cat);
    assert ([n.source] + Tables(n.joins))[1..] == Tables(n.joins);
  }

  lemma NormalizeTwice(r: Ref, base: string, joins: seq<Join>, cat: Catalog)
    ensures NormalizeRef(NormalizeRef(r, base, joins, cat), base, joins, cat) == NormalizeRef(r, base, joins, cat)
  {
  }
}
