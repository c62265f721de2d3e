/**
 Single-block SELECT statements: name resolution by sections 6.4 and 7.5 to 7.9 of SQL-92, and their value
 over a database. Reading a name never depends on the data, so a statement is rejected before any row is read.
*/
module Sql {
  import opened Common
  import opened SearchCondition

  datatype Cell = Null | Val(data: int)
  type TableRow = map<string, Cell>
  type Database = map<string, seq<TableRow>>
  /** One row of a FROM clause: the current row of each table in scope. */
  type Env = map<string, TableRow>

  datatype Schema = Schema(tables: set<string>, columns: map<string, set<string>>)

  datatype Expr = AllColumns | Column(path: seq<string>)
    | Truncated(unit: string, path: seq<string>, alias: Option<string>)
  datatype Item = Plain(e: Expr) | Call(function_: string, distinct: bool, arg: Expr, alias: string)
  datatype JoinClause = JoinClause(outer: bool, table: string, left: Expr, right: Expr)
  /** A sort specification: its text, and what it sorts by: the n-th output column, or a name or bucket. */
  datatype SortKey = Nth(index: nat) | ByExpr(e: Expr)
  datatype SortSpec = SortSpec(text: string, key: SortKey)
  datatype Select = Select(items: seq<Item>, from: string, joins: seq<JoinClause>, where_: seq<Token>,
                           groupBy: seq<Expr>, having: Option<string>, orderBy: seq<SortSpec>, limit: nat)

  /** A select item's value: one cell, or every column for `*`. */
  datatype Out = One(cell: Cell) | Every(env: Env)

  /** What the opaque parts of a statement mean. */
  datatype Meaning = Meaning(
    atom: (string, Env) -> Truth,
    trunc: (string, Cell) -> Cell,
    aggregate: (string, bool, seq<Out>) -> Cell,
    having: (string, seq<Env>, seq<Out>) -> bool,
    order: (seq<string>, seq<(seq<Env>, seq<Out>)>) -> seq<(seq<Env>, seq<Out>)>)

  // ---- Name resolution ----

  function ColumnsIn(schema: Schema, table: string): set<string> {
    if table in schema.columns then schema.columns[table] else {}
  }

  function Candidates(scope: seq<string>, name: string, schema: Schema): seq<string> {
    if |scope| == 0 then [] else
      (if name in ColumnsIn(schema, scope[0]) then [scope[0]] else []) + Candidates(scope[1..], name, schema)
  }

  /** The table and column a name stands for; None when it is unknown or ambiguous. */
  function Resolve(path: seq<string>, scope: seq<string>, schema: Schema): Option<(string, string)> {
    if |path| == 1 then
      var tables := Candidates(scope, path[0], schema);
      if |tables| == 1 then Some((tables[0], path[0])) else None
    else if |path| == 2 && path[0] in scope && path[1] in ColumnsIn(schema, path[0]) then Some((path[0], path[1]))
    else None
  }

  function Scope(sel: Select, k: nat): seq<string>
    requires k <= |sel.joins|
  {
    [sel.from] + seq(k, i requires 0 <= i < k => sel.joins[i].table)
  }

  predicate Named(e: Expr, scope: seq<string>, schema: Schema) {
    !e.AllColumns? && Resolve(e.path, scope, schema).Some?
  }

  /** A name outside the select list: it carries no alias. */
  predicate Operand(e: Expr, scope: seq<string>, schema: Schema) {
    Named(e, scope, schema) && (e.Truncated? ==> e.alias.None?)
  }

  predicate Grouped(sel: Select) {
    |sel.groupBy| > 0 || exists i | i in sel.items :: i.Call?
  }

  /** Both expressions read the same column the same way. */
  predicate SameExpr(a: Expr, b: Expr, scope: seq<string>, schema: Schema) {
    && Named(a, scope, schema) && Named(b, scope, schema)
    && Resolve(a.path, scope, schema) == Resolve(b.path, scope, schema)
    && (a.Truncated? <==> b.Truncated?) && (a.Truncated? && b.Truncated? ==> a.unit == b.unit)
  }

  predicate ItemNamed(i: Item, scope: seq<string>, schema: Schema) {
    match i
    case Plain(e) => e.AllColumns? || Named(e, scope, schema)
    case Call(f, distinct, arg, _) => Operand(arg, scope, schema) || (arg.AllColumns? && f == "count" && !distinct)
  }

  /** How many columns `*` stands for, all in all or under one name. */
  function StarWidth(scope: seq<string>, name: Option<string>, schema: Schema): nat {
    if |scope| == 0 then 0 else
      var columns := ColumnsIn(schema, scope[0]);
      (if name.None? then |columns| else if name.value in columns then 1 else 0) + StarWidth(scope[1..], name, schema)
  }

  function ItemWidth(i: Item, name: Option<string>, scope: seq<string>, schema: Schema): nat {
    match i
    case Plain(AllColumns) => StarWidth(scope, name, schema)
    case Plain(Column(path)) => if name.None? || (|path| > 0 && name.value == path[|path| - 1]) then 1 else 0
    case Plain(Truncated(_, _, alias)) => if name.None? || name == alias then 1 else 0
    case Call(_, _, _, alias) => if name.None? || name == Some(alias) then 1 else 0
  }

  /** How many output columns a select list has, all in all or under one name. */
  function OutputWidth(items: seq<Item>, name: Option<string>, scope: seq<string>, schema: Schema): nat {
    if |items| == 0 then 0 else
      OutputWidth(items[..|items| - 1], name, scope, schema) + ItemWidth(items[|items| - 1], name, scope, schema)
  }

  /**
   A sort key is a position in the output, the name of exactly one output column (section 13.1 of SQL-92), or, as
   the dialects extend it, any operand over the tables in scope, which must be grouped if the statement is.
  */
  predicate SortNamed(k: SortKey, sel: Select, schema: Schema) {
    var scope := Scope(sel, |sel.joins|);
    match k
    case Nth(n) => 1 <= n <= OutputWidth(sel.items, None, scope, schema)
    case ByExpr(e) =>
      var outputs := if e.Column? && |e.path| == 1 then OutputWidth(sel.items, Some(e.path[0]), scope, schema) else 0;
      if outputs > 0 then outputs == 1
      else Operand(e, scope, schema) && (Grouped(sel) ==> exists g | g in sel.groupBy :: SameExpr(e, g, scope, schema))
  }

  ghost predicate WellFormed(sel: Select, schema: Schema) {
    var scope := Scope(sel, |sel.joins|);
    && |sel.items| > 0
    && (forall t | t in scope :: t in schema.tables)
    && NoDuplicates(scope)
    && (forall k | 0 <= k < |sel.joins| ::
          Operand(sel.joins[k].left, Scope(sel, k + 1), schema)
            && Operand(sel.joins[k].right, Scope(sel, k + 1), schema))
    && (sel.where_ != [] ==> Parse(sel.where_).Some?)
    && (forall i | i in sel.items :: ItemNamed(i, scope, schema))
    && (forall g | g in sel.groupBy :: Operand(g, scope, schema))
    && (Grouped(sel) ==> forall i | i in sel.items && i.Plain? :: exists g | g in sel.groupBy ::
      SameExpr(i.e, g, scope, schema))
    && (forall k | k in sel.orderBy :: SortNamed(k.key, sel, schema))
  }

  // ---- Relational operators ----

  function At(env: Env, table: string, name: string): Cell {
    if table in env && name in env[table] then env[table][name] else Null
  }

  /** `=` holds of two cells only when neither is null. */
  predicate EqualCells(a: Out, b: Out) {
    a.One? && b.One? && a.cell != Null && a == b
  }

  function Rows(db: Database, table: string): seq<TableRow> {
    if table in db then db[table] else []
  }

  function Blank(columns: set<string>): (row: TableRow)
    ensures row.Keys == columns
  {
    map c | c in columns :: Null
  }

  function Matches(env: Env, rows: seq<TableRow>, table: string, on: Env -> bool): seq<Env> {
    if |rows| == 0 then [] else
      (if on(env[table := rows[0]]) then [env[table := rows[0]]] else []) + Matches(env, rows[1..], table, on)
  }

  function JoinRows(envs: seq<Env>, rows: seq<TableRow>, table: string, blank: TableRow, outer: bool,
                    on: Env -> bool): seq<Env> {
    if |envs| == 0 then [] else
      var matches := Matches(envs[0], rows, table, on);
      (if outer && |matches| == 0 then [envs[0][table := blank]] else matches)
      + JoinRows(envs[1..], rows, table, blank, outer, on)
  }

  function Keep<T>(xs: seq<T>, p: T -> bool): seq<T> {
    if |xs| == 0 then [] else (if p(xs[0]) then [xs[0]] else []) + Keep(xs[1..], p)
  }

  function Each<T, U>(xs: seq<T>, f: T -> U): seq<U> {
    seq(|xs|, i requires 0 <= i < |xs| => f(xs[i]))
  }

  function AddToGroup(groups: seq<seq<Env>>, env: Env, key: Env -> seq<Out>): seq<seq<Env>> {
    if |groups| == 0 then [[env]]
    else if |groups[0]| > 0 && key(groups[0][0]) == key(env) then [groups[0] + [env]] + groups[1..]
    else [groups[0]] + AddToGroup(groups[1..], env, key)
  }

  /** Rows with equal keys together, groups in order of first appearance. */
  function Groups(envs: seq<Env>, key: Env -> seq<Out>): seq<seq<Env>> {
    if |envs| == 0 then [] else AddToGroup(Groups(envs[..|envs| - 1], key), envs[|envs| - 1], key)
  }

  /** The units a select list is valued on: groups, or single rows. */
  function Units(envs: seq<Env>, grouped: bool, ungroupedKey: bool, key: Env -> seq<Out>): seq<seq<Env>> {
    if !grouped then Each(envs, (env: Env) => [env])
    else if ungroupedKey then [envs]
    else Groups(envs, key)
  }

  function First(xs: seq<seq<Out>>, n: nat): seq<seq<Out>> {
    if |xs| <= n then xs else xs[..n]
  }

  /** HAVING and ORDER BY over the valued units. */
  function Sorted(units: seq<seq<Env>>, outs: seq<Env> -> seq<Out>, having: Option<string>, orderBy: seq<string>,
                  m: Meaning): seq<seq<Out>> {
    var valued := Each(units, (u: seq<Env>) => (u, outs(u)));
    var kept := if having.Some?
      && having.value != "" then Keep(valued, (p: (seq<Env>, seq<Out>)) => m.having(having.value, p.0, p.1))
        else valued;
    var ordered := if orderBy == [] then kept else m.order(orderBy, kept);
    Each(ordered, (p: (seq<Env>, seq<Out>)) => p.1)
  }

  /** WHERE: a row stays when the condition is true, neither false nor unknown. */
  predicate Passes(where_: seq<Token>, env: Env, m: Meaning) {
    where_ == [] ||
    (Parse(where_).Some? && Value(Parse(where_).value, (text: string) => m.atom(text, env)) == True)
  }

  // ---- Evaluation ----

  function CellOf(path: seq<string>, scope: seq<string>, schema: Schema, env: Env): Cell {
    match Resolve(path, scope, schema)
    case None => Null
    case Some((table, name)) => At(env, table, name)
  }

  function ExprOut(e: Expr, scope: seq<string>, schema: Schema, env: Env, m: Meaning): Out {
    match e
    case AllColumns => Every(env)
    case Column(path) => One(CellOf(path, scope, schema, env))
    case Truncated(unit, path, _) => One(m.trunc(unit, CellOf(path, scope, schema, env)))
  }

  function ItemOut(i: Item, scope: seq<string>, schema: Schema, unit: seq<Env>, m: Meaning): Out {
    match i
    case Plain(e) => if |unit| == 0 then One(Null) else ExprOut(e, scope, schema, unit[0], m)
    case Call(f, distinct, arg, _) =>
      One(m.aggregate(f, distinct, Each(unit, (env: Env) => ExprOut(arg, scope, schema, env, m))))
  }

  function OnCondition(j: JoinClause, scope: seq<string>, schema: Schema, m: Meaning): Env -> bool {
    (env: Env) => EqualCells(ExprOut(j.left, scope, schema, env, m), ExprOut(j.right, scope, schema, env, m))
  }

  function EvalFrom(sel: Select, schema: Schema, db: Database, m: Meaning, k: nat): seq<Env>
    requires k <= |sel.joins|
  {
    if k == 0 then Each(Rows(db, sel.from), (row: TableRow) => map[sel.from := row])
    else
      var j, scope := sel.joins[k - 1], Scope(sel, k);
      JoinRows(EvalFrom(sel, schema, db, m, k - 1), Rows(db, j.table), j.table, Blank(ColumnsIn(schema, j.table)),
               j.outer, OnCondition(j, scope, schema, m))
  }

  function WhereCondition(where_: seq<Token>, m: Meaning): Env -> bool {
    (env: Env) => Passes(where_, env, m)
  }

  function GroupKey(sel: Select, scope: seq<string>, schema: Schema, m: Meaning): Env -> seq<Out> {
    (env: Env) => Each(sel.groupBy, (e: Expr) => ExprOut(e, scope, schema, env, m))
  }

  function SelectList(sel: Select, scope: seq<string>, schema: Schema, m: Meaning): seq<Env> -> seq<Out> {
    (unit: seq<Env>) => Each(sel.items, (i: Item) => ItemOut(i, scope, schema, unit, m))
  }

  function SortTexts(orderBy: seq<SortSpec>): seq<string> {
    Each(orderBy, (k: SortSpec) => k.text)
  }

  /** The rows of a statement, or None when it is not well formed. */
  ghost function EvalSelect(sel: Select, schema: Schema, db: Database, m: Meaning): Option<seq<seq<Out>>> {
    if !WellFormed(sel, schema) then None else
      var scope := Scope(sel, |sel.joins|);
      var envs := Keep(EvalFrom(sel, schema, db, m, |sel.joins|), WhereCondition(sel.where_, m));
      var units := Units(envs, Grouped(sel), sel.groupBy == [], GroupKey(sel, scope, schema, m));
      Some(First(Sorted(units, SelectList(sel, scope, schema, m), sel.having, SortTexts(sel.orderBy), m), sel.limit))
  }

  // ---- Operators respect pointwise equal arguments ----

  lemma {:induction false} MatchesCong(env: Env, rows: seq<TableRow>, table: string, p: Env -> bool, q: Env -> bool)
    requires forall e :: p(e) == q(e)
    ensures Matches(env, rows, table, p) == Matches(env, rows, table, q)
  {
    if |rows| > 0 { MatchesCong(env, rows[1..], table, p, q); }
  }

  lemma {:induction false} JoinRowsCong(envs: seq<Env>, rows: seq<TableRow>, table: string, blank: TableRow,
                                        outer: bool, p: Env -> bool, q: Env -> bool)
    requires forall e :: p(e) == q(e)
    ensures JoinRows(envs, rows, table, blank, outer, p) == JoinRows(envs, rows, table, blank, outer, q)
  {
    if |envs| > 0 {
      MatchesCong(envs[0], rows, table, p, q);
      JoinRowsCong(envs[1..], rows, table, blank, outer, p, q);
    }
  }

  lemma {:induction false} KeepCong<T(!new)>(xs: seq<T>, p: T -> bool, q: T -> bool)
    requires forall x :: p(x) == q(x)
    ensures Keep(xs, p) == Keep(xs, q)
  {
    if |xs| > 0 { KeepCong(xs[1..], p, q); }
  }

  lemma EachCong<T(!new), U>(xs: seq<T>, f: T -> U, g: T -> U)
    requires forall x | x in xs :: f(x) == g(x)
    ensures Each(xs, f) == Each(xs, g)
  {
  }

  lemma {:induction false} AddToGroupCong(groups: seq<seq<Env>>, env: Env, p: Env -> seq<Out>, q: Env -> seq<Out>)
    requires forall e :: p(e) == q(e)
    ensures AddToGroup(groups, env, p) == AddToGroup(groups, env, q)
  {
    if |groups| > 0 { AddToGroupCong(groups[1..], env, p, q); }
  }

  lemma {:induction false} GroupsCong(envs: seq<Env>, p: Env -> seq<Out>, q: Env -> seq<Out>)
    requires forall e :: p(e) == q(e)
    ensures Groups(envs, p) == Groups(envs, q)
  {
    if |envs| > 0 {
      GroupsCong(envs[..|envs| - 1], p, q);
      AddToGroupCong(Groups(envs[..|envs| - 1], p), envs[|envs| - 1], p, q);
    }
  }

  lemma UnitsCong(envs: seq<Env>, grouped: bool, ungroupedKey: bool, p: Env -> seq<Out>, q: Env -> seq<Out>)
    requires forall e :: p(e) == q(e)
    ensures Units(envs, grouped, ungroupedKey, p) == Units(envs, grouped, ungroupedKey, q)
  {
    GroupsCong(envs, p, q);
  }

  lemma SortedCong(units: seq<seq<Env>>, f: seq<Env> -> seq<Out>, g: seq<Env> -> seq<Out>, having: Option<string>,
                   orderBy: seq<string>, m: Meaning)
    requires forall u | u in units :: f(u) == g(u)
    ensures Sorted(units, f, having, orderBy, m) == Sorted(units, g, having, orderBy, m)
  {
    EachCong(units, (u: seq<Env>) => (u, f(u)), (u: seq<Env>) => (u, g(u)));
  }

  // ---- What the operators mean ----

  /** A row passes a test only when the test is true of it. */
  lemma PassesTest(text: string, env: Env, m: Meaning)
    ensures Passes([Atom(text)], env, m) <==> m.atom(text, env) == True
  {
    OneTest(text);
  }

  lemma {:induction false} MatchesExactly(env: Env, rows: seq<TableRow>, table: string, on: Env -> bool, e: Env)
    ensures e in Matches(env, rows, table, on) <==>
            exists i | 0 <= i < |rows| :: e == env[table := rows[i]] && on(e)
  {
    if |rows| > 0 {
      MatchesExactly(env, rows[1..], table, on, e);
      if i :| 0 <= i < |rows| && e == env[table := rows[i]] && on(e) {
        if i > 0 { assert rows[1..][i - 1] == rows[i]; }
      }
    }
  }

  /** One row of a join over env: a partner that meets the condition, or nulls where an outer join finds no partner. */
  ghost predicate JoinsTo(env: Env, rows: seq<TableRow>, table: string, blank: TableRow, outer: bool, on: Env -> bool,
                          e: Env) {
    || (exists i | 0 <= i < |rows| :: e == env[table := rows[i]] && on(e))
    || (outer && e == env[table := blank] && forall i | 0 <= i < |rows| :: !on(env[table := rows[i]]))
  }

  lemma OneJoins(env: Env, rows: seq<TableRow>, table: string, blank: TableRow, outer: bool, on: Env -> bool, e: Env)
    ensures e in JoinRows([env], rows, table, blank, outer, on) <==> JoinsTo(env, rows, table, blank, outer, on, e)
  {
    var matches := Matches(env, rows, table, on);
    MatchesExactly(env, rows, table, on, e);
    assert JoinRows([env][1..], rows, table, blank, outer, on) == [];
    if |matches| > 0 {
      MatchesExactly(env, rows, table, on, matches[0]);
      assert matches[0] in matches;
    } else {
      forall i | 0 <= i < |rows| ensures !on(env[table := rows[i]]) {
        MatchesExactly(env, rows, table, on, env[table := rows[i]]);
      }
    }
  }

  lemma JoinRowsSplit(envs: seq<Env>, rows: seq<TableRow>, table: string, blank: TableRow, outer: bool,
                      on: Env -> bool)
    requires |envs| > 0
    ensures JoinRows(envs, rows, table, blank, outer, on) ==
            JoinRows([envs[0]], rows, table, blank, outer, on) + JoinRows(envs[1..], rows, table, blank, outer, on)
  {
    hide Matches;
    assert [envs[0]][1..] == [];
  }

  lemma {:induction false} JoinRowsExactly(envs: seq<Env>, rows: seq<TableRow>, table: string, blank: TableRow,
                                           outer: bool, on: Env -> bool, e: Env)
    ensures e in JoinRows(envs, rows, table, blank, outer, on) <==>
            exists env | env in envs :: JoinsTo(env, rows, table, blank, outer, on, e)
  {
    if |envs| == 0 {
      assert JoinRows(envs, rows, table, blank, outer, on) == [];
    } else {
      hide *;
      JoinRowsExactly(envs[1..], rows, table, blank, outer, on, e);
      OneJoins(envs[0], rows, table, blank, outer, on, e);
      JoinRowsSplit(envs, rows, table, blank, outer, on);
      assert envs == [envs[0]] + envs[1..];
    }
  }

  /** Null joins nothing, not even null. */
  lemma NullJoinsNothing(j: JoinClause, scope: seq<string>, schema: Schema, m: Meaning, env: Env)
    ensures var (a, b) := (ExprOut(j.left, scope, schema, env, m), ExprOut(j.right, scope, schema, env, m));
            OnCondition(j, scope, schema, m)(env) <==> exists k :: a == One(Val(k)) && b == One(Val(k))
  {
    var (a, b) := (ExprOut(j.left, scope, schema, env, m), ExprOut(j.right, scope, schema, env, m));
    hide ExprOut;
    if OnCondition(j, scope, schema, m)(env) {
      assert a == One(Val(a.cell.data));
    }
  }

  /** Filtering keeps the rows that pass, in their order. */
  lemma {:induction false} KeepAppends<T>(xs: seq<T>, y: T, p: T -> bool)
    ensures Keep(xs + [y], p) == Keep(xs, p) + if p(y) then [y] else []
  {
    if |xs| > 0 {
      KeepAppends(xs[1..], y, p);
      assert (xs + [y])[1..] == xs[1..] + [y];
    }
  }

  lemma {:induction false} AddedAt(groups: seq<seq<Env>>, env: Env, key: Env -> seq<Out>, i: nat)
    requires forall g | g in groups :: |g| > 0
    requires i <= |groups| && (i < |groups| ==> key(groups[i][0]) == key(env))
    requires forall j | 0 <= j < i :: key(groups[j][0]) != key(env)
    ensures AddToGroup(groups, env, key) ==
            if i < |groups| then groups[i := groups[i] + [env]] else groups + [[env]]
  {
    if i > 0 {
      assert groups[0] in groups;
      AddedAt(groups[1..], env, key, i - 1);
    } else if |groups| > 0 {
      assert groups[0] in groups;
    }
  }

  /** The rows with one key, all of them and in their order. */
  function WithKey(envs: seq<Env>, k: seq<Out>, key: Env -> seq<Out>): seq<Env> {
    Keep(envs, (e: Env) => key(e) == k)
  }

  /** Each group is the rows with one key, different groups have different keys, and every row's key has a group. */
  ghost predicate GroupedBy(envs: seq<Env>, groups: seq<seq<Env>>, key: Env -> seq<Out>) {
    && (forall i | 0 <= i < |groups| :: |groups[i]| > 0 && groups[i] == WithKey(envs, key(groups[i][0]), key))
    && (forall i, j | 0 <= i < j < |groups| :: key(groups[i][0]) != key(groups[j][0]))
    && (forall e | e in envs :: HasGroup(groups, key(e), key))
  }

  ghost predicate HasGroup(groups: seq<seq<Env>>, k: seq<Out>, key: Env -> seq<Out>) {
    exists i | 0 <= i < |groups| :: |groups[i]| > 0 && key(groups[i][0]) == k
  }

  lemma WithKeyAppends(envs: seq<Env>, env: Env, k: seq<Out>, key: Env -> seq<Out>)
    ensures WithKey(envs + [env], k, key) == WithKey(envs, k, key) + if key(env) == k then [env] else []
  {
    KeepAppends(envs, env, (e: Env) => key(e) == k);
  }

  lemma {:induction false} WithKeyMembers(envs: seq<Env>, k: seq<Out>, key: Env -> seq<Out>)
    ensures |WithKey(envs, k, key)| > 0 ==> exists e :: e in envs && key(e) == k
    decreases |envs|
  {
    if |envs| > 0 {
      WithKeyMembers(envs[..|envs| - 1], k, key);
      WithKeyAppends(envs[..|envs| - 1], envs[|envs| - 1], k, key);
      assert envs == envs[..|envs| - 1] + [envs[|envs| - 1]];
    }
  }

  lemma GroupStays(groups: seq<seq<Env>>, out: seq<seq<Env>>, k: seq<Out>, key: Env -> seq<Out>)
    requires HasGroup(groups, k, key) && |groups| <= |out|
    requires forall i | 0 <= i < |groups| && |groups[i]| > 0 :: |out[i]| > 0 && out[i][0] == groups[i][0]
    ensures HasGroup(out, k, key)
  {
    var i :| 0 <= i < |groups| && |groups[i]| > 0 && key(groups[i][0]) == k;
    assert key(out[i][0]) == k;
  }

  lemma GroupGrows(envs: seq<Env>, groups: seq<seq<Env>>, env: Env, key: Env -> seq<Out>, i: nat)
    requires GroupedBy(envs, groups, key) && i < |groups| && key(groups[i][0]) == key(env)
    ensures GroupedBy(envs + [env], groups[i := groups[i] + [env]], key)
  {
    var out := groups[i := groups[i] + [env]];
    forall j | 0 <= j < |out| ensures |out[j]| > 0 && out[j][0] == groups[j][0] {}
    forall e | e in envs + [env] ensures HasGroup(out, key(e), key) { GroupStays(groups, out, key(e), key); }
    hide WithKey, HasGroup;
    forall j | 0 <= j < |out| ensures out[j] == WithKey(envs + [env], key(out[j][0]), key) {
      WithKeyAppends(envs, env, key(groups[j][0]), key);
    }
  }

  lemma GroupStarts(envs: seq<Env>, groups: seq<seq<Env>>, env: Env, key: Env -> seq<Out>)
    requires GroupedBy(envs, groups, key) && !HasGroup(groups, key(env), key)
    ensures GroupedBy(envs + [env], groups + [[env]], key)
  {
    var out := groups + [[env]];
    WithKeyMembers(envs, key(env), key);
    forall e | e in envs + [env] ensures HasGroup(out, key(e), key) {
      if e in envs { GroupStays(groups, out, key(e), key); } else { assert key(out[|groups|][0]) == key(e); }
    }
    forall i | 0 <= i < |groups| ensures key(groups[i][0]) != key(env) {}
    hide WithKey, HasGroup;
    forall j | 0 <= j < |out| ensures out[j] == WithKey(envs + [env], key(out[j][0]), key) {
      WithKeyAppends(envs, env, key(out[j][0]), key);
    }
  }

  lemma GroupsAdd(envs: seq<Env>, groups: seq<seq<Env>>, env: Env, key: Env -> seq<Out>)
    requires GroupedBy(envs, groups, key)
    ensures GroupedBy(envs + [env], AddToGroup(groups, env, key), key)
  {
    hide WithKey, AddToGroup;
    if i :| 0 <= i < |groups| && |groups[i]| > 0 && key(groups[i][0]) == key(env) {
      AddedAt(groups, env, key, i);
      GroupGrows(envs, groups, env, key, i);
    } else {
      AddedAt(groups, env, key, |groups|);
      GroupStarts(envs, groups, env, key);
    }
  }

  lemma {:induction false} GroupsExactly(envs: seq<Env>, key: Env -> seq<Out>)
    ensures GroupedBy(envs, Groups(envs, key), key)
    decreases |envs|
  {
    if |envs| > 0 {
      var init, last := envs[..|envs| - 1], envs[|envs| - 1];
      GroupsExactly(init, key);
      GroupsAdd(init, Groups(init, key), last, key);
      assert envs == init + [last];
    }
  }

  /** Reading one column of one table gives its cells, row by row, up to the limit. */
  lemma OneColumnSelected(table: string, name: string, limit: nat, schema: Schema, db: Database, m: Meaning)
    requires table in schema.tables && name in ColumnsIn(schema, table) && table in db
    requires forall row | row in db[table] :: name in row
    ensures var sel := Select([Plain(Column([name]))], table, [], [], [], None, [], limit);
            var rows := EvalSelect(sel, schema, db, m);
            && rows.Some? && |rows.value| == (if |db[table]| <= limit then |db[table]| else limit)
            && forall i | 0 <= i < |rows.value| :: rows.value[i] == [One(db[table][i][name])]
  {
    var sel := Select([Plain(Column([name]))], table, [], [], [], None, [], limit);
    var scope := Scope(sel, 0);
    assert scope == [table] && Candidates(scope, name, schema) == [table] + Candidates([], name, schema);
    assert Resolve([name], scope, schema) == Some((table, name));
    assert WellFormed(sel, schema);
    hide Candidates, Resolve, WellFormed, OutputWidth;
    KeepAll(EvalFrom(sel, schema, db, m, 0), WhereCondition([], m));
  }

  lemma {:induction false} KeepAll<T>(xs: seq<T>, p: T -> bool)
    requires forall x | x in xs :: p(x)
    ensures Keep(xs, p) == xs
  {
    if |xs| > 0 { KeepAll(xs[1..], p); }
  }

  /** An aggregate without GROUP BY yields one row, of an empty table too. */
  lemma AggregateYieldsOneRow(table: string, all: seq<Out>, schema: Schema, db: Database, m: Meaning)
    requires table in schema.tables && table in db && |all| == |db[table]|
    requires forall i | 0 <= i < |all| :: all[i] == Every(map[table := db[table][i]])
    ensures EvalSelect(Select([Call("count", false, AllColumns, "n")], table, [], [], [], None, [], 10), schema, db, m)
            == Some([[One(m.aggregate("count", false, all))]])
  {
    var sel := Select([Call("count", false, AllColumns, "n")], table, [], [], [], None, [], 10);
    assert sel.items[0].Call? && Scope(sel, 0) == [table];
    assert WellFormed(sel, schema);
    var envs := EvalFrom(sel, schema, db, m, 0);
    KeepAll(envs, WhereCondition([], m));
    assert Each(envs, (env: Env) => ExprOut(AllColumns, [table], schema, env, m)) == all;
    var outs := SelectList(sel, [table], schema, m);
    assert outs(envs) == [One(m.aggregate("count", false, all))];
    assert Units(envs, true, true, GroupKey(sel, [table], schema, m)) == [envs];
    assert Sorted([envs], outs, None, [], m) == [outs(envs)];
  }

  /** An empty HAVING filters nothing. */
  lemma EmptyHaving(units: seq<seq<Env>>, outs: seq<Env> -> seq<Out>, orderBy: seq<string>, m: Meaning)
    ensures Sorted(units, outs, Some(""), orderBy, m) == Sorted(units, outs, None, orderBy, m)
  {
  }
}
