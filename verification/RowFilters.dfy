/** Row-level predicates appended to the read nodes of a plan. */
module RowFilters {
  import opened Common
  import opened SearchCondition
  import opened Plan
  import C = Compile
  import S = Sql

  datatype RowFilter = RowFilter(table: string, predicate_: seq<Token>)

  /** The non-empty predicates whose table is the source or the wildcard, in order. */
  function MatchingPredicates(filters: seq<RowFilter>, source: string): (ps: seq<seq<Token>>)
    ensures forall p | p in ps :: exists f | f in filters :: f.table in {source, "*"} && f.predicate_ == p
  {
    if |filters| == 0 then [] else Wanted(filters[0], source) + MatchingPredicates(filters[1..], source)
  }

  function Wanted(f: RowFilter, source: string): seq<seq<Token>> {
    if f.table in {source, "*"} && f.predicate_ != [] then [f.predicate_] else []
  }

  /** `" AND ".join(f"({p})" for p in ps)` */
  function Conjoined(ps: seq<seq<Token>>): seq<Token> {
    if |ps| == 0 then []
    else if |ps| == 1 then Parenthesized(ps[0])
    else Parenthesized(ps[0]) + [AndWord] + Conjoined(ps[1..])
  }

  function Narrowed(filter: seq<Token>, ps: seq<seq<Token>>): seq<Token> {
    if |ps| == 0 then filter
    else if filter == [] then Conjoined(ps)
    else Parenthesized(filter) + [AndWord] + Conjoined(ps)
  }

  function FilteredNode(n: ReadNode, filters: seq<RowFilter>): ReadNode {
    n.(filter := Narrowed(n.filter, MatchingPredicates(filters, n.source)))
  }

  function Filtered(plan: LogicalPlan, filters: seq<RowFilter>): (out: LogicalPlan)
    ensures |out.nodes| == |plan.nodes|
  {
    LogicalPlan(seq(|plan.nodes|, i requires 0 <= i < |plan.nodes| =>
      if plan.nodes[i].Read? then Read(FilteredNode(plan.nodes[i].node, filters)) else plan.nodes[i]))
  }

  /** `apply_row_filters` */
  method ApplyRowFilters(plan: LogicalPlan, filters: seq<RowFilter>) returns (out: LogicalPlan)
    ensures out == Filtered(plan, filters)
  {
    if |filters| == 0 {
      assert forall i | 0 <= i < |plan.nodes| && plan.nodes[i].Read? ::
             FilteredNode(plan.nodes[i].node, filters) == plan.nodes[i].node;
      return plan;
    }
    var nodes: seq<PlanNode> := [];
    for i := 0 to |plan.nodes|
      invariant nodes == Filtered(plan, filters).nodes[..i]
    {
      var node := plan.nodes[i];
      if node.Read? {
        var predicates := MatchingPredicates(filters, node.node.source);
        if |predicates| > 0 {
          var combined := Conjoined(predicates);
          node := Read(node.node.(filter := if node.node.filter != []
            then Parenthesized(node.node.filter) + [AndWord] + combined else combined));
        }
      }
      nodes := nodes + [node];
    }
    out := LogicalPlan(nodes);
  }

  // ---- The filters read as a conjunction ----

  function Chain(cs: seq<Condition>): Condition
    requires |cs| > 0
  {
    if |cs| == 1 then cs[0] else Both(cs[0], Chain(cs[1..]))
  }

  ghost predicate AllParse(ps: seq<seq<Token>>) {
    forall p | p in ps :: Parse(p).Some?
  }

  function Conditions(ps: seq<seq<Token>>): (cs: seq<Condition>)
    requires AllParse(ps)
    ensures |cs| == |ps| && forall i | 0 <= i < |ps| :: cs[i] == Parse(ps[i]).value
  {
    seq(|ps|, i requires 0 <= i < |ps| => assert ps[i] in ps; Parse(ps[i]).value)
  }

  lemma {:induction false} ConjoinedParses(ps: seq<seq<Token>>)
    requires AllParse(ps) && |ps| > 0
    ensures ParseAnd(Conjoined(ps)) == Some((Chain(Conditions(ps)), []))
    ensures Parse(Conjoined(ps)) == Some(Chain(Conditions(ps)))
  {
    assert ps[0] in ps;
    if |ps| == 1 {
      ParenthesizedOperand(ps[0], []);
      assert Parenthesized(ps[0]) + [] == Conjoined(ps);
    } else {
      var rest := [AndWord] + Conjoined(ps[1..]);
      ParenthesizedOperand(ps[0], rest);
      assert Parenthesized(ps[0]) + rest == Conjoined(ps);
      ConjoinedParses(ps[1..]);
      assert rest[1..] == Conjoined(ps[1..]);
      assert Conditions(ps)[1..] == Conditions(ps[1..]);
    }
  }

  /** The filter a node had and the predicates, as one list of operands. */
  function Operands(filter: seq<Token>, ps: seq<seq<Token>>): seq<seq<Token>> {
    if filter == [] then ps else [filter] + ps
  }

  /**
   The narrowed filter parses, whatever operators the old filter and the predicates have at their top level,
   as the conjunction of the old filter and every predicate.
  */
  lemma NarrowedParses(filter: seq<Token>, ps: seq<seq<Token>>)
    requires (filter != [] ==> Parse(filter).Some?) && AllParse(ps) && |ps| > 0
    ensures AllParse(Operands(filter, ps))
    ensures Parse(Narrowed(filter, ps)) == Some(Chain(Conditions(Operands(filter, ps))))
  {
    ConjoinedParses(Operands(filter, ps));
    if filter != [] { assert ([filter] + ps)[1..] == ps; }
  }

  lemma {:induction false} ChainTrue(cs: seq<Condition>, atoms: string -> Truth)
    requires |cs| > 0
    ensures Value(Chain(cs), atoms) == True <==> forall i | 0 <= i < |cs| :: Value(cs[i], atoms) == True
  {
    if |cs| > 1 {
      ChainTrue(cs[1..], atoms);
      assert forall i | 1 <= i < |cs| :: cs[i] == cs[1..][i - 1];
    }
  }

  /** A row passes the narrowed filter exactly when it passes the old filter and every predicate. */
  lemma NarrowedPasses(filter: seq<Token>, ps: seq<seq<Token>>, env: S.Env, m: S.Meaning)
    requires (filter != [] ==> Parse(filter).Some?) && AllParse(ps)
    requires forall p | p in ps :: p != []
    ensures S.Passes(Narrowed(filter, ps), env, m) <==>
            S.Passes(filter, env, m) && forall p | p in ps :: S.Passes(p, env, m)
  {
    if |ps| > 0 {
      var atoms := (text: string) => m.atom(text, env);
      var all := Operands(filter, ps);
      NarrowedParses(filter, ps);
      ChainTrue(Conditions(all), atoms);
      assert |Narrowed(filter, ps)| > 0;
      hide Narrowed, Chain, Conditions;
      OperandsTrue(all, env, m);
      assert filter != [] ==> all[0] == filter && all == [filter] + ps;
    }
  }

  lemma OperandsTrue(all: seq<seq<Token>>, env: S.Env, m: S.Meaning)
    requires AllParse(all) && forall p | p in all :: p != []
    ensures var atoms := (text: string) => m.atom(text, env);
            (forall i | 0 <= i < |all| :: Value(Conditions(all)[i], atoms) == True) <==>
              forall p | p in all :: S.Passes(p, env, m)
  {
    var atoms := (text: string) => m.atom(text, env);
    forall i | 0 <= i < |all| ensures Value(Conditions(all)[i], atoms) == True <==> S.Passes(all[i], env, m) {
      assert all[i] in all;
      assert Value(Conditions(all)[i], atoms) == Value(Conditions(all)[i], (text: string) => m.atom(text, env));
    }
  }

  ghost predicate WellFormedFilters(filters: seq<RowFilter>) {
    forall f | f in filters && f.predicate_ != [] :: Parse(f.predicate_).Some?
  }

  lemma MatchingParse(filters: seq<RowFilter>, source: string)
    requires WellFormedFilters(filters)
    ensures AllParse(MatchingPredicates(filters, source)) && forall p | p in MatchingPredicates(filters, source) ::
            p != []
  {
  }

  lemma {:induction false} MatchingAppends(f: seq<RowFilter>, g: seq<RowFilter>, source: string)
    ensures MatchingPredicates(f + g, source) == MatchingPredicates(f, source) + MatchingPredicates(g, source)
  {
    hide Wanted;
    if |f| == 0 {
      assert f + g == g;
    } else {
      MatchingAppends(f[1..], g, source);
      assert (f + g)[1..] == f[1..] + g;
    }
  }

  /** Filters only narrow: a filtered node reads exactly the rows of the node that satisfy every matching predicate. */
  lemma FilteredRows(n: ReadNode, filters: seq<RowFilter>, cat: Catalog, db: S.Database, m: S.Meaning)
    requires (n.filter != [] ==> Parse(n.filter).Some?) && WellFormedFilters(filters)
    ensures var allowed := (env: S.Env) => forall p | p in MatchingPredicates(filters, n.source) :: S.Passes(p, env, m);
            S.Keep(C.JoinedRows(FilteredNode(n, filters), cat, db, m, |n.joins|),
              S.WhereCondition(FilteredNode(n, filters).filter, m))
            == S.Keep(S.Keep(C.JoinedRows(n, cat, db, m, |n.joins|), S.WhereCondition(n.filter, m)), allowed)
  {
    var ps := MatchingPredicates(filters, n.source);
    var allowed := (env: S.Env) => forall p | p in ps :: S.Passes(p, env, m);
    MatchingParse(filters, n.source);
    SameJoins(n, FilteredNode(n, filters).filter, cat, db, m, |n.joins|);
    var rows := C.JoinedRows(n, cat, db, m, |n.joins|);
    forall env ensures S.WhereCondition(Narrowed(n.filter, ps), m)(env) <==>
      S.WhereCondition(n.filter, m)(env) && allowed(env) {
      NarrowedPasses(n.filter, ps, env, m);
    }
    KeepTwice(rows, S.WhereCondition(Narrowed(n.filter, ps), m), S.WhereCondition(n.filter, m), allowed);
  }

  lemma {:induction false} SameJoins(n: ReadNode, filter: seq<Token>, cat: Catalog, db: S.Database, m: S.Meaning,
                                     k: nat)
    requires k <= |n.joins|
    ensures C.JoinedRows(n.(filter := filter), cat, db, m, k) == C.JoinedRows(n, cat, db, m, k)
  {
    if k > 0 { SameJoins(n, filter, cat, db, m, k - 1); }
  }

  lemma {:induction false} KeepTwice<T(!new)>(xs: seq<T>, both: T -> bool, p: T -> bool, q: T -> bool)
    requires forall x :: both(x) <==> p(x) && q(x)
    ensures S.Keep(xs, both) == S.Keep(S.Keep(xs, p), q)
  {
    if |xs| > 0 {
      KeepTwice(xs[1..], both, p, q);
      var rest := S.Keep(xs[1..], p);
      assert ([xs[0]] + rest)[1..] == rest && [] + rest == rest;
    }
  }

  /** Applying two lists one after the other admits the same rows as applying their concatenation. */
  lemma FiltersCompose(n: ReadNode, f: seq<RowFilter>, g: seq<RowFilter>, env: S.Env, m: S.Meaning)
    requires (n.filter != [] ==> Parse(n.filter).Some?) && WellFormedFilters(f) && WellFormedFilters(g)
    ensures S.Passes(FilteredNode(FilteredNode(n, f), g).filter, env, m) <==>
            S.Passes(FilteredNode(n, f + g).filter, env, m)
  {
    var ps, qs := MatchingPredicates(f, n.source), MatchingPredicates(g, n.source);
    MatchingParse(f, n.source);
    MatchingParse(g, n.source);
    MatchingAppends(f, g, n.source);
    if |ps| > 0 { NarrowedParses(n.filter, ps); }
    NarrowedPasses(n.filter, ps, env, m);
    NarrowedPasses(Narrowed(n.filter, ps), qs, env, m);
    NarrowedPasses(n.filter, ps + qs, env, m);
  }

  // ---- Filters on joined tables ----

  lemma {:induction false} MatchingMembers(filters: seq<RowFilter>, source: string, f: RowFilter)
    requires f in filters && f.table in {source, "*"} && f.predicate_ != []
    ensures f.predicate_ in MatchingPredicates(filters, source)
  {
    if f != filters[0] { MatchingMembers(filters[1..], source, f); }
  }

  /** The tables a node reads. */
  function TablesRead(n: ReadNode): set<string> {
    {n.source} + JoinTables(n.joins)
  }

  function TablesFiltered(filters: seq<RowFilter>): seq<string> {
    seq(|filters|, i requires 0 <= i < |filters| => filters[i].table)
  }

  /** No filter names a joined table that is not the source; a caller can check this before the call. */
  ghost predicate OnSourceOnly(n: ReadNode, tables: seq<string>) {
    forall t | t in tables && t in TablesRead(n) :: t in {n.source, "*"}
  }

  /** Every row that passes the built filter satisfies every filter on a table the node reads. */
  ghost predicate Enforced(n: ReadNode, filters: seq<RowFilter>) {
    forall f, env, m |
      f in filters && f.table in TablesRead(n) + {"*"} && f.predicate_ != []
        && S.Passes(FilteredNode(n, filters).filter, env, m) ::
      S.Passes(f.predicate_, env, m)
  }

  ghost predicate NeverPasses(filter: seq<Token>) {
    forall env, m :: !S.Passes(filter, env, m)
  }

  /** If no filter names a joined table, or the node reads no row anyway, every filter is enforced. */
  lemma FiltersEnforced(n: ReadNode, filters: seq<RowFilter>)
    requires (n.filter != [] ==> Parse(n.filter).Some?) && WellFormedFilters(filters)
    requires OnSourceOnly(n, TablesFiltered(filters)) || NeverPasses(n.filter)
    ensures Enforced(n, filters)
  {
    forall f, env, m |
      f in filters && f.table in TablesRead(n) + {"*"} && f.predicate_ != []
        && S.Passes(FilteredNode(n, filters).filter, env, m)
      ensures S.Passes(f.predicate_, env, m)
    {
      MatchingParse(filters, n.source);
      NarrowedPasses(n.filter, MatchingPredicates(filters, n.source), env, m);
      var i :| 0 <= i < |filters| && filters[i] == f;
      assert TablesFiltered(filters)[i] == f.table;
      MatchingMembers(filters, n.source, f);
    }
  }

  /** A filter on another table than the source changes nothing, whatever filters stand beside it. */
  lemma OtherFilterDropped(n: ReadNode, before: seq<RowFilter>, f: RowFilter, after: seq<RowFilter>)
    requires f.table !in {n.source, "*"}
    ensures FilteredNode(n, before + [f] + after) == FilteredNode(n, before + after)
  {
    MatchingAppends(before + [f], after, n.source);
    MatchingAppends(before, [f], n.source);
    MatchingAppends(before, after, n.source);
    assert MatchingPredicates([f], n.source) == [] by { NothingWanted([f], n.source); }
    assert MatchingPredicates(before, n.source) + [] == MatchingPredicates(before, n.source);
  }

  // ---- A row that escapes a filter ----

  /** The length of the longest comparison in a condition. */
  function Longest(c: Condition): nat {
    match c
    case Test(text) => |text|
    case Negation(d) => Longest(d)
    case Both(l, r) => if Longest(l) < Longest(r) then Longest(r) else Longest(l)
    case Either(l, r) => if Longest(l) < Longest(r) then Longest(r) else Longest(l)
  }

  lemma {:induction false} ValueWithout(c: Condition, text: string, a: string -> Truth, b: string -> Truth)
    requires |text| > Longest(c) && forall x | x != text :: a(x) == b(x)
    ensures Value(c, a) == Value(c, b)
  {
    match c
    case Test(_) =>
    case Negation(d) => ValueWithout(d, text, a, b);
    case Both(l, r) =>
      ValueWithout(l, text, a, b);
      ValueWithout(r, text, a, b);
    case Either(l, r) =>
      ValueWithout(l, text, a, b);
      ValueWithout(r, text, a, b);
  }

  /** A comparison that a filter does not mention. */
  function FreshTest(filter: seq<Token>): string {
    seq(if Parse(filter).Some? then Longest(Parse(filter).value) + 1 else 1, _ => 'p')
  }

  /** The same meaning but for one comparison, which no row satisfies. */
  function Without(m: S.Meaning, text: string): S.Meaning {
    m.(atom := (x: string, env: S.Env) => if x == text then False else m.atom(x, env))
  }

  lemma StillPasses(filter: seq<Token>, env: S.Env, m: S.Meaning)
    requires S.Passes(filter, env, m)
    ensures S.Passes(filter, env, Without(m, FreshTest(filter)))
    ensures Parse([Atom(FreshTest(filter))]).Some?
    ensures !S.Passes([Atom(FreshTest(filter))], env, Without(m, FreshTest(filter)))
  {
    var text := FreshTest(filter);
    var m' := Without(m, text);
    assert ParsePrimary([Atom(text)]) == Some((Test(text), []));
    assert ParseAnd([Atom(text)]) == Some((Test(text), []));
    assert Parse([Atom(text)]) == Some(Test(text));
    if filter != [] {
      hide Parse;
      ValueWithout(Parse(filter).value, text, (x: string) => m.atom(x, env), (x: string) => m'.atom(x, env));
    }
  }

  /** One filter that says something, on the i-th table. */
  function OneFilter(tables: seq<string>, i: nat, p: seq<Token>): (filters: seq<RowFilter>)
    ensures TablesFiltered(filters) == tables
  {
    seq(|tables|, k requires 0 <= k < |tables| => RowFilter(tables[k], if k == i then p else []))
  }

  lemma {:induction false} NothingWanted(filters: seq<RowFilter>, source: string)
    requires forall f | f in filters :: Wanted(f, source) == []
    ensures MatchingPredicates(filters, source) == []
  {
    if |filters| > 0 { NothingWanted(filters[1..], source); }
  }

  /** A filter on a joined table lets a row through that does not satisfy it. */
  lemma JoinedFilterEscaped(n: ReadNode, tables: seq<string>, i: nat, env: S.Env, m: S.Meaning)
    requires i < |tables| && tables[i] in TablesRead(n) && tables[i] !in {n.source, "*"}
    requires S.Passes(n.filter, env, m)
    ensures var filters := OneFilter(tables, i, [Atom(FreshTest(n.filter))]);
            && TablesFiltered(filters) == tables && WellFormedFilters(filters) && filters[i] in filters
            && filters[i].predicate_ != []
            && S.Passes(FilteredNode(n, filters).filter, env, Without(m, FreshTest(n.filter)))
            && !S.Passes(filters[i].predicate_, env, Without(m, FreshTest(n.filter)))
  {
    var filters := OneFilter(tables, i, [Atom(FreshTest(n.filter))]);
    StillPasses(n.filter, env, m);
    hide Parse, S.Passes, FreshTest;
    forall f | f in filters ensures Wanted(f, n.source) == [] {
      var k :| 0 <= k < |filters| && filters[k] == f;
    }
    NothingWanted(filters, n.source);
  }

  /**
   Row filters on a list of tables are enforced, whatever they say, exactly when none of the tables is joined without
   being the source, or the node's own filter lets no row pass.
  */
  lemma EnforcedExactly(n: ReadNode, tables: seq<string>)
    requires n.filter != [] ==> Parse(n.filter).Some?
    ensures (forall filters | TablesFiltered(filters) == tables && WellFormedFilters(filters) :: Enforced(n, filters))
            <==> OnSourceOnly(n, tables) || NeverPasses(n.filter)
  {
    hide Enforced, FilteredNode, WellFormedFilters, TablesRead;
    if OnSourceOnly(n, tables) || NeverPasses(n.filter) {
      forall filters | TablesFiltered(filters) == tables && WellFormedFilters(filters) ensures Enforced(n, filters) {
        FiltersEnforced(n, filters);
      }
    } else {
      var t :| t in tables && t in TablesRead(n) && t !in {n.source, "*"};
      var i :| 0 <= i < |tables| && tables[i] == t;
      var env, m :| S.Passes(n.filter, env, m);
      JoinedFilterEscaped(n, tables, i, env, m);
      NotEnforced(n, OneFilter(tables, i, [Atom(FreshTest(n.filter))]), i, env, Without(m, FreshTest(n.filter)));
    }
  }

  lemma NotEnforced(n: ReadNode, filters: seq<RowFilter>, i: nat, env: S.Env, m: S.Meaning)
    requires i < |filters| && filters[i].table in TablesRead(n) && filters[i].predicate_ != []
    requires S.Passes(FilteredNode(n, filters).filter, env, m) && !S.Passes(filters[i].predicate_, env, m)
    ensures !Enforced(n, filters)
  {
    assert filters[i] in filters;
  }
}
