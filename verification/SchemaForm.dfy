/** The canonical text of a schema, whose digest decides whether a context must be rebuilt. */
module SchemaForm {
  import opened Common
  import opened Json
  import opened Sorting
  import Text

  datatype ColumnSchema = ColumnSchema(name: string, dataType: string, nullable: bool, ordinal: int,
                                       default_: Option<string>, isPrimaryKey: bool, isForeignKey: bool,
                                       references: Option<string>, comment: Option<string>)

  datatype TableSchema = TableSchema(name: string, columns: seq<ColumnSchema>, primaryKey: seq<string>,
                                     foreignKeys: seq<(string, string)>, indexes: seq<string>, comment: Option<string>,
                                     estimatedRows: Option<int>)

  // ---- Types up to outer whitespace and case ----

  predicate Blank(c: char) {
    c == ' ' || 9 as char <= c <= 13 as char || 28 as char <= c <= 31 as char
  }

  function StripLeft(s: string): string {
    if |s| > 0 && Blank(s[0]) then StripLeft(s[1..]) else s
  }

  function StripRight(s: string): string {
    if |s| > 0 && Blank(s[|s| - 1]) then StripRight(s[..|s| - 1]) else s
  }

  function LowerChar(c: char): char {
    if 'A' <= c <= 'Z' then (c as int + 32) as char else c
  }

  function Lower(s: string): string {
    Map(LowerChar, s)
  }

  function NormalType(s: string): string {
    Lower(StripRight(StripLeft(s)))
  }

  // ---- The form ----

  function Map<T, R>(f: T -> R, s: seq<T>): (r: seq<R>)
    ensures |r| == |s| && forall i | 0 <= i < |s| :: r[i] == f(s[i])
  {
    seq(|s|, i requires 0 <= i < |s| => f(s[i]))
  }

  /** What the form keeps of a column. */
  datatype ColumnFact = ColumnFact(name: string, dataType: string, nullable: bool, ordinal: int)

  function FactOf(c: ColumnSchema): ColumnFact {
    ColumnFact(c.name, NormalType(c.dataType), c.nullable, c.ordinal)
  }

  function ColumnJson(c: ColumnFact): Json {
    Object([Field("name", Str(c.name)), Field("nullable", Truth(c.nullable)), Field("ordinal", Number(c.ordinal)),
      Field("type", Str(c.dataType))])
  }

  function ColumnSchemaJson(c: ColumnSchema): Json {
    ColumnJson(FactOf(c))
  }

  function TextJson(s: string): Json {
    Str(s)
  }

  function KeyJson(fk: (string, string)): Json {
    List([Str(fk.0), Str(fk.1)])
  }

  predicate OrdinalBefore(c: ColumnSchema, d: ColumnSchema) {
    c.ordinal < d.ordinal
  }

  predicate NameBefore(t: TableSchema, u: TableSchema) {
    Text.Before(t.name, u.name)
  }

  predicate PairBefore(p: (string, string), q: (string, string)) {
    Text.Before(p.0, q.0) || (p.0 == q.0 && Text.Before(p.1, q.1))
  }

  function TableJson(t: TableSchema): Json {
    Object([
      Field("columns", List(Map(ColumnSchemaJson, Sort(t.columns, OrdinalBefore)))),
      Field("foreign_keys", List(Map(KeyJson, Sort(t.foreignKeys, PairBefore)))),
      Field("indexes", List(Map(TextJson, Sort(t.indexes, Text.Before)))),
      Field("primary_key", List(Map(TextJson, Sort(t.primaryKey, Text.Before)))),
      Field("table", Str(t.name))])
  }

  function CanonicalSchemaForm(tables: seq<TableSchema>): string {
    CompactDumps(List(Map(TableJson, Sort(tables, NameBefore))))
  }

  // ---- What two schemas with one form have in common ----

  datatype TableFact = TableFact(name: string, columns: multiset<ColumnFact>, primaryKey: multiset<string>,
                                 foreignKeys: multiset<(string, string)>, indexes: multiset<string>)

  /** A table up to the order of its parts, and up to what the form ignores. */
  function TableFactOf(t: TableSchema): TableFact {
    TableFact(t.name, multiset(Map(FactOf, t.columns)), multiset(t.primaryKey), multiset(t.foreignKeys),
      multiset(t.indexes))
  }

  predicate DistinctOrdinals(t: TableSchema) {
    forall i, j | 0 <= i < j < |t.columns| :: t.columns[i].ordinal != t.columns[j].ordinal
  }

  predicate DistinctNames(tables: seq<TableSchema>) {
    forall i, j | 0 <= i < j < |tables| :: tables[i].name != tables[j].name
  }

  // ---- Sorting and mapping ----

  lemma {:induction false} InsertMap<T, R>(x: T, s: seq<T>, f: T -> R, less: (T, T) -> bool, lessR: (R, R) -> bool)
    requires forall a: T, b: T :: less(a, b) == lessR(f(a), f(b))
    ensures Map(f, Insert(x, s, less)) == Insert(f(x), Map(f, s), lessR)
  {
    if |s| > 0 && !less(x, s[0]) {
      InsertMap(x, s[1..], f, less, lessR);
      assert Map(f, s[1..]) == Map(f, s)[1..];
    }
  }

  /** Sorting by a key that the map keeps, then mapping, is mapping and then sorting. */
  lemma {:induction false} SortMap<T, R>(s: seq<T>, f: T -> R, less: (T, T) -> bool, lessR: (R, R) -> bool)
    requires forall a: T, b: T :: less(a, b) == lessR(f(a), f(b))
    ensures Map(f, Sort(s, less)) == Sort(Map(f, s), lessR)
  {
    if |s| > 0 {
      var init := s[..|s| - 1];
      SortMap(init, f, less, lessR);
      InsertMap(s[|s| - 1], Sort(init, less), f, less, lessR);
      assert Map(f, init) == Map(f, s)[..|s| - 1];
    }
  }

  // ---- The orders used ----

  lemma StringsCanonical(a: seq<string>, b: seq<string>)
    ensures Sort(a, Text.Before) == Sort(b, Text.Before) <==> multiset(a) == multiset(b)
  {
    Text.BeforeIsOrder();
    forall i, j | 0 <= i < |a| && 0 <= j < |a| && a[i] != a[j]
      ensures Text.Before(a[i], a[j]) || Text.Before(a[j], a[i]) {
      Text.BeforeTotal(a[i], a[j]);
    }
    SortCanonical(a, b, Text.Before);
  }

  lemma PairIsOrder()
    ensures StrictWeakOrder(PairBefore)
  {
    Text.BeforeIsOrder();
    hide Text.Before;
    forall p, q, r | PairBefore(p, r) ensures PairBefore(p, q) || PairBefore(q, r) {
      Text.BeforeTotal(p.0, q.0);
      Text.BeforeTotal(q.0, r.0);
      Text.BeforeTotal(p.1, q.1);
    }
  }

  lemma PairsCanonical(a: seq<(string, string)>, b: seq<(string, string)>)
    ensures Sort(a, PairBefore) == Sort(b, PairBefore) <==> multiset(a) == multiset(b)
  {
    PairIsOrder();
    hide Text.Before;
    forall i, j | 0 <= i < |a| && 0 <= j < |a| && a[i] != a[j]
      ensures PairBefore(a[i], a[j]) || PairBefore(a[j], a[i]) {
      Text.BeforeTotal(a[i].0, a[j].0);
      Text.BeforeTotal(a[i].1, a[j].1);
    }
    SortCanonical(a, b, PairBefore);
  }

  predicate FactOrdinalBefore(c: ColumnFact, d: ColumnFact) {
    c.ordinal < d.ordinal
  }

  lemma ColumnsSorted(columns: seq<ColumnSchema>)
    ensures Map(FactOf, Sort(columns, OrdinalBefore)) == Sort(Map(FactOf, columns), FactOrdinalBefore)
  {
    hide Sort, Map, NormalType;
    SortMap(columns, FactOf, OrdinalBefore, FactOrdinalBefore);
  }

  lemma OrdinalsDecide(t: TableSchema)
    requires DistinctOrdinals(t)
    ensures Decides(Map(FactOf, t.columns), FactOrdinalBefore)
  {
  }

  lemma ColumnsCanonical(t: TableSchema, u: TableSchema)
    requires DistinctOrdinals(t)
    ensures Map(FactOf, Sort(t.columns, OrdinalBefore)) == Map(FactOf, Sort(u.columns, OrdinalBefore)) <==>
            multiset(Map(FactOf, t.columns)) == multiset(Map(FactOf, u.columns))
  {
    hide Sort, Map, FactOf, Decides, DistinctOrdinals, OrdinalBefore;
    ColumnsSorted(t.columns);
    ColumnsSorted(u.columns);
    OrdinalsDecide(t);
    SortCanonical(Map(FactOf, t.columns), Map(FactOf, u.columns), FactOrdinalBefore);
  }

  lemma ColumnsKept(t: TableSchema, u: TableSchema)
    requires Map(FactOf, Sort(t.columns, OrdinalBefore)) == Map(FactOf, Sort(u.columns, OrdinalBefore))
    ensures multiset(Map(FactOf, t.columns)) == multiset(Map(FactOf, u.columns))
  {
    hide Sort, Map, FactOf;
    ColumnsSorted(t.columns);
    ColumnsSorted(u.columns);
  }

  // ---- The text determines the lists in it ----

  lemma MapInjective<T, R>(f: T -> R, s: seq<T>, t: seq<T>)
    requires forall a: T, b: T :: f(a) == f(b) ==> a == b
    ensures Map(f, s) == Map(f, t) <==> s == t
  {
  }

  lemma KeyJsonInjective(p: (string, string), q: (string, string))
    requires KeyJson(p) == KeyJson(q)
    ensures p == q
  {
  }

  lemma ColumnListInjective(s: seq<ColumnSchema>, t: seq<ColumnSchema>)
    ensures Map(ColumnSchemaJson, s) == Map(ColumnSchemaJson, t) <==> Map(FactOf, s) == Map(FactOf, t)
  {
  }

  lemma TableJsonEqual(t: TableSchema, u: TableSchema)
    ensures TableJson(t) == TableJson(u) <==>
      && Map(FactOf, Sort(t.columns, OrdinalBefore)) == Map(FactOf, Sort(u.columns, OrdinalBefore))
      && Sort(t.foreignKeys, PairBefore) == Sort(u.foreignKeys, PairBefore)
      && Sort(t.indexes, Text.Before) == Sort(u.indexes, Text.Before)
      && Sort(t.primaryKey, Text.Before) == Sort(u.primaryKey, Text.Before)
      && t.name == u.name
  {
    ColumnListInjective(Sort(t.columns, OrdinalBefore), Sort(u.columns, OrdinalBefore));
    forall p, q | KeyJson(p) == KeyJson(q) ensures p == q { KeyJsonInjective(p, q); }
    MapInjective(KeyJson, Sort(t.foreignKeys, PairBefore), Sort(u.foreignKeys, PairBefore));
    MapInjective(TextJson, Sort(t.indexes, Text.Before), Sort(u.indexes, Text.Before));
    MapInjective(TextJson, Sort(t.primaryKey, Text.Before), Sort(u.primaryKey, Text.Before));
    hide Sort, Map, KeyJson, ColumnSchemaJson, FactOf;
    if TableJson(t) == TableJson(u) {
      var a, b := TableJson(t).fields, TableJson(u).fields;
      assert a[0] == b[0] && a[1] == b[1] && a[2] == b[2] && a[3] == b[3] && a[4] == b[4];
    }
  }

  /** Two tables with one text agree up to order; with distinct ordinals, agreeing tables have one text. */
  lemma TableFormExact(t: TableSchema, u: TableSchema)
    ensures TableJson(t) == TableJson(u) ==> TableFactOf(t) == TableFactOf(u)
    ensures DistinctOrdinals(t) && TableFactOf(t) == TableFactOf(u) ==> TableJson(t) == TableJson(u)
  {
    TableJsonEqual(t, u);
    PairsCanonical(t.foreignKeys, u.foreignKeys);
    StringsCanonical(t.indexes, u.indexes);
    StringsCanonical(t.primaryKey, u.primaryKey);
    hide Sort, Map, FactOf, TableJson;
    if TableJson(t) == TableJson(u) { ColumnsKept(t, u); }
    if DistinctOrdinals(t) { ColumnsCanonical(t, u); }
  }

  predicate FactNameBefore(t: TableFact, u: TableFact) {
    Text.Before(t.name, u.name)
  }

  /** Sorting the tables by name sorts their facts by name. */
  lemma TablesSorted(a: seq<TableSchema>)
    ensures Map(TableFactOf, Sort(a, NameBefore)) == Sort(Map(TableFactOf, a), FactNameBefore)
  {
    SortMap(a, TableFactOf, NameBefore, FactNameBefore);
  }

  /** Schemas with one form agree on the facts of their tables, counted up to order. */
  lemma FormDeterminesFacts(a: seq<TableSchema>, b: seq<TableSchema>)
    requires CanonicalSchemaForm(a) == CanonicalSchemaForm(b)
    ensures multiset(Map(TableFactOf, a)) == multiset(Map(TableFactOf, b))
  {
    var x, y := Sort(a, NameBefore), Sort(b, NameBefore);
    DumpsInjective(List(Map(TableJson, x)), List(Map(TableJson, y)));
    assert Map(TableJson, x) == Map(TableJson, y);
    hide TableFactOf, TableJson, Sort;
    forall i | 0 <= i < |x| ensures |x| == |y| && TableFactOf(x[i]) == TableFactOf(y[i]) {
      assert |x| == |Map(TableJson, x)| == |y|;
      assert TableJson(x[i]) == Map(TableJson, x)[i] == TableJson(y[i]);
      TableFormExact(x[i], y[i]);
    }
    assert |x| == |Map(TableJson, x)| == |y|;
    assert Map(TableFactOf, x) == Map(TableFactOf, y);
    TablesSorted(a);
    TablesSorted(b);
  }

  lemma SameFactsSameText(x: seq<TableSchema>, y: seq<TableSchema>)
    requires Map(TableFactOf, x) == Map(TableFactOf, y) && forall t | t in x :: DistinctOrdinals(t)
    ensures Map(TableJson, x) == Map(TableJson, y)
  {
    hide TableFactOf, TableJson, DistinctOrdinals;
    assert |x| == |Map(TableFactOf, x)| == |Map(TableFactOf, y)| == |y|;
    forall i | 0 <= i < |x| ensures TableJson(x[i]) == TableJson(y[i]) {
      assert TableFactOf(x[i]) == Map(TableFactOf, x)[i] == TableFactOf(y[i]);
      TableFormExact(x[i], y[i]);
    }
  }

  lemma FactsDetermineForm(a: seq<TableSchema>, b: seq<TableSchema>)
    requires DistinctNames(a) && forall t | t in a :: DistinctOrdinals(t)
    requires multiset(Map(TableFactOf, a)) == multiset(Map(TableFactOf, b))
    ensures CanonicalSchemaForm(a) == CanonicalSchemaForm(b)
  {
    hide Sort, Map, DistinctOrdinals, DistinctNames, CompactDumps, StrictWeakOrder, Decides;
    TablesSorted(a);
    TablesSorted(b);
    NamesDecide(a);
    FactNameIsOrder();
    SortCanonical(Map(TableFactOf, a), Map(TableFactOf, b), FactNameBefore);
    SortMembers(a, NameBefore);
    SameFactsSameText(Sort(a, NameBefore), Sort(b, NameBefore));
  }

  lemma FactNameIsOrder()
    ensures StrictWeakOrder(FactNameBefore)
  {
    Text.BeforeIsOrder();
    hide Text.Before;
  }

  lemma NamesDecide(a: seq<TableSchema>)
    requires DistinctNames(a)
    ensures Decides(Map(TableFactOf, a), FactNameBefore)
  {
    var m := Map(TableFactOf, a);
    forall i, j | 0 <= i < |m| && 0 <= j < |m| && m[i] != m[j]
      ensures FactNameBefore(m[i], m[j]) || FactNameBefore(m[j], m[i]) {
      assert m[i].name == a[i].name && m[j].name == a[j].name;
      Text.BeforeTotal(a[i].name, a[j].name);
    }
  }

  /**
   With distinct table names and distinct ordinals, two schemas have one form exactly when they have the same tables
   up to the order of tables, columns, primary key, foreign keys and indexes, and up to what a fact leaves out.
  */
  lemma FormDecidesStructure(a: seq<TableSchema>, b: seq<TableSchema>)
    requires DistinctNames(a) && forall t | t in a :: DistinctOrdinals(t)
    ensures CanonicalSchemaForm(a) == CanonicalSchemaForm(b) <==>
            multiset(Map(TableFactOf, a)) == multiset(Map(TableFactOf, b))
  {
    hide *;
    if CanonicalSchemaForm(a) == CanonicalSchemaForm(b) { FormDeterminesFacts(a, b); }
    if multiset(Map(TableFactOf, a)) == multiset(Map(TableFactOf, b)) { FactsDetermineForm(a, b); }
  }

  // ---- Types ----

  /** A tab, line break, separator or space. */
  ghost predicate IsSpace(c: char) {
    c as int in {9, 10, 11, 12, 13, 28, 29, 30, 31, 32}
  }

  ghost predicate AllBlank(s: string) {
    forall c | c in s :: IsSpace(c)
  }

  lemma BlankIs(c: char)
    ensures Blank(c) <==> IsSpace(c)
  {
  }

  lemma {:induction false} StripLeftPadded(pad: string, s: string)
    requires AllBlank(pad) && (|s| > 0 ==> !Blank(s[0]))
    ensures StripLeft(pad + s) == s
  {
    if |pad| > 0 {
      BlankIs(pad[0]);
      StripLeftPadded(pad[1..], s);
      assert (pad + s)[1..] == pad[1..] + s && pad[0] in pad;
    } else {
      assert pad + s == s;
    }
  }

  lemma {:induction false} StripRightPadded(s: string, pad: string)
    requires AllBlank(pad) && (|s| > 0 ==> !Blank(s[|s| - 1]))
    ensures StripRight(s + pad) == s
  {
    if |pad| > 0 {
      BlankIs(pad[|pad| - 1]);
      StripRightPadded(s, pad[..|pad| - 1]);
      assert (s + pad)[..|s + pad| - 1] == s + pad[..|pad| - 1] && pad[|pad| - 1] in pad;
    } else {
      assert s + pad == s;
    }
  }

  /** A type without outer blanks keeps its normal form when blanks are put around it. */
  lemma TypePaddingIgnored(left: string, s: string, right: string)
    requires AllBlank(left) && AllBlank(right) && |s| > 0 && !Blank(s[0]) && !Blank(s[|s| - 1])
    ensures NormalType(left + (s + right)) == Lower(s)
  {
    StripLeftPadded(left, s + right);
    StripRightPadded(s, right);
  }

  ghost predicate Trimmed(s: string) {
    |s| > 0 ==> !IsSpace(s[0]) && !IsSpace(s[|s| - 1])
  }

  /** Equal, or one the capital of the other. */
  ghost predicate SameLetter(c: char, d: char) {
    c == d || ('A' <= c <= 'Z' && d as int == c as int + 32) || ('A' <= d <= 'Z' && c as int == d as int + 32)
  }

  ghost predicate SameLetters(s: string, t: string) {
    |s| == |t| && forall i | 0 <= i < |s| :: SameLetter(s[i], t[i])
  }

  /** Without the blanks around them, the two differ at most in the case of letters. */
  ghost predicate SameType(s: string, t: string) {
    exists x, y :: Within(x, s) && Within(y, t) && SameLetters(x, y)
  }

  /** x is s without the blanks around it. */
  ghost predicate Within(x: string, s: string) {
    Trimmed(x) && exists left, right :: AllBlank(left) && AllBlank(right) && s == left + (x + right)
  }

  lemma LowerExactly(s: string, t: string)
    ensures Lower(s) == Lower(t) <==> SameLetters(s, t)
  {
    if SameLetters(s, t) {
      forall i | 0 <= i < |s| ensures Lower(s)[i] == Lower(t)[i] { assert SameLetter(s[i], t[i]); }
    }
    if Lower(s) == Lower(t) {
      assert |Lower(s)| == |s| && |Lower(t)| == |t|;
      forall i | 0 <= i < |s| ensures SameLetter(s[i], t[i]) { assert Lower(s)[i] == Lower(t)[i]; }
    }
  }

  lemma {:induction false} StripLeftWithin(s: string) returns (left: string)
    ensures AllBlank(left) && s == left + StripLeft(s)
    ensures |StripLeft(s)| > 0 ==> !Blank(StripLeft(s)[0])
  {
    if |s| > 0 && Blank(s[0]) {
      BlankIs(s[0]);
      var rest := StripLeftWithin(s[1..]);
      left := [s[0]] + rest;
    } else {
      left := "";
    }
  }

  lemma {:induction false} StripRightWithin(s: string) returns (right: string)
    ensures AllBlank(right) && s == StripRight(s) + right
    ensures |StripRight(s)| > 0 ==> !Blank(StripRight(s)[|StripRight(s)| - 1])
  {
    if |s| > 0 && Blank(s[|s| - 1]) {
      BlankIs(s[|s| - 1]);
      var rest := StripRightWithin(s[..|s| - 1]);
      right := rest + [s[|s| - 1]];
    } else {
      right := "";
    }
  }

  lemma StrippedWithin(s: string)
    ensures Within(StripRight(StripLeft(s)), s)
  {
    var left := StripLeftWithin(s);
    var inner := StripLeft(s);
    var right := StripRightWithin(inner);
    var x := StripRight(inner);
    if |x| > 0 {
      assert x[0] == inner[0];
      BlankIs(x[0]);
      BlankIs(x[|x| - 1]);
    }
  }

  lemma WithinStripped(x: string, s: string)
    requires Within(x, s)
    ensures StripRight(StripLeft(s)) == x
  {
    var left, right :| AllBlank(left) && AllBlank(right) && s == left + (x + right);
    if |x| > 0 {
      BlankIs(x[0]);
      BlankIs(x[|x| - 1]);
      StripLeftPadded(left, x + right);
      StripRightPadded(x, right);
    } else {
      assert s == (left + right) + "" && "" + (left + right) == left + right;
      StripLeftPadded(left + right, "");
    }
  }

  /** Two types have one normal form exactly when they differ only in outer blanks and the case of letters. */
  lemma NormalTypeExactly(s: string, t: string)
    ensures NormalType(s) == NormalType(t) <==> SameType(s, t)
  {
    var x, y := StripRight(StripLeft(s)), StripRight(StripLeft(t));
    StrippedWithin(s);
    StrippedWithin(t);
    LowerExactly(x, y);
    hide Within, Lower, SameLetters;
    if SameType(s, t) {
      var x', y' :| Within(x', s) && Within(y', t) && SameLetters(x', y');
      WithinStripped(x', s);
      WithinStripped(y', t);
    }
  }

  /** What the form keeps of a column: name, nullability, place, and the type but for blanks and case. */
  lemma FactExactly(c: ColumnSchema, d: ColumnSchema)
    ensures FactOf(c) == FactOf(d) <==>
            c.name == d.name && c.nullable == d.nullable && c.ordinal == d.ordinal && SameType(c.dataType, d.dataType)
  {
    NormalTypeExactly(c.dataType, d.dataType);
    hide NormalType, SameType;
  }

  lemma SortOne<T>(x: T, less: (T, T) -> bool)
    ensures Sort([x], less) == [x]
  {
    assert [x][..0] == [] && Insert(x, [], less) == [x];
  }

  lemma MapOne<T, R>(f: T -> R, x: T)
    ensures Map(f, [x]) == [f(x)]
  {
  }

  /** The layout of the text: keys in order, without blanks, a foreign key as the pair of its column and reference. */
  lemma FormLaidOut(t: TableSchema, c: ColumnSchema, key: string, fk: (string, string), index: string)
    requires t.columns == [c] && t.primaryKey == [key] && t.foreignKeys == [fk] && t.indexes == [index]
    ensures CanonicalSchemaForm([t]) ==
            Put("", List([Object([
              Field("columns", List([Object([
                Field("name", Str(c.name)), Field("nullable", Truth(c.nullable)), Field("ordinal", Number(c.ordinal)),
                Field("type", Str(NormalType(c.dataType)))])])),
              Field("foreign_keys", List([List([Str(fk.0), Str(fk.1)])])),
              Field("indexes", List([Str(index)])),
              Field("primary_key", List([Str(key)])),
              Field("table", Str(t.name))])]), "")
  {
    hide Put, NormalType, Text.Before;
    SortOne(t, NameBefore);
    SortOne(c, OrdinalBefore);
    SortOne(fk, PairBefore);
    SortOne(index, Text.Before);
    SortOne(key, Text.Before);
    hide Sort;
    MapOne(TableJson, t);
    MapOne(ColumnSchemaJson, c);
    MapOne(KeyJson, fk);
    MapOne(TextJson, index);
    MapOne(TextJson, key);
    hide Map;
  }
}
