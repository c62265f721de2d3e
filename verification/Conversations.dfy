/** The conversation table and its keyset pagination. */
module Conversations {
  import opened Common
  import I = Ids
  import Numerals
  import opened Sorting
  import opened Text

  datatype Row = Row(org: string, project: string, title: string)

  type Table = map<string, Row>

  predicate Visible(table: Table, org: string, project: string, id: string) {
    id in table && table[id].org == org && table[id].project == project
  }

  predicate Ascending(ids: seq<string>) {
    forall i, j | 0 <= i < j < |ids| :: Before(ids[i], ids[j])
  }

  /** Past the cursor; an empty cursor means from the start. */
  predicate Past(cursor: string, id: string) {
    cursor == "" || Before(cursor, id)
  }

  /** What one page holds: the next visible ids past the cursor, and a cursor exactly when there are more. */
  ghost predicate Page(table: Table, org: string, project: string, cursor: string, limit: nat, items: seq<string>,
                       next: Option<string>) {
    && Ascending(items) && |items| <= limit
    && (forall id | id in items :: Visible(table, org, project, id) && Past(cursor, id))
    && (forall id | Visible(table, org, project, id) && Past(cursor, id) && id !in items ::
          |items| == limit && forall x | x in items :: Before(x, id))
    && (next.Some? <==> |items| > 0 && exists id ::
      Visible(table, org, project, id) && Past(cursor, id) && id !in items)
    && (next.Some? ==> next.value == items[|items| - 1])
  }

  function Same(id: string): string { id }

  class ConversationStore {
    var table: Table

    constructor ()
      ensures table == map[]
    {
      table := map[];
    }

    method Create(org: string, project: string, id: string, title: string) returns (res: Result<()>)
      modifies this
      ensures res == if id in old(table) then Err(Conflict) else Ok(())
      ensures table == if res.Ok? then old(table)[id := Row(org, project, title)] else old(table)
    {
      if id in table {
        return Err(Conflict);
      }
      table := table[id := Row(org, project, title)];
      res := Ok(());
    }

    /** `_list`: ask for one row more than the page holds to learn whether there is a next page. */
    method List(org: string, project: string, cursor: string, limit: nat) returns (items: seq<string>,
                next: Option<string>)
      ensures Page(table, org, project, cursor, limit, items, next)
    {
      var matches: seq<string> := [];
      var todo := table.Keys;
      while todo != {}
        invariant todo <= table.Keys
        invariant forall id :: id in matches <==> Visible(table, org, project, id) && Past(cursor, id) && id !in todo
        invariant NoDuplicates(matches)
        decreases todo
      {
        var id :| id in todo;
        todo := todo - {id};
        if table[id].org == org && table[id].project == project && (cursor == "" || Before(cursor, id)) {
          matches := matches + [id];
        }
      }
      var sorted := SortBy(matches, Same);
      SortedAscending(matches, sorted);
      var rows := if |sorted| <= limit + 1 then sorted else sorted[..limit + 1];
      items := if |rows| <= limit then rows else rows[..limit];
      next := if |rows| > limit && |items| > 0 then Some(items[|items| - 1]) else None;
      PageOf(table, org, project, cursor, limit, sorted, items, next);
    }
  }

  lemma SortedAscending(s: seq<string>, r: seq<string>)
    requires NoDuplicates(s) && r == SortBy(s, Same)
    ensures Ascending(r) && forall id :: id in r <==> id in s
  {
    SortByMembers(s, Same);
    DistinctRearranged(s, r);
    forall i, j | 0 <= i < j < |r| ensures Before(r[i], r[j]) { assert AtMost(Same(r[i]), Same(r[j])); }
  }

  lemma PageOf(table: Table, org: string, project: string, cursor: string, limit: nat, sorted: seq<string>,
               items: seq<string>, next: Option<string>)
    requires Ascending(sorted) && forall id :: id in sorted <==> Visible(table, org, project, id) && Past(cursor, id)
    requires items == sorted[..if |sorted| <= limit then |sorted| else limit]
    requires next == if |sorted| > limit && limit > 0 then Some(sorted[limit - 1]) else None
    ensures Page(table, org, project, cursor, limit, items, next)
  {
    forall i, j | 0 <= i < |items| && |items| <= j < |sorted| ensures sorted[i] != sorted[j] {
      assert Before(sorted[i], sorted[j]);
      BeforeIrreflexive(sorted[i]);
    }
    if |sorted| > limit {
      assert sorted[limit] in sorted && sorted[limit] !in items;
    }
  }

  // ---- Following the cursor ----

  /** Pages read one after the other, each from the table as it then was, following the cursor to the end. */
  ghost predicate Walk(tables: seq<Table>, org: string, project: string, limit: nat, pages: seq<seq<string>>,
                       cursors: seq<string>) {
    && |tables| == |pages| == |cursors| > 0 && cursors[0] == ""
    && (forall k | 0 <= k < |pages| - 1 ::
      Page(tables[k], org, project, cursors[k], limit, pages[k], Some(cursors[k + 1])))
    && Page(tables[|pages| - 1], org, project, cursors[|pages| - 1], limit, pages[|pages| - 1], None)
  }

  /** Conversations are only added between pages. */
  ghost predicate Growing(tables: seq<Table>) {
    forall k | 0 <= k < |tables| - 1 :: forall id | id in tables[k] ::
      id in tables[k + 1] && tables[k + 1][id] == tables[k][id]
  }

  /** Every id added between two pages is later than all the conversations there were. */
  ghost predicate AddedInOrder(tables: seq<Table>) {
    forall k | 0 <= k < |tables| - 1 :: forall id, x | id in tables[k + 1] && id !in tables[k] && x in tables[k] ::
      Before(x, id)
  }

  function Flatten(pages: seq<seq<string>>): seq<string> {
    if |pages| == 0 then [] else Flatten(pages[..|pages| - 1]) + pages[|pages| - 1]
  }

  /** After k pages: the ids seen ascend up to the cursor, and a visible id at or before the cursor has been seen. */
  ghost predicate WalkInv(first: Table, current: Table, org: string, project: string, seen: seq<string>, cursor: string,
                          ordered: bool) {
    && Ascending(seen)
    && (if cursor == "" then seen == [] else |seen| > 0 && seen[|seen| - 1] == cursor)
    && (forall id | id in seen :: Visible(current, org, project, id))
    && (forall id | Visible(if ordered then current else first, org, project, id) && !Past(cursor, id) :: id in seen)
  }

  lemma PageAdvances(first: Table, current: Table, later: Table, org: string, project: string, seen: seq<string>,
                     cursor: string, limit: nat, items: seq<string>, next: string, ordered: bool)
    requires "" !in current && limit >= 1
    requires WalkInv(first, current, org, project, seen, cursor, ordered)
    requires Page(current, org, project, cursor, limit, items, Some(next))
    requires forall id | id in first :: id in current && current[id] == first[id]
    requires forall id | id in current :: id in later && later[id] == current[id]
    requires ordered ==> forall id, x | id in later && id !in current && x in current :: Before(x, id)
    ensures WalkInv(first, later, org, project, seen + items, next, ordered)
  {
    SeenAscend(seen, cursor, items);
    assert next in items;
    assert forall id | Visible(current, org, project, id) && !Past(next, id) :: id in items || !Past(cursor, id);
  }

  lemma SeenAscend(seen: seq<string>, cursor: string, items: seq<string>)
    requires Ascending(seen) && Ascending(items) && forall id | id in items :: Past(cursor, id)
    requires if cursor == "" then seen == [] else |seen| > 0 && seen[|seen| - 1] == cursor
    ensures Ascending(seen + items)
  {
    forall i, j | 0 <= i < |seen| && 0 <= j < |items| ensures Before(seen[i], items[j]) {
      assert items[j] in items;
      if i < |seen| - 1 { BeforeTransitive(seen[i], cursor, items[j]); }
    }
  }

  lemma {:induction false} WalkKeeps(tables: seq<Table>, org: string, project: string, limit: nat,
                                     pages: seq<seq<string>>, cursors: seq<string>, k: nat, ordered: bool)
    requires Walk(tables, org, project, limit, pages, cursors) && Growing(tables) && limit >= 1
    requires forall t | t in tables :: "" !in t
    requires ordered ==> AddedInOrder(tables)
    requires k < |pages|
    ensures WalkInv(tables[0], tables[k], org, project, Flatten(pages[..k]), cursors[k], ordered)
    ensures forall id | id in tables[0] :: id in tables[k] && tables[k][id] == tables[0][id]
  {
    if k > 0 {
      WalkKeeps(tables, org, project, limit, pages, cursors, k - 1, ordered);
      assert tables[k - 1] in tables;
      WalkStep(tables, org, project, limit, pages, cursors, k - 1, ordered);
      hide Walk, Growing, AddedInOrder, WalkInv, Page, Flatten, Before;
      FlattenOne(pages, k);
      PageAdvances(tables[0], tables[k - 1], tables[k], org, project, Flatten(pages[..k - 1]), cursors[k - 1], limit,
                   pages[k - 1], cursors[k], ordered);
    } else {
      assert pages[..0] == [];
    }
  }

  lemma FlattenOne(pages: seq<seq<string>>, k: nat)
    requires 0 < k <= |pages|
    ensures Flatten(pages[..k]) == Flatten(pages[..k - 1]) + pages[k - 1]
  {
    assert pages[..k][..k - 1] == pages[..k - 1];
  }

  lemma WalkStep(tables: seq<Table>, org: string, project: string, limit: nat, pages: seq<seq<string>>,
                 cursors: seq<string>, k: nat, ordered: bool)
    requires Walk(tables, org, project, limit, pages, cursors) && Growing(tables) && k < |pages| - 1
    requires ordered ==> AddedInOrder(tables)
    ensures Page(tables[k], org, project, cursors[k], limit, pages[k], Some(cursors[k + 1]))
    ensures forall id | id in tables[k] :: id in tables[k + 1] && tables[k + 1][id] == tables[k][id]
    ensures ordered ==> forall id, x | id in tables[k + 1] && id !in tables[k] && x in tables[k] :: Before(x, id)
  {
    hide Page, Before;
  }

  /**
   Following the cursor with any limit of at least one: the pages together ascend, so nothing is listed twice; every
   conversation that existed at the start is listed, and everything listed exists. If ids are issued in order, every
   conversation that exists at the last page is listed.
  */
  lemma PaginationExact(tables: seq<Table>, org: string, project: string, limit: nat, pages: seq<seq<string>>,
                        cursors: seq<string>)
    requires Walk(tables, org, project, limit, pages, cursors) && Growing(tables) && limit >= 1
    requires forall t | t in tables :: "" !in t
    ensures Ascending(Flatten(pages))
    ensures forall id | Visible(tables[0], org, project, id) :: id in Flatten(pages)
    ensures forall id | id in Flatten(pages) :: Visible(tables[|tables| - 1], org, project, id)
    ensures AddedInOrder(tables) ==> forall id | Visible(tables[|tables| - 1], org, project, id) :: id in Flatten(pages)
  {
    var n := |pages| - 1;
    WalkKeeps(tables, org, project, limit, pages, cursors, n, false);
    SeenAscend(Flatten(pages[..n]), cursors[n], pages[n]);
    LastPageComplete(tables[n], org, project, cursors[n], limit, pages[n]);
    if AddedInOrder(tables) { WalkKeeps(tables, org, project, limit, pages, cursors, n, true); }
  }

  lemma LastPageComplete(table: Table, org: string, project: string, cursor: string, limit: nat, items: seq<string>)
    requires Page(table, org, project, cursor, limit, items, None) && limit >= 1
    ensures forall id | Visible(table, org, project, id) && Past(cursor, id) :: id in items
  {
  }

  // ---- Conversations created between pages ----

  /** A request to create a conversation: the clock and the random characters its id is made with. */
  datatype Creation = Creation(org: string, project: string, title: string, now: nat, random: string)

  /** Every conversation has an id the source issued under the conversation prefix. */
  ghost predicate FromSource(table: Table, issued: seq<string>) {
    forall id | id in table :: exists e :: e in issued && id == "conv" + "_" + e
  }

  /** Rows are only added, each with an id later than all there were. */
  ghost predicate GrownInOrder(before: Table, after: Table) {
    && (forall id | id in before :: id in after && after[id] == before[id])
    && forall id, x | id in after && id !in before && x in before :: Before(x, id)
  }

  lemma GrownTwice(a: Table, b: Table, c: Table)
    requires GrownInOrder(a, b) && GrownInOrder(b, c)
    ensures GrownInOrder(a, c)
  {
  }

  lemma IssuedLater(table: Table, issued: seq<string>, id: string, row: Row)
    requires FromSource(table, issued) && forall e | e in issued :: Before("conv" + "_" + e, id)
    ensures id !in table && GrownInOrder(table, table[id := row])
  {
    BeforeIrreflexive(id);
    hide Before;
  }

  lemma StillFromSource(table: Table, issued: seq<string>, id: string, row: Row, e: string)
    requires FromSource(table, issued) && id == "conv" + "_" + e
    ensures FromSource(table[id := row], issued + [e])
    ensures FromSource(table, issued + [e])
  {
    forall x | x in table[id := row] || x in table ensures exists y :: y in issued + [e] && x == "conv" + "_" + y {
      if x in table {
        var y :| y in issued && x == "conv" + "_" + y;
        assert y in issued + [e];
      } else {
        assert e in issued + [e];
      }
    }
  }

  /** A conversation is created under a fresh id, which is later than all others while sixteen digits suffice. */
  method CreateIssued(store: ConversationStore, ids: I.IdSource, c: Creation) returns (id: string)
    requires ids.Valid() && FromSource(store.table, ids.issued)
    modifies store, ids
    ensures ids.Valid() && FromSource(store.table, ids.issued) && ids.lastTs >= old(ids.lastTs)
    ensures ids.lastTs < Numerals.Power(16, I.WIDTH) ==>
              && id !in old(store.table)
              && store.table == old(store.table)[id := Row(c.org, c.project, c.title)]
              && GrownInOrder(old(store.table), store.table)
  {
    hide *;
    ghost var table0, issued0, row := store.table, ids.issued, Row(c.org, c.project, c.title);
    id := ids.EntityId("conv", c.now, c.random);
    ghost var e := ids.issued[|ids.issued| - 1];
    assert ids.issued == issued0 + [e];
    StillFromSource(table0, issued0, id, row, e);
    if ids.lastTs < Numerals.Power(16, I.WIDTH) { IssuedLater(table0, issued0, id, row); }
    var _ := store.Create(c.org, c.project, id, c.title);
  }

  method CreateBatch(store: ConversationStore, ids: I.IdSource, batch: seq<Creation>)
    requires ids.Valid() && FromSource(store.table, ids.issued)
    modifies store, ids
    ensures ids.Valid() && FromSource(store.table, ids.issued) && ids.lastTs >= old(ids.lastTs)
    ensures ids.lastTs < Numerals.Power(16, I.WIDTH) ==> GrownInOrder(old(store.table), store.table)
  {
    ghost var table0 := store.table;
    for i := 0 to |batch|
      invariant ids.Valid() && FromSource(store.table, ids.issued) && ids.lastTs >= old(ids.lastTs)
      invariant ids.lastTs < Numerals.Power(16, I.WIDTH) ==> GrownInOrder(table0, store.table)
    {
      ghost var table1 := store.table;
      var _ := CreateIssued(store, ids, batch[i]);
      hide Numerals.Power, FromSource, GrownInOrder;
      if ids.lastTs < Numerals.Power(16, I.WIDTH) { GrownTwice(table0, table1, store.table); }
    }
  }

  /** The pages read so far, from tables that only grew in order, up to the one the next page is read from. */
  ghost predicate Walking(tables: seq<Table>, org: string, project: string, limit: nat, pages: seq<seq<string>>,
                          cursors: seq<string>, ordered: bool) {
    && |tables| == |cursors| == |pages| + 1 && cursors[0] == ""
    && (forall k | 0 <= k < |pages| :: Page(tables[k], org, project, cursors[k], limit, pages[k], Some(cursors[k + 1])))
    && (ordered ==> forall k | 0 <= k < |pages| :: GrownInOrder(tables[k], tables[k + 1]))
  }

  lemma WalksOn(tables: seq<Table>, org: string, project: string, limit: nat, pages: seq<seq<string>>,
                cursors: seq<string>, ordered: bool, items: seq<string>, next: string, later: Table)
    requires Walking(tables, org, project, limit, pages, cursors, ordered)
    requires Page(tables[|pages|], org, project, cursors[|pages|], limit, items, Some(next))
    requires ordered ==> GrownInOrder(tables[|pages|], later)
    ensures Walking(tables + [later], org, project, limit, pages + [items], cursors + [next], ordered)
  {
    hide Page, GrownInOrder;
  }

  lemma StillWalking(tables: seq<Table>, org: string, project: string, limit: nat, pages: seq<seq<string>>,
                     cursors: seq<string>, before: bool, after: bool)
    requires Walking(tables, org, project, limit, pages, cursors, before) && (after ==> before)
    ensures Walking(tables, org, project, limit, pages, cursors, after)
  {
  }

  lemma WalkDone(tables: seq<Table>, org: string, project: string, limit: nat, pages: seq<seq<string>>,
                 cursors: seq<string>, items: seq<string>)
    requires Walking(tables, org, project, limit, pages, cursors, true)
    requires Page(tables[|pages|], org, project, cursors[|pages|], limit, items, None)
    ensures Walk(tables, org, project, limit, pages + [items], cursors) && Growing(tables) && AddedInOrder(tables)
  {
    hide Page;
    var all := pages + [items];
    assert forall k | 0 <= k < |tables| - 1 :: all[k] == pages[k] && GrownInOrder(tables[k], tables[k + 1]);
  }

  ghost function Ahead(table: Table, org: string, project: string, cursor: string): set<string> {
    set id | id in table && Visible(table, org, project, id) && Past(cursor, id)
  }

  lemma PageShrinks(table: Table, org: string, project: string, cursor: string, limit: nat, items: seq<string>,
                    next: string)
    requires Page(table, org, project, cursor, limit, items, Some(next)) && limit >= 1 && "" !in table
    ensures Ahead(table, org, project, next) < Ahead(table, org, project, cursor)
  {
    assert next in items;
    forall id | id in Ahead(table, org, project, next) ensures id in Ahead(table, org, project, cursor) {
      if cursor != "" { BeforeTransitive(cursor, next, id); }
    }
    BeforeIrreflexive(next);
    assert next in Ahead(table, org, project, cursor) && next !in Ahead(table, org, project, next);
  }

  /** Where a reader is: the tables and cursors of the pages so far, the last of them the present ones. */
  ghost predicate Browsing(tables: seq<Table>, cursors: seq<string>, pages: seq<seq<string>>, table: Table,
                           cursor: string, org: string, project: string, limit: nat, ordered: bool) {
    && |tables| == |cursors| == |pages| + 1 && tables[|pages|] == table && cursors[|pages|] == cursor
    && Walking(tables, org, project, limit, pages, cursors, ordered)
    && forall t | t in tables :: "" !in t
  }

  lemma BrowseStarts(table: Table, org: string, project: string, limit: nat, ordered: bool)
    requires "" !in table
    ensures Browsing([table], [""], [], table, "", org, project, limit, ordered)
  {
  }

  lemma BrowsesOn(tables: seq<Table>, cursors: seq<string>, pages: seq<seq<string>>, table: Table, cursor: string,
                  org: string, project: string, limit: nat, ordered: bool, items: seq<string>, next: string,
                  later: Table, still: bool)
    requires Browsing(tables, cursors, pages, table, cursor, org, project, limit, ordered) && "" !in later
    requires Page(table, org, project, cursor, limit, items, Some(next))
    requires still ==> ordered && GrownInOrder(table, later)
    ensures Browsing(tables + [later], cursors + [next], pages + [items], later, next, org, project, limit, still)
  {
    hide Page, GrownInOrder, Walking;
    StillWalking(tables, org, project, limit, pages, cursors, ordered, still);
    WalksOn(tables, org, project, limit, pages, cursors, still, items, next, later);
  }

  lemma BrowseDone(tables: seq<Table>, cursors: seq<string>, pages: seq<seq<string>>, table: Table, cursor: string,
                   org: string, project: string, limit: nat, items: seq<string>)
    requires Browsing(tables, cursors, pages, table, cursor, org, project, limit, true) && limit >= 1
    requires Page(table, org, project, cursor, limit, items, None)
    ensures Ascending(Flatten(pages + [items]))
    ensures forall id :: id in Flatten(pages + [items]) <==> Visible(table, org, project, id)
  {
    hide Page, GrownInOrder, Walking, Walk, Growing, AddedInOrder, Visible, Ascending, Flatten;
    WalkDone(tables, org, project, limit, pages, cursors, items);
    PaginationExact(tables, org, project, limit, pages + [items], cursors);
  }

  /**
   Someone reads the list page by page while conversations are created between the pages, batch after batch, under
   issued ids: at the end the pages hold every visible conversation of the table as it then is, once and in order.
  */
  method BrowseWhileCreating(store: ConversationStore, ids: I.IdSource, org: string, project: string, limit: nat,
                             batches: seq<seq<Creation>>) returns (pages: seq<seq<string>>)
    requires ids.Valid() && FromSource(store.table, ids.issued) && limit >= 1
    modifies store, ids
    ensures ids.Valid() && FromSource(store.table, ids.issued)
    ensures ids.lastTs < Numerals.Power(16, I.WIDTH) ==>
              && Ascending(Flatten(pages))
              && forall id :: id in Flatten(pages) <==> Visible(store.table, org, project, id)
  {
    hide *;
    ghost var last := Numerals.Power(16, I.WIDTH);
    pages := [];
    ghost var tables, cursors := [store.table], [""];
    var cursor, k := "", 0;
    NoEmptyId(store.table, ids.issued);
    BrowseStarts(store.table, org, project, limit, ids.lastTs < last);
    while true
      invariant 0 <= k <= |batches| && ids.Valid() && FromSource(store.table, ids.issued) && "" !in store.table
      invariant Browsing(tables, cursors, pages, store.table, cursor, org, project, limit, ids.lastTs < last)
      decreases |batches| - k, Ahead(store.table, org, project, cursor)
    {
      var items, next := store.List(org, project, cursor, limit);
      if next.None? {
        if ids.lastTs < last { BrowseDone(tables, cursors, pages, store.table, cursor, org, project, limit, items); }
        pages := pages + [items];
        return;
      }
      ghost var table, ordered := store.table, ids.lastTs < last;
      PageShrinks(table, org, project, cursor, limit, items, next.value);
      GrownSame(table);
      if k < |batches| {
        CreateBatch(store, ids, batches[k]);
        k := k + 1;
      }
      NoEmptyId(store.table, ids.issued);
      BrowsesOn(tables, cursors, pages, table, cursor, org, project, limit, ordered, items, next.value, store.table,
        ids.lastTs < last);
      tables, cursors := tables + [store.table], cursors + [next.value];
      pages, cursor := pages + [items], next.value;
    }
  }

  lemma GrownSame(table: Table)
    ensures GrownInOrder(table, table)
  {
  }

  lemma NoEmptyId(table: Table, issued: seq<string>)
    requires FromSource(table, issued)
    ensures "" !in table
  {
  }
}
