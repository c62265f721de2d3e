/**
 Human review of proposed context items: decisions address items by (kind, section, index) and publish a new version.
*/
module ContextValidation {
  import opened Common
  import opened ContextRegistry
  import opened Lifecycle
  import Text

  datatype Address = Address(kind: string, section: string, index: int)

  /** A decision; an empty section means the kind's first one, an empty patch means none was given. */
  datatype Decision = Decision(kind: string, index: int, action: string, section: string, patch: map<string, string>)

  datatype PendingItem = PendingItem(address: Address, label_: string, provenance: Provenance)

  type Artifacts = map<string, Artifact>

  /** `_SECTIONS` */
  function SectionsOf(kind: string): seq<string> {
    if kind == "ontology" then ["concepts", "relationships"]
    else if kind == "taxonomy" then ["nodes"]
    else if kind == "granularity" then ["grains"]
    else []
  }

  /** `_EDITABLE` */
  function EditableFields(section: string): set<string> {
    if section == "concepts" then {"description", "synonyms"}
    else if section == "relationships" then {"predicate"}
    else if section == "grains" then {"statement", "qualifier", "entity"}
    else {}
  }

  function SectionFor(d: Decision): string {
    if d.section != "" || |SectionsOf(d.kind)| == 0 then d.section else SectionsOf(d.kind)[0]
  }

  function AddressOf(d: Decision): Address {
    Address(d.kind, SectionFor(d), d.index)
  }

  /** `_check_decision` */
  predicate Acceptable(d: Decision) {
    && d.action in {"approve", "edit", "reject"}
    && SectionFor(d) in SectionsOf(d.kind)
    && (d.action == "edit" ==> d.patch != map[] && d.patch.Keys <= EditableFields(SectionFor(d)))
  }

  predicate Edits(d: Decision, allowed: set<string>) {
    d.action == "edit" ==> d.patch != map[] && forall f | f in d.patch :: f in allowed
  }

  /** Which decisions pass the check: the reviewable sections and what an edit may change in each. */
  lemma AcceptableExactly(d: Decision)
    ensures Acceptable(d) <==>
            && (d.action == "approve" || d.action == "edit" || d.action == "reject")
            && (|| (d.kind == "ontology" && d.section in {"", "concepts"} && Edits(d, {"description", "synonyms"}))
                || (d.kind == "ontology" && d.section == "relationships" && Edits(d, {"predicate"}))
                || (d.kind == "taxonomy" && d.section in {"", "nodes"} && d.action != "edit")
                || (d.kind == "granularity" && d.section in {"", "grains"}
                    && Edits(d, {"statement", "qualifier", "entity"})))
  {
    if d.patch != map[] { assert exists f :: f in d.patch.Keys; }
  }

  /** Without a section a decision addresses the first one of its kind. */
  lemma AddressExactly(d: Decision)
    requires Acceptable(d)
    ensures AddressOf(d) ==
            Address(d.kind, if d.section != "" then d.section
                            else if d.kind == "ontology" then "concepts"
                            else if d.kind == "taxonomy" then "nodes"
                            else "grains", d.index)
  {
  }

  function ItemsIn(a: Artifact, section: string): seq<Item> {
    if section in a.sections then a.sections[section] else []
  }

  /** The item at an address, if there is one. */
  function Slot(m: Artifacts, a: Address): Option<Item> {
    if a.kind in m && 0 <= a.index < |ItemsIn(m[a.kind], a.section)| then Some(ItemsIn(m[a.kind], a.section)[a.index])
      else None
  }

  function Revised(item: Item, d: Decision): Item {
    if d.action == "approve" then item.(status := Approved, provenance := HumanValidated)
    else if d.action == "edit"
      then item.(fields := item.fields + d.patch, status := Edited, provenance := HumanValidated)
    else item.(status := Rejected)
  }

  /** What a decision makes of an item. */
  ghost predicate Decided(before: Item, after: Item, d: Decision) {
    && after.label_ == before.label_
    && (d.action == "approve" ==>
          after.status == Approved && after.provenance == HumanValidated && after.fields == before.fields)
    && (d.action == "edit" ==>
          && after.status == Edited && after.provenance == HumanValidated
          && after.fields.Keys == before.fields.Keys + d.patch.Keys
          && forall f | f in after.fields :: after.fields[f] == if f in d.patch then d.patch[f] else before.fields[f])
    && (d.action == "reject" ==>
          after.status == Rejected && after.provenance == before.provenance && after.fields == before.fields)
  }

  /** `_apply_decision` on the artifact of the decision's kind. */
  function ApplyOne(m: Artifacts, d: Decision): Result<Artifacts> {
    if d.kind !in m then Err(MissingKey)
    else
      var a, s := m[d.kind], SectionFor(d);
      if d.index < 0 || d.index >= |ItemsIn(a, s)| then Err(Validation)
      else Ok(m[d.kind := a.(sections := a.sections[s := ItemsIn(a,
        s)[d.index := Revised(ItemsIn(a, s)[d.index], d)]])])
  }

  function ApplyAll(m: Artifacts, ds: seq<Decision>): Result<Artifacts> {
    if |ds| == 0 then Ok(m) else
      var before := ApplyAll(m, ds[..|ds| - 1]);
      if before.Err? then before else ApplyOne(before.value, ds[|ds| - 1])
  }

  // ---- Effect of a batch, slot by slot ----

  /** Same artifacts with the same sections of the same lengths. */
  ghost predicate SameShape(m: Artifacts, n: Artifacts) {
    && m.Keys == n.Keys
    && forall k | k in m ::
         && n[k].(sections := m[k].sections) == m[k]
         && n[k].sections.Keys == m[k].sections.Keys
         && forall s | s in m[k].sections :: |n[k].sections[s]| == |m[k].sections[s]|
  }

  lemma SameSlotsEqual(m: Artifacts, x: Artifacts, y: Artifacts)
    requires SameShape(m, x) && SameShape(m, y) && forall a :: Slot(x, a) == Slot(y, a)
    ensures x == y
  {
    forall k | k in m ensures x[k] == y[k] {
      forall s | s in m[k].sections ensures x[k].sections[s] == y[k].sections[s] {
        forall i | 0 <= i < |m[k].sections[s]| ensures x[k].sections[s][i] == y[k].sections[s][i] {
          assert Slot(x, Address(k, s, i)) == Slot(y, Address(k, s, i));
        }
      }
      assert x[k].sections == y[k].sections;
    }
  }

  lemma ApplyOneSlots(m: Artifacts, d: Decision)
    ensures ApplyOne(m, d).Ok? <==> Slot(m, AddressOf(d)).Some?
    ensures ApplyOne(m, d).Ok? ==>
              && SameShape(m, ApplyOne(m, d).value)
              && forall a :: Slot(ApplyOne(m, d).value, a) ==
                   if a == AddressOf(d) then Some(Revised(Slot(m, a).value, d)) else Slot(m, a)
  {
  }

  lemma ShapeTransitive(m: Artifacts, n: Artifacts, o: Artifacts)
    requires SameShape(m, n) && SameShape(n, o)
    ensures SameShape(m, o)
  {
  }

  lemma RevisedDecided(item: Item, d: Decision)
    ensures Revised(item, d).status != Pending
  {
  }

  /** What a batch does to every slot, given what it did up to its last decision. */
  ghost predicate SlotsApplied(m: Artifacts, ds: seq<Decision>, n: Artifacts) {
    && SameShape(m, n)
    && (forall a :: Slot(n, a).Some? <==> Slot(m, a).Some?)
    && (forall a | forall d | d in ds :: AddressOf(d) != a :: Slot(n, a) == Slot(m, a))
    && (forall d | d in ds :: Slot(m, AddressOf(d)).Some? && Slot(n, AddressOf(d)).value.status != Pending)
  }

  lemma SlotsAppliedOnce(m: Artifacts, ds: seq<Decision>, n: Artifacts, d: Decision)
    requires SlotsApplied(m, ds, n) && ApplyOne(n, d).Ok?
    ensures SlotsApplied(m, ds + [d], ApplyOne(n, d).value)
  {
    ApplyOneSlots(n, d);
    RevisedDecided(Slot(n, AddressOf(d)).value, d);
    ShapeTransitive(m, n, ApplyOne(n, d).value);
    hide Slot, AddressOf, SameShape, ApplyOne, Revised;
    var o := ApplyOne(n, d).value;
    forall x | x in ds + [d] ensures Slot(m, AddressOf(x)).Some? && Slot(o, AddressOf(x)).value.status != Pending {
      assert x in ds || x == d;
    }
  }

  /**
   A batch succeeds exactly when every address exists; it changes the addressed items only and leaves none of them
   pending.
  */
  lemma {:induction false} ApplyAllSlots(m: Artifacts, ds: seq<Decision>)
    ensures ApplyAll(m, ds).Ok? <==> forall d | d in ds :: Slot(m, AddressOf(d)).Some?
    ensures ApplyAll(m, ds).Ok? ==> SlotsApplied(m, ds, ApplyAll(m, ds).value)
  {
    if |ds| > 0 {
      var init, last := ds[..|ds| - 1], ds[|ds| - 1];
      assert ds == init + [last];
      ApplyAllSlots(m, init);
      if ApplyAll(m, init).Ok? {
        var n := ApplyAll(m, init).value;
        ApplyOneSlots(n, last);
        if ApplyOne(n, last).Ok? { SlotsAppliedOnce(m, init, n, last); }
        hide Slot, AddressOf, SameShape, ApplyOne, Revised;
      }
    }
  }

  ghost predicate DistinctAddresses(ds: seq<Decision>) {
    forall i, j | 0 <= i < j < |ds| :: AddressOf(ds[i]) != AddressOf(ds[j])
  }

  lemma {:induction false} ApplyAllRevises(m: Artifacts, ds: seq<Decision>, d: Decision)
    requires DistinctAddresses(ds) && d in ds && ApplyAll(m, ds).Ok?
    ensures Slot(m, AddressOf(d)).Some? && Slot(ApplyAll(m, ds).value, AddressOf(d)).Some?
    ensures Slot(ApplyAll(m, ds).value, AddressOf(d)).value == Revised(Slot(m, AddressOf(d)).value, d)
  {
    hide Slot, SameShape, Revised, AddressOf, ApplyOne, SlotsApplied;
    var init, last := ds[..|ds| - 1], ds[|ds| - 1];
    assert ds == init + [last];
    var n := ApplyAll(m, init).value;
    ApplyOneSlots(n, last);
    if d != last {
      ApplyAllRevises(m, init, d);
      var i :| 0 <= i < |init| && init[i] == d;
      assert AddressOf(ds[i]) != AddressOf(ds[|ds| - 1]);
    } else {
      assert forall i | 0 <= i < |init| :: AddressOf(ds[i]) != AddressOf(ds[|ds| - 1]);
      UntouchedSlot(m, init, AddressOf(last));
    }
  }

  /**
   Decisions at distinct addresses: every addressed item is as its decision says, every other one as it was, and
   nothing else of the artifacts changes.
  */
  ghost predicate BatchDecided(m: Artifacts, ds: seq<Decision>, n: Artifacts) {
    && SameShape(m, n)
    && (forall d | d in ds ::
          && Slot(m, AddressOf(d)).Some? && Slot(n, AddressOf(d)).Some?
          && Decided(Slot(m, AddressOf(d)).value, Slot(n, AddressOf(d)).value, d))
    && (forall a | forall d | d in ds :: AddressOf(d) != a :: Slot(n, a) == Slot(m, a))
  }

  lemma RevisedExactly(item: Item, d: Decision)
    requires Acceptable(d)
    ensures Decided(item, Revised(item, d), d)
  {
  }

  lemma BatchDecides(m: Artifacts, ds: seq<Decision>)
    requires DistinctAddresses(ds) && ApplyAll(m, ds).Ok? && forall d | d in ds :: Acceptable(d)
    ensures BatchDecided(m, ds, ApplyAll(m, ds).value)
  {
    ApplyAllSlots(m, ds);
    hide Slot, SameShape, AddressOf, ApplyAll, Revised, Decided, Acceptable;
    forall d | d in ds
      ensures Slot(m, AddressOf(d)).Some? && Slot(ApplyAll(m, ds).value, AddressOf(d)).Some?
              && Decided(Slot(m, AddressOf(d)).value, Slot(ApplyAll(m, ds).value, AddressOf(d)).value, d)
    {
      ApplyAllRevises(m, ds, d);
      RevisedExactly(Slot(m, AddressOf(d)).value, d);
    }
  }

  /** A slot that no decision of a batch addresses stays as it was. */
  lemma UntouchedSlot(m: Artifacts, ds: seq<Decision>, a: Address)
    requires ApplyAll(m, ds).Ok? && forall d | d in ds :: AddressOf(d) != a
    ensures Slot(ApplyAll(m, ds).value, a) == Slot(m, a)
  {
    hide Slot, SameShape, AddressOf, ApplyAll;
    ApplyAllSlots(m, ds);
  }

  /** Decisions at distinct addresses may be applied in any order. */
  lemma BatchOrderIrrelevant(m: Artifacts, ds: seq<Decision>, es: seq<Decision>)
    requires DistinctAddresses(ds) && DistinctAddresses(es) && forall d :: d in ds <==> d in es
    ensures ApplyAll(m, ds).Ok? <==> ApplyAll(m, es).Ok?
    ensures ApplyAll(m, ds).Ok? ==> ApplyAll(m, ds) == ApplyAll(m, es)
  {
    ApplyAllSlots(m, ds);
    ApplyAllSlots(m, es);
    if ApplyAll(m, ds).Ok? {
      var x, y := ApplyAll(m, ds).value, ApplyAll(m, es).value;
      forall a ensures Slot(x, a) == Slot(y, a) {
        if d :| d in ds && AddressOf(d) == a {
          ApplyAllRevises(m, ds, d);
          ApplyAllRevises(m, es, d);
        }
      }
      SameSlotsEqual(m, x, y);
    }
  }

  // ---- The pending list ----

  function PendingSection(kind: string, section: string, items: seq<Item>): seq<PendingItem> {
    if |items| == 0 then [] else
      var i := |items| - 1;
      PendingSection(kind, section, items[..i]) +
      if items[i].status == Pending then [PendingItem(Address(kind, section, i), items[i].label_, items[i].provenance)]
        else []
  }

  function PendingSections(kind: string, a: Artifact, sections: seq<string>): seq<PendingItem> {
    if |sections| == 0 then [] else
      PendingSection(kind, sections[0], ItemsIn(a, sections[0])) + PendingSections(kind, a, sections[1..])
  }

  /** `list_pending` over the kinds of a record. */
  function PendingList(kinds: seq<string>, m: Artifacts): seq<PendingItem> {
    if |kinds| == 0 then [] else
      PendingList(kinds[..|kinds| - 1], m) + PendingKind(kinds[|kinds| - 1], m)
  }

  function PendingKind(kind: string, m: Artifacts): seq<PendingItem> {
    if kind in m then PendingSections(kind, m[kind], SectionsOf(kind)) else []
  }

  /** An item is listed when it is pending, in one of the reviewable sections, under its address and label. */
  ghost predicate Listed(kinds: seq<string>, m: Artifacts, p: PendingItem) {
    var (kind, section) := (p.address.kind, p.address.section);
    && kind in kinds && kind in m
    && (|| (kind == "ontology" && (section == "concepts" || section == "relationships"))
        || (kind == "taxonomy" && section == "nodes")
        || (kind == "granularity" && section == "grains"))
    && section in m[kind].sections && 0 <= p.address.index < |m[kind].sections[section]|
    && var item := m[kind].sections[section][p.address.index];
       item.status == Pending && p.label_ == item.label_ && p.provenance == item.provenance
  }

  lemma {:induction false} SectionListed(kind: string, section: string, items: seq<Item>, p: PendingItem)
    ensures p in PendingSection(kind, section, items) <==>
            && p.address.kind == kind && p.address.section == section && 0 <= p.address.index < |items|
            && var item := items[p.address.index];
               item.status == Pending && p.label_ == item.label_ && p.provenance == item.provenance
  {
    if |items| > 0 { SectionListed(kind, section, items[..|items| - 1], p); }
  }

  lemma KindListed(kind: string, m: Artifacts, p: PendingItem)
    ensures p in PendingKind(kind, m) <==> Listed([kind], m, p)
  {
    if kind in m {
      var a, ss := m[kind], SectionsOf(kind);
      forall s ensures p in PendingSection(kind, s, ItemsIn(a, s)) <==>
                       && p.address.kind == kind && p.address.section == s && s in a.sections
                       && 0 <= p.address.index < |a.sections[s]|
                       && var item := a.sections[s][p.address.index];
                          item.status == Pending && p.label_ == item.label_ && p.provenance == item.provenance
      {
        SectionListed(kind, s, ItemsIn(a, s), p);
      }
      hide PendingSection;
      if |ss| > 0 {
        assert PendingSections(kind, a, ss) ==
               PendingSection(kind, ss[0], ItemsIn(a, ss[0])) + PendingSections(kind, a, ss[1..]);
        if |ss| > 1 {
          assert ss[1..] == [ss[1]];
          assert PendingSections(kind, a, [ss[1]]) == PendingSection(kind, ss[1], ItemsIn(a, ss[1]));
        }
      }
    }
  }

  lemma {:induction false} PendingExactly(kinds: seq<string>, m: Artifacts, p: PendingItem)
    ensures p in PendingList(kinds, m) <==> Listed(kinds, m, p)
  {
    if |kinds| > 0 {
      var init, last := kinds[..|kinds| - 1], kinds[|kinds| - 1];
      PendingExactly(init, m, p);
      KindListed(last, m, p);
      assert kinds == init + [last];
    }
  }

  function Without(ps: seq<PendingItem>, addresses: set<Address>): (out: seq<PendingItem>)
    ensures |out| <= |ps|
    ensures (exists p | p in ps :: p.address in addresses) ==> |out| < |ps|
  {
    if |ps| == 0 then [] else
      (if ps[0].address in addresses then [] else [ps[0]]) + Without(ps[1..], addresses)
  }

  lemma {:induction false} WithoutAppends(ps: seq<PendingItem>, qs: seq<PendingItem>, addresses: set<Address>)
    ensures Without(ps + qs, addresses) == Without(ps, addresses) + Without(qs, addresses)
  {
    if |ps| == 0 {
      assert ps + qs == qs;
    } else {
      assert (ps + qs)[1..] == ps[1..] + qs;
      WithoutAppends(ps[1..], qs, addresses);
    }
  }

  /** Items at the given addresses are no longer pending, all others are as before. */
  ghost predicate Reviewed(m: Artifacts, n: Artifacts, addresses: set<Address>) {
    && SameShape(m, n)
    && (forall a | a !in addresses :: Slot(n, a) == Slot(m, a))
    && (forall a | a in addresses && Slot(n, a).Some? :: Slot(n, a).value.status != Pending)
  }

  lemma {:induction false} SectionReviewed(kind: string, section: string, old_: seq<Item>, new_: seq<Item>,
                                           addresses: set<Address>)
    requires |old_| == |new_|
    requires forall i | 0 <= i < |old_| ::
               if Address(kind, section, i) in addresses then new_[i].status != Pending else new_[i] == old_[i]
    ensures PendingSection(kind, section, new_) == Without(PendingSection(kind, section, old_), addresses)
  {
    if |old_| > 0 {
      var i := |old_| - 1;
      SectionReviewed(kind, section, old_[..i], new_[..i], addresses);
      var last := if old_[i].status == Pending
        then [PendingItem(Address(kind, section, i), old_[i].label_, old_[i].provenance)] else [];
      WithoutAppends(PendingSection(kind, section, old_[..i]), last, addresses);
      assert Address(kind, section, i) in addresses ==> new_[i].status != Pending;
    }
  }

  lemma {:induction false} SectionsReviewed(m: Artifacts, n: Artifacts, addresses: set<Address>, kind: string,
                                            sections: seq<string>)
    requires Reviewed(m, n, addresses) && kind in m
    ensures PendingSections(kind, n[kind], sections) == Without(PendingSections(kind, m[kind], sections), addresses)
  {
    if |sections| > 0 {
      var s := sections[0];
      SectionsReviewed(m, n, addresses, kind, sections[1..]);
      WithoutAppends(PendingSection(kind, s, ItemsIn(m[kind], s)), PendingSections(kind, m[kind], sections[1..]),
        addresses);
      forall i | 0 <= i < |ItemsIn(m[kind], s)|
        ensures if Address(kind, s, i) in addresses then ItemsIn(n[kind], s)[i].status != Pending
                else ItemsIn(n[kind], s)[i] == ItemsIn(m[kind], s)[i]
      {
        var a := Address(kind, s, i);
        assert Slot(n, a) == Some(ItemsIn(n[kind], s)[i]) && Slot(m, a) == Some(ItemsIn(m[kind], s)[i]);
      }
      SectionReviewed(kind, s, ItemsIn(m[kind], s), ItemsIn(n[kind], s), addresses);
    }
  }

  lemma {:induction false} ListReviewed(m: Artifacts, n: Artifacts, addresses: set<Address>, kinds: seq<string>)
    requires Reviewed(m, n, addresses)
    ensures PendingList(kinds, n) == Without(PendingList(kinds, m), addresses)
  {
    if |kinds| > 0 {
      var init, last := kinds[..|kinds| - 1], kinds[|kinds| - 1];
      ListReviewed(m, n, addresses, init);
      WithoutAppends(PendingList(init, m), PendingKind(last, m), addresses);
      if last in m { SectionsReviewed(m, n, addresses, last, SectionsOf(last)); }
    }
  }

  function Addresses(ds: seq<Decision>): set<Address> {
    set d | d in ds :: AddressOf(d)
  }

  /**
   A successful batch takes exactly the addressed items off the pending list; the list shrinks if one of them was on
   it.
  */
  lemma BatchShrinksPending(m: Artifacts, ds: seq<Decision>, kinds: seq<string>)
    requires ApplyAll(m, ds).Ok?
    ensures var n := ApplyAll(m, ds).value;
            && PendingList(kinds, n) == Without(PendingList(kinds, m), Addresses(ds))
            && ((exists p | p in PendingList(kinds, m) :: p.address in Addresses(ds)) ==>
              |PendingList(kinds, n)| < |PendingList(kinds, m)|)
  {
    var n := ApplyAll(m, ds).value;
    ApplyAllSlots(m, ds);
    assert forall a | a !in Addresses(ds) :: forall d | d in ds :: AddressOf(d) != a;
    ListReviewed(m, n, Addresses(ds), kinds);
  }

  // ---- The service ----

  /** The artifacts a review loads: the stored ones of the record's kinds. */
  function Loaded(db: Db, id: string): Artifacts
    requires id in db.records
  {
    map k | k in db.records[id].kinds && k in ArtifactsOf(db, id) :: ArtifactsOf(db, id)[k]
  }

  method Load(service: ContextRegistryService, id: string, kinds: seq<string>) returns (m: Artifacts)
    requires id in service.db.records && service.db.records[id].kinds == kinds
    ensures m == Loaded(service.db, id)
  {
    m := map[];
    var stored := ArtifactsOf(service.db, id);
    for i := 0 to |kinds|
      invariant m == map k | k in kinds[..i] && k in stored :: stored[k]
    {
      if kinds[i] in stored { m := m[kinds[i] := stored[kinds[i]]]; }
      assert kinds[..i + 1] == kinds[..i] + [kinds[i]];
    }
    assert kinds[..|kinds|] == kinds;
  }

  method ListPending(service: ContextRegistryService, scope: Scope) returns (items: seq<PendingItem>)
    requires service.Valid()
    ensures forall id | ActiveIn(service.db, scope, id) ::
            && items == PendingList(service.db.records[id].kinds, Loaded(service.db, id))
            && forall p :: p in items <==> Listed(service.db.records[id].kinds, Loaded(service.db, id), p)
    ensures !Served(service.db, scope) ==> items == []
  {
    hide SafeHistory, Complete, Linked, Supersedes, Filed, TidyKinds, Loaded;
    items := [];
    var active := service.ActiveRecord(scope);
    if active.Some? {
      var kinds := active.value.kinds;
      assert ActiveIn(service.db, scope, active.value.id);
      var m := Load(service, active.value.id, kinds);
      for i := 0 to |kinds|
        invariant items == PendingList(kinds[..i], m)
      {
        items := items + PendingKind(kinds[i], m);
        assert kinds[..i + 1][..i] == kinds[..i];
      }
      assert kinds[..|kinds|] == kinds;
      forall p ensures p in items <==> Listed(kinds, m, p) { PendingExactly(kinds, m, p); }
    }
  }

  ghost predicate Reviewable(db: Db, scope: Scope, ds: seq<Decision>) {
    && |ds| > 0 && (forall d | d in ds :: Acceptable(d))
    && exists id :: ActiveIn(db, scope, id) && "schema" in Loaded(db, id) && forall d | d in ds ::
      Slot(Loaded(db, id), AddressOf(d)).Some?
  }

  function Dictionary(kinds: seq<string>, m: Artifacts): seq<(string, Artifact)>
    requires forall k | k in kinds :: k in m
  {
    seq(|kinds|, i requires 0 <= i < |kinds| => assert kinds[i] in kinds; (kinds[i], m[kinds[i]]))
  }

  lemma {:induction false} DictionaryStores(kinds: seq<string>, m: Artifacts)
    requires forall k | k in kinds :: k in m && m[k].kind == k
    ensures StoredArtifacts(Dictionary(kinds, m)) == map k | k in kinds :: m[k]
  {
    if |kinds| > 0 {
      var init, last := kinds[..|kinds| - 1], kinds[|kinds| - 1];
      DictionaryStores(init, m);
      assert Dictionary(kinds, m)[..|kinds| - 1] == Dictionary(init, m);
      assert kinds == init + [last];
    }
  }

  lemma DictionaryKinds(kinds: seq<string>, m: Artifacts)
    requires TidyKinds(kinds) && forall k | k in kinds :: k in m && m[k].kind == k
    ensures NoDuplicates(Kinds(Dictionary(kinds, m))) && KeysHeld(Dictionary(kinds, m))
    ensures SortedKinds(Dictionary(kinds, m)) == kinds
  {
    assert Kinds(Dictionary(kinds, m)) == kinds;
    var key := (k: string) => k;
    assert Text.Ordered(kinds, key);
    Text.SortByOrdered(kinds, key);
    forall i | 0 <= i < |kinds|
      ensures Dictionary(kinds, m)[i].0 in HeldKinds(Dictionary(kinds, m))
    {
      assert kinds[i] in kinds && Dictionary(kinds, m)[i].1.kind == kinds[i];
    }
  }

  method ApplyInTurn(m0: Artifacts, ds: seq<Decision>) returns (res: Result<Artifacts>)
    ensures res == ApplyAll(m0, ds)
  {
    res := Ok(m0);
    for i := 0 to |ds|
      invariant res == ApplyAll(m0, ds[..i]) && res.Ok?
    {
      assert ds[..i + 1][..i] == ds[..i];
      var next := ApplyOne(res.value, ds[i]);
      if next.Err? {
        ErrorsStick(m0, ds, i);
        return next;
      }
      res := next;
    }
    assert ds[..|ds|] == ds;
  }

  lemma {:induction false} ErrorsStick(m: Artifacts, ds: seq<Decision>, i: nat)
    requires i < |ds| && ApplyAll(m, ds[..i]).Ok? && ApplyOne(ApplyAll(m, ds[..i]).value, ds[i]).Err?
    ensures ApplyAll(m, ds) == ApplyOne(ApplyAll(m, ds[..i]).value, ds[i])
  {
    if i < |ds| - 1 {
      var init := ds[..|ds| - 1];
      assert init[..i] == ds[..i];
      ErrorsStick(m, init, i);
    }
  }

  method CheckDecisions(ds: seq<Decision>) returns (ok: bool)
    ensures ok <==> forall d | d in ds :: Acceptable(d)
  {
    for i := 0 to |ds|
      invariant forall j | 0 <= j < i :: Acceptable(ds[j])
    {
      if !Acceptable(ds[i]) {
        assert ds[i] in ds;
        return false;
      }
    }
    ok := true;
  }

  /** Apply a batch of decisions: a bad one leaves the registry as it was, otherwise a new version is published. */
  method Apply(service: ContextRegistryService, scope: Scope, ds: seq<Decision>,
               newId: string) returns (res: Result<Record>)
    requires service.Valid() && newId !in service.db.records
    modifies service
    ensures service.Valid() && old(service.history) <= service.history
    ensures res.Ok? <==> Reviewable(old(service.db), scope, ds)
    ensures res.Err? ==> service.db == old(service.db) && service.history == old(service.history)
    ensures res.Ok? ==> forall id | ActiveIn(old(service.db), scope, id) ::
              && newId in service.db.records
                && ApplyAll(Loaded(old(service.db), id), ds) == Ok(Loaded(service.db, newId))
              && service.db.records[newId].kinds == old(service.db).records[id].kinds
              && service.db.records[newId].version == old(service.db).records[id].version + 1
              && service.db.records[newId].schemaHash == old(service.db).records[id].schemaHash
              && ActiveIn(service.db, scope, newId)
              && (DistinctAddresses(ds) ==>
                    BatchDecided(Loaded(old(service.db), id), ds, Loaded(service.db, newId)))
              && PendingList(service.db.records[newId].kinds, Loaded(service.db, newId))
                 == Without(PendingList(old(service.db).records[id].kinds, Loaded(old(service.db), id)), Addresses(ds))
  {
    hide SafeHistory, Complete, Linked, Supersedes, Filed, TidyKinds, Loaded, Slot, Acceptable, SameShape, PendingList,
         Without, Addresses, ApplyAll, BatchDecided, DistinctAddresses, AddressOf;
    var checked := CheckDecisions(ds);
    if |ds| == 0 || !checked {
      return Err(ErrorCode.Validation);
    }
    var active := service.ActiveRecord(scope);
    if active.None? {
      return Err(NotFound);
    }
    var id := active.value.id;
    assert ActiveIn(service.db, scope, id);
    var m := Load(service, id, active.value.kinds);
    if "schema" !in m {
      return Err(ErrorCode.Validation);
    }
    var applied := ApplyInTurn(m, ds);
    ApplyAllSlots(m, ds);
    if applied.Err? {
      return Err(applied.code);
    }
    BatchShrinksPending(m, ds, active.value.kinds);
    if DistinctAddresses(ds) { BatchDecides(m, ds); }
    res := PublishReviewed(service, scope, newId, id, applied.value);
  }

  method PublishReviewed(service: ContextRegistryService, scope: Scope, newId: string, id: string, n: Artifacts)
    returns (res: Result<Record>)
    requires service.Valid() && newId !in service.db.records && ActiveIn(service.db, scope, id)
    requires SameShape(Loaded(service.db, id), n)
    modifies service
    ensures service.Valid() && old(service.history) <= service.history && res.Ok?
    ensures newId in service.db.records && Loaded(service.db, newId) == n
    ensures service.db.records[newId].kinds == old(service.db).records[id].kinds
    ensures service.db.records[newId].version == old(service.db).records[id].version + 1
    ensures service.db.records[newId].schemaHash == old(service.db).records[id].schemaHash
    ensures ActiveIn(service.db, scope, newId)
  {
    hide SafeHistory, Complete, Linked, Supersedes, Published;
    ghost var db0 := service.db;
    var kinds, hash := service.db.records[id].kinds, service.db.records[id].schemaHash;
    LoadedKinds(db0, id, n);
    var artifacts := Dictionary(kinds, n);
    DictionaryKinds(kinds, n);
    DictionaryStores(kinds, n);
    hide Consistent, KeysHeld, Loaded, SameShape, Dictionary;
    res := service.Publish(newId, scope, hash, artifacts, "human validation", false);
    ghost var previous :| ActiveAnswer(db0, scope, previous) &&
      var r := NewRecord(newId, scope, hash, artifacts, "human validation", previous);
      service.db == Published(db0, r, TargetState(artifacts, false), StoredArtifacts(artifacts));
    PublishedLoaded(db0, service.db, scope, newId, id, hash, artifacts, previous, n);
    assert ActiveIn(service.db, scope, newId);
  }

  lemma LoadedKinds(db: Db, id: string, n: Artifacts)
    requires Consistent(db) && id in db.records && SameShape(Loaded(db, id), n)
    ensures TidyKinds(db.records[id].kinds) && n.Keys == set k | k in db.records[id].kinds
    ensures forall k | k in db.records[id].kinds :: k in n && n[k].kind == k
  {
  }

  lemma PublishedLoaded(db: Db, d: Db, scope: Scope, newId: string, id: string, hash: string,
                        artifacts: seq<(string, Artifact)>, previous: Option<Record>, n: Artifacts)
    requires Consistent(db) && ActiveIn(db, scope, id) && newId !in db.records && ActiveAnswer(db, scope, previous)
    requires NoDuplicates(Kinds(artifacts)) && SortedKinds(artifacts) == db.records[id].kinds
    requires n.Keys == (set k | k in db.records[id].kinds)
             && StoredArtifacts(artifacts) == map k | k in db.records[id].kinds :: n[k]
    requires d == Published(db, NewRecord(newId, scope, hash, artifacts, "human validation", previous),
             TargetState(artifacts, false), StoredArtifacts(artifacts))
    ensures newId in d.records && Loaded(d, newId) == n
    ensures d.records[newId].kinds == db.records[id].kinds && d.records[newId].version == db.records[id].version + 1
  {
    var r := NewRecord(newId, scope, hash, artifacts, "human validation", previous);
    FiledTidy(db);
    AnswerIsActive(db, scope, id, previous);
    hide Consistent, KeysHeld, Published, ActiveAnswer, SortedKinds, StoredArtifacts;
    PublishedReplaces(db, r, artifacts, previous, TargetState(artifacts, false));
    assert d.records[newId].kinds == db.records[id].kinds;
    LoadedIs(d, newId, n, db.records[id].kinds);
  }

  lemma AnswerIsActive(db: Db, scope: Scope, id: string, previous: Option<Record>)
    requires Consistent(db) && ActiveIn(db, scope, id) && ActiveAnswer(db, scope, previous)
    ensures previous == Some(db.records[id])
  {
  }

  lemma LoadedIs(d: Db, id: string, n: Artifacts, kinds: seq<string>)
    requires id in d.records && d.records[id].kinds == kinds && n.Keys == set k | k in kinds
    requires ArtifactsOf(d, id) == map k | k in kinds :: n[k]
    ensures Loaded(d, id) == n
  {
  }
}
