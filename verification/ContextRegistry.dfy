/**
 The versioned context registry and its artifact store. A publication is a sequence of single writes; the ghost
 history keeps the database after every write, which is all that a reader interleaving with the writer can see.
*/
module ContextRegistry {
  import opened Common
  import opened Lifecycle
  import Sorting
  import Text

  // ---- Artifacts ----

  datatype Status = Pending | Approved | Edited | Rejected
  datatype Provenance = Database | Inferred | Llm | System | HumanValidated

  /** A reviewable item: what a review shows of it, its review status, its origin and its editable text. */
  datatype Item = Item(label_: string, status: Status, provenance: Provenance, fields: map<string, string>)

  datatype Artifact = Artifact(kind: string, provenance: Provenance, sections: map<string, seq<Item>>, body: string)

  // ---- The database ----

  datatype Scope = Scope(org: string, connection: string, name: string)

  datatype Record = Record(id: string, scope: Scope, version: nat, state: State, schemaHash: string, kinds: seq<string>,
                           previousVersion: Option<nat>, supersedes: Option<string>, notes: string)

  datatype Db = Db(records: map<string, Record>, artifacts: map<string, map<string, Artifact>>)

  function ArtifactsOf(db: Db, id: string): map<string, Artifact> {
    if id in db.artifacts then db.artifacts[id] else map[]
  }

  predicate OwnedBy(db: Db, org: string, id: string) {
    id in db.records && db.records[id].scope.org == org
  }

  /** `register` */
  function Registered(db: Db, org: string, r: Record): Result<Db> {
    if r.scope.org != org then Err(Forbidden) else Ok(db.(records := db.records[r.id := r]))
  }

  /** `set_state` */
  function StateSet(db: Db, org: string, id: string, state: State): Result<Db> {
    if !OwnedBy(db, org, id) then Err(NotFound)
    else if state !in NextStates(db.records[id].state) then Err(Validation)
    else Ok(db.(records := db.records[id := db.records[id].(state := state)]))
  }

  /** `put`: keyed by the artifact's own kind. */
  function ArtifactPut(db: Db, org: string, id: string, a: Artifact): Result<Db> {
    if !OwnedBy(db, org, id) then Err(NotFound)
    else Ok(db.(artifacts := db.artifacts[id := ArtifactsOf(db, id)[a.kind := a]]))
  }

  /** When the single writes go through, and what each then changes. */
  lemma WritesExactly(db: Db, org: string, r: Record, id: string, state: State, a: Artifact)
    ensures var known := id in db.records && db.records[id].scope.org == org;
            && Registered(db, org, r) ==
               (if r.scope.org == org then Ok(Db(db.records[r.id := r], db.artifacts)) else Err(Forbidden))
            && (StateSet(db, org, id, state) == Err(NotFound) <==> !known)
            && (StateSet(db, org, id, state) == Err(Validation) <==>
                  known && state !in NextStates(db.records[id].state))
            && (StateSet(db, org, id, state).Ok? ==>
                  StateSet(db, org, id, state).value ==
                  Db(db.records[id := db.records[id].(state := state)], db.artifacts))
            && (ArtifactPut(db, org, id, a) == Err(NotFound) <==> !known)
            && (ArtifactPut(db, org, id, a).Ok? ==>
                  && known
                  && ArtifactPut(db, org, id, a).value.records == db.records
                  && ArtifactsOf(ArtifactPut(db, org, id, a).value, id) == ArtifactsOf(db, id)[a.kind := a]
                  && forall x | x != id :: ArtifactsOf(ArtifactPut(db, org, id, a).value, x) == ArtifactsOf(db, x))
  {
  }

  predicate ActiveIn(db: Db, scope: Scope, id: string) {
    id in db.records && db.records[id].scope == scope && db.records[id].state == Active
  }

  /** What `active` may answer: the ACTIVE record of the scope with the highest version. */
  ghost predicate ActiveAnswer(db: Db, scope: Scope, answer: Option<Record>) {
    if answer.None? then forall id :: !ActiveIn(db, scope, id)
    else
      && ActiveIn(db, scope, answer.value.id) && db.records[answer.value.id] == answer.value
      && forall id | ActiveIn(db, scope, id) :: db.records[id].version <= answer.value.version
  }

  // ---- Invariants between operations ----

  ghost predicate Complete(db: Db, id: string)
    requires id in db.records
  {
    forall k | k in db.records[id].kinds :: k in ArtifactsOf(db, id)
  }

  ghost predicate Supersedes(db: Db, newer: string, older: string) {
    newer in db.records && db.records[newer].supersedes == Some(older)
  }

  /** A record is a version-1 root, or one version above the record of its scope that it supersedes. */
  ghost predicate Linked(db: Db, id: string)
    requires id in db.records
  {
    var r := db.records[id];
    match r.supersedes
    case None => r.version == 1 && r.previousVersion.None?
    case Some(older) =>
      && older in db.records && db.records[older].scope == r.scope
      && r.version == db.records[older].version + 1 && r.previousVersion == Some(db.records[older].version)
  }

  /** Stored artifacts belong to a record and are filed under their own kind. */
  ghost predicate Filed(db: Db) {
    && db.artifacts.Keys <= db.records.Keys
    && forall id, k | id in db.artifacts && k in db.artifacts[id] :: db.artifacts[id][k].kind == k
  }

  predicate TidyKinds(kinds: seq<string>) {
    NoDuplicates(kinds) && forall i, j | 0 <= i < j < |kinds| :: Text.AtMost(kinds[i], kinds[j])
  }

  ghost predicate Consistent(db: Db) {
    && Filed(db)
    && (forall id | id in db.records :: TidyKinds(db.records[id].kinds))
    && (forall id | id in db.records :: db.records[id].id == id)
    && (forall id | id in db.records :: db.records[id].state in {Active, PendingValidation, Stale, Superseded})
    && (forall id | id in db.records :: Complete(db, id))
    && (forall id | id in db.records :: Linked(db, id))
    && (forall a, b, scope | ActiveIn(db, scope, a) && ActiveIn(db, scope, b) :: a == b)
    && (forall a, b, older | Supersedes(db, a, older) && Supersedes(db, b, older) :: a == b)
    && (forall id | id in db.records :: db.records[id].state == Superseded <==>
      exists newer :: Supersedes(db, newer, id))
  }

  // ---- What a reader may see between any two writes ----

  /** Any record that `active` can return has all its artifacts stored. */
  ghost predicate ReaderSafe(db: Db) {
    forall scope, answer | ActiveAnswer(db, scope, Some(answer)) :: Complete(db, answer.id)
  }

  /** Published records keep their artifacts and everything but state and notes. */
  ghost predicate Frozen(before: Db, after: Db) {
    forall id | id in before.records && before.records[id].state != Generated ::
      && id in after.records && after.records[id].state != Generated
      && ArtifactsOf(after, id) == ArtifactsOf(before, id)
      && after.records[id] == before.records[id].(state := after.records[id].state, notes := after.records[id].notes)
  }

  /** Every state change is a lifecycle edge. */
  ghost predicate LegalChange(before: Db, after: Db) {
    forall id | id in before.records ::
      id in after.records &&
      (after.records[id].state == before.records[id].state
        || after.records[id].state in NextStates(before.records[id].state))
  }

  ghost predicate SafeHistory(history: seq<Db>) {
    && (forall i | 0 <= i < |history| :: ReaderSafe(history[i]))
    && (forall i, j | 0 <= i < j < |history| :: Frozen(history[i], history[j]))
    && (forall i | 0 <= i < |history| - 1 :: LegalChange(history[i], history[i + 1]))
  }

  lemma HistoryGrows(history: seq<Db>, db: Db, next: Db)
    requires |history| > 0 && history[|history| - 1] == db && SafeHistory(history)
    requires ReaderSafe(next) && Frozen(db, next) && LegalChange(db, next)
    ensures SafeHistory(history + [next])
  {
  }

  lemma EndsSafe(history: seq<Db>)
    requires |history| > 0 && SafeHistory(history)
    ensures ReaderSafe(history[|history| - 1])
  {
  }

  // ---- Chains ----

  /** The number of records from a record down to its version-1 root. */
  ghost function ChainLength(db: Db, id: string): nat
    requires Consistent(db) && id in db.records
    decreases db.records[id].version
  {
    assert Linked(db, id);
    match db.records[id].supersedes
    case None => 1
    case Some(older) => 1 + ChainLength(db, older)
  }

  /** A record's version is the length of its chain. */
  lemma {:induction false} VersionIsChainLength(db: Db, id: string)
    requires Consistent(db) && id in db.records
    ensures db.records[id].version == ChainLength(db, id)
    decreases db.records[id].version
  {
    assert Linked(db, id);
    match db.records[id].supersedes
    case None =>
    case Some(older) => VersionIsChainLength(db, older);
  }

  /** path follows the supersedes links downwards. */
  ghost predicate Descends(db: Db, path: seq<string>) {
    forall i | 0 <= i < |path| - 1 :: Supersedes(db, path[i], path[i + 1])
  }

  /** No record supersedes itself through others. */
  lemma {:induction false} SupersessionAcyclic(db: Db, path: seq<string>)
    requires Consistent(db) && Descends(db, path) && |path| > 1
    ensures path[0] != path[|path| - 1]
    ensures path[|path| - 1] in db.records && path[0] in db.records
    ensures db.records[path[|path| - 1]].version < db.records[path[0]].version
  {
    assert Supersedes(db, path[0], path[1]);
    assert Linked(db, path[0]);
    if |path| > 2 {
      var tail := path[1..];
      forall i | 0 <= i < |tail| - 1 ensures Supersedes(db, tail[i], tail[i + 1]) {
        assert Supersedes(db, path[i + 1], path[i + 2]);
      }
      SupersessionAcyclic(db, tail);
    }
  }

  // ---- Publication, write by write ----

  function Kinds(artifacts: seq<(string, Artifact)>): seq<string> {
    seq(|artifacts|, i requires 0 <= i < |artifacts| => artifacts[i].0)
  }

  function SortedKinds(artifacts: seq<(string, Artifact)>): seq<string> {
    Text.SortBy(Kinds(artifacts), (k: string) => k)
  }

  predicate HasProposals(artifacts: seq<(string, Artifact)>) {
    exists i | 0 <= i < |artifacts| :: artifacts[i].1.provenance == Llm
  }

  function TargetState(artifacts: seq<(string, Artifact)>, requireValidation: bool): State {
    if requireValidation && HasProposals(artifacts) then PendingValidation else Active
  }

  /** Every key of an artifact dictionary is the kind of an artifact in it. */
  ghost predicate KeysHeld(artifacts: seq<(string, Artifact)>) {
    forall i | 0 <= i < |artifacts| :: artifacts[i].0 in HeldKinds(artifacts)
  }

  function HeldKinds(artifacts: seq<(string, Artifact)>): set<string> {
    set i | 0 <= i < |artifacts| :: artifacts[i].1.kind
  }

  function StoredArtifacts(artifacts: seq<(string, Artifact)>): map<string, Artifact> {
    if |artifacts| == 0 then map[] else
      var a := artifacts[|artifacts| - 1].1;
      StoredArtifacts(artifacts[..|artifacts| - 1])[a.kind := a]
  }

  function NewRecord(id: string, scope: Scope, schemaHash: string, artifacts: seq<(string, Artifact)>, notes: string,
                     previous: Option<Record>): Record {
    Record(id, scope, if previous.Some? then previous.value.version + 1 else 1, Generated, schemaHash,
           SortedKinds(artifacts), if previous.Some? then Some(previous.value.version) else None,
           if previous.Some? then Some(previous.value.id) else None, notes)
  }

  /** The database while a publication is under way: the new record in a state, some artifacts stored. */
  function Midway(db: Db, r: Record, state: State, stored: map<string, Artifact>): Db {
    Db(db.records[r.id := r.(state := state)], if stored == map[] then db.artifacts else db.artifacts[r.id := stored])
  }

  /** The database after a publication. */
  function Published(db: Db, r: Record, target: State, stored: map<string, Artifact>): Db {
    var d := Midway(db, r, target, stored);
    if r.supersedes.None? || r.supersedes.value !in d.records then d
    else d.(records := d.records[r.supersedes.value := d.records[r.supersedes.value].(state := Superseded)])
  }

  lemma {:induction false} KindsStored(artifacts: seq<(string, Artifact)>)
    ensures StoredArtifacts(artifacts).Keys == HeldKinds(artifacts)
  {
    var n := |artifacts|;
    if n > 0 {
      KindsStored(artifacts[..n - 1]);
      assert HeldKinds(artifacts) == HeldKinds(artifacts[..n - 1]) + {artifacts[n - 1].1.kind};
    }
  }

  /** The premises of a publication into a consistent database. */
  ghost predicate Publishing(db: Db, r: Record, artifacts: seq<(string, Artifact)>, previous: Option<Record>) {
    && Consistent(db)
    && r.id !in db.records && r.id !in db.artifacts
    && NoDuplicates(Kinds(artifacts))
    && ActiveAnswer(db, r.scope, previous)
    && r == NewRecord(r.id, r.scope, r.schemaHash, artifacts, r.notes, previous)
  }

  /** A new record has an artifact for each of its kinds exactly when the dictionary's keys are kinds it holds. */
  lemma NewRecordComplete(r: Record, artifacts: seq<(string, Artifact)>)
    requires r.kinds == SortedKinds(artifacts)
    ensures (forall k | k in r.kinds :: k in StoredArtifacts(artifacts)) <==> KeysHeld(artifacts)
  {
    KindsStored(artifacts);
    Text.SortByMembers(Kinds(artifacts), (k: string) => k);
    assert forall i | 0 <= i < |artifacts| :: Kinds(artifacts)[i] == artifacts[i].0;
    hide StoredArtifacts, HeldKinds;
  }

  lemma MidwaySafe(db: Db, r: Record, artifacts: seq<(string, Artifact)>, previous: Option<Record>, state: State,
                   stored: map<string, Artifact>)
    requires Publishing(db, r, artifacts, previous)
    requires state == Generated || stored == StoredArtifacts(artifacts)
    ensures Frozen(db, Midway(db, r, state, stored))
    ensures state != Active || KeysHeld(artifacts) ==> ReaderSafe(Midway(db, r, state, stored))
  {
    MidwayKeeps(db, r, artifacts, previous, state, stored);
    var d := Midway(db, r, state, stored);
    NewRecordComplete(r, artifacts);
    hide Filed, TidyKinds, Linked, Supersedes, SortedKinds, StoredArtifacts, KeysHeld, Kinds, Frozen, NextStates;
    if state != Active || KeysHeld(artifacts) {
      forall id, scope | ActiveIn(d, scope, id) ensures Complete(d, id) {
        if id != r.id { assert Complete(db, id); }
      }
      CompleteIsSafe(d);
    }
  }

  lemma MidwayKeeps(db: Db, r: Record, artifacts: seq<(string, Artifact)>, previous: Option<Record>, state: State,
                    stored: map<string, Artifact>)
    requires Publishing(db, r, artifacts, previous)
    ensures Frozen(db, Midway(db, r, state, stored))
  {
    hide Consistent, StoredArtifacts, SortedKinds, Kinds, ActiveAnswer;
  }

  lemma CompleteIsSafe(db: Db)
    requires forall id, scope | ActiveIn(db, scope, id) :: Complete(db, id)
    ensures ReaderSafe(db)
  {
  }

  /** How the database after a publication differs from the one before. */
  ghost predicate Replaces(db: Db, d: Db, r: Record, target: State, stored: map<string, Artifact>,
                           previous: Option<Record>) {
    && d.records.Keys == db.records.Keys + {r.id}
    && d.records[r.id] == r.(state := target)
    && ArtifactsOf(d, r.id) == stored
    && forall id | id in db.records ::
         && ArtifactsOf(d, id) == ArtifactsOf(db, id)
         && d.records[id] == if previous.Some? && previous.value.id == id then db.records[id].(state := Superseded)
           else db.records[id]
  }

  lemma PublishedReplaces(db: Db, r: Record, artifacts: seq<(string, Artifact)>, previous: Option<Record>,
                          target: State)
    requires Publishing(db, r, artifacts, previous)
    ensures Replaces(db, Published(db, r, target, StoredArtifacts(artifacts)), r, target, StoredArtifacts(artifacts),
            previous)
  {
    hide Consistent, SortedKinds, StoredArtifacts, Linked, Complete, TidyKinds, Supersedes, Filed;
  }

  lemma AllComplete(db: Db)
    requires Consistent(db)
    ensures forall id | id in db.records :: Complete(db, id)
  {
  }

  lemma PublishedSafe(db: Db, d: Db, r: Record, artifacts: seq<(string, Artifact)>, previous: Option<Record>,
                      target: State)
    requires Publishing(db, r, artifacts, previous)
    requires Replaces(db, d, r, target, StoredArtifacts(artifacts), previous)
    ensures forall id | id in d.records && id != r.id :: Complete(d, id)
    ensures Complete(d, r.id) <==> KeysHeld(artifacts)
  {
    NewRecordComplete(r, artifacts);
    AllComplete(db);
    hide Consistent, SortedKinds, StoredArtifacts, KeysHeld, Kinds, ActiveAnswer;
    forall id | id in d.records && id != r.id ensures Complete(d, id) {
      assert Complete(db, id);
    }
  }

  lemma IncompleteUnsafe(db: Db, scope: Scope, answer: Record)
    requires ActiveAnswer(db, scope, Some(answer)) && !Complete(db, answer.id)
    ensures !ReaderSafe(db)
  {
  }

  /** A database whose other records are complete is safe to read exactly when the new one parks or is complete. */
  lemma SafeExactly(d: Db, r: Record, target: State)
    requires r.id in d.records && d.records[r.id].id == r.id
    requires forall id | id in d.records && id != r.id :: Complete(d, id)
    requires forall id, scope | id == r.id && ActiveIn(d, scope, id) :: scope == r.scope
    requires forall id :: ActiveIn(d, r.scope, id) <==> id == r.id && target == Active
    ensures ReaderSafe(d) <==> Complete(d, r.id) || target != Active
  {
    hide Complete, ReaderSafe;
    if Complete(d, r.id) || target != Active {
      CompleteIsSafe(d);
    } else {
      assert ActiveAnswer(d, r.scope, Some(d.records[r.id]));
      IncompleteUnsafe(d, r.scope, d.records[r.id]);
    }
  }

  /** What is published is safe to read exactly when it parks or its keys are kinds it holds. */
  lemma PublishedReaderSafe(db: Db, d: Db, r: Record, artifacts: seq<(string, Artifact)>, previous: Option<Record>,
                            target: State)
    requires Publishing(db, r, artifacts, previous) && target in {Active, PendingValidation}
    requires Replaces(db, d, r, target, StoredArtifacts(artifacts), previous)
    ensures ReaderSafe(d) <==> KeysHeld(artifacts) || target == PendingValidation
  {
    PublishedSafe(db, d, r, artifacts, previous, target);
    PublishedActive(db, d, r, artifacts, previous, target);
    assert r.id in d.records && d.records[r.id] == r.(state := target);
    hide Publishing, Replaces, StoredArtifacts, KeysHeld, Complete, ReaderSafe;
    SafeExactly(d, r, target);
  }

  /** What a new record says of the one before it. */
  ghost predicate Succeeds(r: Record, previous: Option<Record>) {
    if previous.Some? then
      && r.version == previous.value.version + 1 && r.previousVersion == Some(previous.value.version)
      && r.supersedes == Some(previous.value.id) && r.scope == previous.value.scope
    else r.version == 1 && r.previousVersion == None && r.supersedes == None
  }

  lemma ReplacedLinked(db: Db, d: Db, r: Record, target: State, stored: map<string, Artifact>,
                       previous: Option<Record>)
    requires Replaces(db, d, r, target, stored, previous) && Succeeds(r, previous) && r.id !in db.records
    requires previous.Some? ==> previous.value.id in db.records && db.records[previous.value.id] == previous.value
    requires forall id | id in db.records :: Linked(db, id)
    ensures forall id | id in d.records :: Linked(d, id)
  {
    hide ArtifactsOf;
    forall id | id in d.records ensures Linked(d, id) {
      if id != r.id { assert Linked(db, id); }
    }
  }

  lemma AllLinked(db: Db)
    requires Consistent(db)
    ensures forall id | id in db.records :: Linked(db, id)
  {
    hide Linked;
  }

  lemma PublishedLinked(db: Db, d: Db, r: Record, artifacts: seq<(string, Artifact)>, previous: Option<Record>,
                        target: State)
    requires Publishing(db, r, artifacts, previous)
    requires Replaces(db, d, r, target, StoredArtifacts(artifacts), previous)
    ensures forall id | id in d.records :: Linked(d, id)
  {
    AllLinked(db);
    hide Consistent, StoredArtifacts, SortedKinds, Linked, Kinds, Replaces;
    ReplacedLinked(db, d, r, target, StoredArtifacts(artifacts), previous);
  }

  lemma PublishedActive(db: Db, d: Db, r: Record, artifacts: seq<(string, Artifact)>, previous: Option<Record>,
                        target: State)
    requires Publishing(db, r, artifacts, previous)
    requires Replaces(db, d, r, target, StoredArtifacts(artifacts), previous)
    ensures forall a, b, scope | ActiveIn(d, scope, a) && ActiveIn(d, scope, b) :: a == b
    ensures forall id :: ActiveIn(d, r.scope, id) <==> id == r.id && target == Active
  {
    hide Filed, TidyKinds, Linked, Supersedes, StoredArtifacts, SortedKinds, Complete, ArtifactsOf;
    forall id, scope | ActiveIn(d, scope, id) && id != r.id ensures ActiveIn(db, scope, id) && scope != r.scope {
      assert ActiveIn(db, scope, id);
      assert previous.Some? ==> ActiveIn(db, r.scope, previous.value.id);
    }
  }

  lemma PublishedInjective(db: Db, d: Db, r: Record, artifacts: seq<(string, Artifact)>, previous: Option<Record>,
                           target: State)
    requires Publishing(db, r, artifacts, previous)
    requires Replaces(db, d, r, target, StoredArtifacts(artifacts), previous)
    ensures forall newer, older :: Supersedes(d, newer, older) <==>
              if newer == r.id then previous.Some? && previous.value.id == older else Supersedes(db, newer, older)
    ensures forall a, b, older | Supersedes(d, a, older) && Supersedes(d, b, older) :: a == b
  {
    hide Linked, Complete, Filed, TidyKinds, StoredArtifacts, SortedKinds, ArtifactsOf;
    if previous.Some? {
      assert ActiveIn(db, r.scope, previous.value.id);
      assert forall newer :: !Supersedes(db, newer, previous.value.id);
    }
  }

  lemma PublishedSuperseded(db: Db, d: Db, r: Record, artifacts: seq<(string, Artifact)>, previous: Option<Record>,
                            target: State)
    requires Publishing(db, r, artifacts, previous) && target in {Active, PendingValidation}
    requires Replaces(db, d, r, target, StoredArtifacts(artifacts), previous)
    ensures forall id | id in d.records :: d.records[id].state == Superseded <==>
            exists newer :: Supersedes(d, newer, id)
  {
    hide SortedKinds, StoredArtifacts, Filed, Complete, TidyKinds;
    PublishedInjective(db, d, r, artifacts, previous, target);
    forall id | id in d.records
      ensures d.records[id].state == Superseded <==> exists newer :: Supersedes(d, newer, id) {
      if id == r.id {
        forall newer ensures !Supersedes(d, newer, id) {
          assert newer in db.records ==> Linked(db, newer);
        }
      } else if previous.Some? && previous.value.id == id {
        assert Supersedes(d, r.id, id);
      } else {
        assert forall newer :: Supersedes(d, newer, id) <==> newer != r.id && Supersedes(db, newer, id);
        assert !Supersedes(db, r.id, id);
      }
    }
  }

  lemma PublishedConsistent(db: Db, r: Record, artifacts: seq<(string, Artifact)>, previous: Option<Record>,
                            target: State)
    requires Publishing(db, r, artifacts, previous) && target in {Active, PendingValidation}
    ensures var d := Published(db, r, target, StoredArtifacts(artifacts));
            && (Consistent(d) <==> KeysHeld(artifacts))
            && (ReaderSafe(d) <==> KeysHeld(artifacts) || target == PendingValidation)
            && Frozen(Midway(db, r, target, StoredArtifacts(artifacts)), d)
            && forall id :: ActiveIn(d, r.scope, id) <==> id == r.id && target == Active
  {
    hide Published, Midway, Publishing, Replaces, Complete, Linked, Filed, TidyKinds, Supersedes, Frozen, ActiveIn,
         ActiveAnswer, LegalChange, ArtifactsOf, KeysHeld, ReaderSafe, StoredArtifacts;
    var d := Published(db, r, target, StoredArtifacts(artifacts));
    PublishedReplaces(db, r, artifacts, previous, target);
    PublishedSafe(db, d, r, artifacts, previous, target);
    PublishedLinked(db, d, r, artifacts, previous, target);
    PublishedActive(db, d, r, artifacts, previous, target);
    PublishedInjective(db, d, r, artifacts, previous, target);
    PublishedSuperseded(db, d, r, artifacts, previous, target);
    PublishedFrozen(db, r, artifacts, previous, target);
    PublishedStates(db, d, r, artifacts, previous, target);
    PublishedFiled(db, r, artifacts, previous, target);
    PublishedTidy(db, d, r, artifacts, previous, target);
    PublishedReaderSafe(db, d, r, artifacts, previous, target);
    NewRecordIn(db, d, r, target, artifacts, previous);
  }

  lemma NewRecordIn(db: Db, d: Db, r: Record, target: State, artifacts: seq<(string, Artifact)>,
                    previous: Option<Record>)
    requires Replaces(db, d, r, target, StoredArtifacts(artifacts), previous)
    ensures r.id in d.records
  {
  }

  lemma {:induction false} StoredUnderKind(artifacts: seq<(string, Artifact)>)
    ensures forall k | k in StoredArtifacts(artifacts) :: StoredArtifacts(artifacts)[k].kind == k
  {
    if |artifacts| > 0 { StoredUnderKind(artifacts[..|artifacts| - 1]); }
  }

  lemma SortedKindsTidy(artifacts: seq<(string, Artifact)>)
    requires NoDuplicates(Kinds(artifacts))
    ensures TidyKinds(SortedKinds(artifacts))
  {
    var key := (k: string) => k;
    Sorting.DistinctRearranged(Kinds(artifacts), SortedKinds(artifacts));
    assert Text.Ordered(SortedKinds(artifacts), key);
    forall i, j | 0 <= i < j < |SortedKinds(artifacts)|
      ensures Text.AtMost(SortedKinds(artifacts)[i], SortedKinds(artifacts)[j]) {
      assert Text.AtMost(key(SortedKinds(artifacts)[i]), key(SortedKinds(artifacts)[j]));
    }
  }

  lemma PublishedFiled(db: Db, r: Record, artifacts: seq<(string, Artifact)>, previous: Option<Record>, target: State)
    requires Publishing(db, r, artifacts, previous)
    ensures Filed(Published(db, r, target, StoredArtifacts(artifacts)))
  {
    var stored := StoredArtifacts(artifacts);
    PublishedArtifacts(db, r, artifacts, previous, target);
    PublishedReplaces(db, r, artifacts, previous, target);
    FiledTidy(db);
    StoredUnderKind(artifacts);
    hide Publishing, Published, Consistent, StoredArtifacts, Filed, TidyKinds, ArtifactsOf;
    FiledPut(db, Published(db, r, target, stored), r.id, stored);
  }

  lemma PublishedTidy(db: Db, d: Db, r: Record, artifacts: seq<(string, Artifact)>, previous: Option<Record>,
                      target: State)
    requires Publishing(db, r, artifacts, previous)
    requires Replaces(db, d, r, target, StoredArtifacts(artifacts), previous)
    ensures forall id | id in d.records :: TidyKinds(d.records[id].kinds)
  {
    FiledTidy(db);
    NewKindsTidy(artifacts);
    assert r.kinds == SortedKinds(artifacts);
    hide *;
    ReplacedTidy(db, d, r, target, StoredArtifacts(artifacts), previous);
  }

  lemma ReplacedTidy(db: Db, d: Db, r: Record, target: State, stored: map<string, Artifact>, previous: Option<Record>)
    requires Replaces(db, d, r, target, stored, previous)
    requires TidyKinds(r.kinds) && forall id | id in db.records :: TidyKinds(db.records[id].kinds)
    ensures forall id | id in d.records :: TidyKinds(d.records[id].kinds)
  {
    hide TidyKinds, ArtifactsOf;
  }

  lemma PublishedArtifacts(db: Db, r: Record, artifacts: seq<(string, Artifact)>, previous: Option<Record>,
                           target: State)
    ensures var stored := StoredArtifacts(artifacts);
            Published(db, r, target, stored).artifacts == if stored == map[] then db.artifacts
              else db.artifacts[r.id := stored]
  {
    hide StoredArtifacts;
  }

  lemma NewKindsTidy(artifacts: seq<(string, Artifact)>)
    requires NoDuplicates(Kinds(artifacts))
    ensures TidyKinds(SortedKinds(artifacts))
  {
    hide SortedKinds, TidyKinds;
    SortedKindsTidy(artifacts);
  }

  lemma FiledPut(db: Db, d: Db, id: string, stored: map<string, Artifact>)
    requires Filed(db) && id in d.records && db.records.Keys <= d.records.Keys
    requires forall k | k in stored :: stored[k].kind == k
    requires d.artifacts == if stored == map[] then db.artifacts else db.artifacts[id := stored]
    ensures Filed(d)
  {
  }

  lemma FiledTidy(db: Db)
    requires Consistent(db)
    ensures Filed(db) && forall id | id in db.records :: TidyKinds(db.records[id].kinds)
    ensures forall id | id in db.artifacts :: id in db.records
  {
  }

  lemma PublishedFrozen(db: Db, r: Record, artifacts: seq<(string, Artifact)>, previous: Option<Record>, target: State)
    requires Publishing(db, r, artifacts, previous) && target in {Active, PendingValidation}
    ensures Frozen(Midway(db, r, target, StoredArtifacts(artifacts)),
            Published(db, r, target, StoredArtifacts(artifacts)))
    ensures LegalChange(Midway(db, r, target, StoredArtifacts(artifacts)),
            Published(db, r, target, StoredArtifacts(artifacts)))
  {
    var d := Midway(db, r, target, StoredArtifacts(artifacts));
    PublishedIs(db, r, artifacts, previous, target);
    hide Publishing, Midway, Published, StoredArtifacts, Frozen, LegalChange;
    if previous.Some? { SupersededFrozen(d, previous.value.id); } else { SameFrozen(d); }
  }

  /** The last write of a publication changes one state: that of the record that was ACTIVE before. */
  lemma PublishedIs(db: Db, r: Record, artifacts: seq<(string, Artifact)>, previous: Option<Record>, target: State)
    requires Publishing(db, r, artifacts, previous)
    ensures var d := Midway(db, r, target, StoredArtifacts(artifacts));
            var after := Published(db, r, target, StoredArtifacts(artifacts));
            if previous.None? then after == d
            else && previous.value.id in d.records && d.records[previous.value.id].state == Active
                 && after == WithState(d, previous.value.id, Superseded)
  {
    hide Consistent, Filed, TidyKinds, Linked, Supersedes, StoredArtifacts, Complete, SortedKinds;
  }

  function WithState(db: Db, id: string, state: State): Db
    requires id in db.records
  {
    db.(records := db.records[id := db.records[id].(state := state)])
  }

  lemma SupersededFrozen(db: Db, id: string)
    requires id in db.records && db.records[id].state == Active
    ensures Frozen(db, WithState(db, id, Superseded)) && LegalChange(db, WithState(db, id, Superseded))
  {
  }

  lemma SameFrozen(db: Db)
    ensures Frozen(db, db) && LegalChange(db, db)
  {
  }

  lemma PublishedStates(db: Db, d: Db, r: Record, artifacts: seq<(string, Artifact)>, previous: Option<Record>,
                        target: State)
    requires Publishing(db, r, artifacts, previous) && target in {Active, PendingValidation}
    requires Replaces(db, d, r, target, StoredArtifacts(artifacts), previous)
    ensures forall id | id in d.records ::
            d.records[id].id == id && d.records[id].state in {Active, PendingValidation, Stale, Superseded}
  {
  }

  lemma MidwayLegal(db: Db, r: Record, state: State, stored: map<string, Artifact>, more: map<string, Artifact>,
                    next: State)
    requires r.id !in db.records && r.id !in db.artifacts
             && (state == next || (state == Generated && next in {Active, PendingValidation}))
    requires state == Generated && more == map[] ==> stored == map[]
    ensures LegalChange(db, Midway(db, r, state, stored))
    ensures LegalChange(Midway(db, r, state, stored), Midway(db, r, next, more))
    ensures state == Generated ==> Frozen(Midway(db, r, state, stored), Midway(db, r, next, more))
  {
  }

  /** A publication that activates its record leaves readers of the scope an active record at every point. */
  ghost predicate Served(db: Db, scope: Scope) {
    exists id :: ActiveIn(db, scope, id)
  }

  lemma MidwayServed(db: Db, r: Record, state: State, stored: map<string, Artifact>)
    requires r.id !in db.records
    ensures Served(db, r.scope) ==> Served(Midway(db, r, state, stored), r.scope)
    ensures state == Active ==> Served(Midway(db, r, state, stored), r.scope)
  {
    var d := Midway(db, r, state, stored);
    if id :| ActiveIn(db, r.scope, id) { assert ActiveIn(d, r.scope, id); }
    if state == Active { assert ActiveIn(d, r.scope, r.id); }
  }

  // ---- A publication as a reader of the database sees it ----

  /** The last artifact of each kind is stored. */
  lemma {:induction false} LastStored(artifacts: seq<(string, Artifact)>, i: nat)
    requires i < |artifacts| && forall j | i < j < |artifacts| :: artifacts[j].1.kind != artifacts[i].1.kind
    ensures var k := artifacts[i].1.kind;
            k in StoredArtifacts(artifacts) && StoredArtifacts(artifacts)[k] == artifacts[i].1
  {
    if i < |artifacts| - 1 { LastStored(artifacts[..|artifacts| - 1], i); }
  }

  /**
   The record follows the ACTIVE one of its scope, if there was one, which is superseded now, and starts at version 1
   if there was none; all other records and their artifacts are as they were.
  */
  ghost predicate Follows(db0: Db, db: Db, r: Record) {
    && r.id in db.records && db.records[r.id] == r && r.id !in db0.records
    && (forall id | id in db0.records && db0.records[id].scope == r.scope && db0.records[id].state == Active ::
          && r.version == db0.records[id].version + 1 && r.previousVersion == Some(db0.records[id].version)
          && r.supersedes == Some(id)
          && id in db.records && db.records[id] == db0.records[id].(state := Superseded))
    && ((forall id | id in db0.records && db0.records[id].scope == r.scope :: db0.records[id].state != Active) ==>
          r.version == 1 && r.previousVersion == None && r.supersedes == None)
    && (forall id | id in db0.records && (db0.records[id].scope != r.scope || db0.records[id].state != Active) ::
          id in db.records && db.records[id] == db0.records[id])
    && (forall id | id in db.records :: id in db0.records || id == r.id)
    && (forall id | id != r.id :: ArtifactsOf(db, id) == ArtifactsOf(db0, id))
  }

  /** The record lists the keys of the dictionary in order, and the last artifact of each kind is stored under it. */
  ghost predicate Holds(db: Db, r: Record, artifacts: seq<(string, Artifact)>) {
    && multiset(r.kinds) == multiset(seq(|artifacts|, i requires 0 <= i < |artifacts| => artifacts[i].0))
    && (forall i, j | 0 <= i < j < |r.kinds| :: Text.AtMost(r.kinds[i], r.kinds[j]))
    && (forall i | 0 <= i < |artifacts| && forall j | i < j < |artifacts| :: artifacts[j].1.kind != artifacts[i].1.kind
          :: artifacts[i].1.kind in ArtifactsOf(db, r.id)
             && ArtifactsOf(db, r.id)[artifacts[i].1.kind] == artifacts[i].1)
    && (forall k | k in ArtifactsOf(db, r.id) :: exists i :: 0 <= i < |artifacts| && artifacts[i].1.kind == k)
  }

  lemma ReplacesFollows(db: Db, d: Db, r: Record, target: State, stored: map<string, Artifact>,
                        previous: Option<Record>)
    requires Replaces(db, d, r, target, stored, previous) && r.id !in db.records
    requires forall id :: ActiveIn(db, r.scope, id) <==> previous.Some? && previous.value.id == id
    requires previous.Some? ==> previous.value.id in db.records && db.records[previous.value.id] == previous.value
    requires Succeeds(r, previous)
    requires forall id | id != r.id :: ArtifactsOf(d, id) == ArtifactsOf(db, id)
    ensures Follows(db, d, r.(state := target))
  {
    hide ArtifactsOf;
    forall id | id in db.records
      ensures ActiveIn(db, r.scope, id) <==> db.records[id].scope == r.scope && db.records[id].state == Active
    {
    }
  }

  lemma PublishedFollows(db: Db, r: Record, artifacts: seq<(string, Artifact)>, previous: Option<Record>,
                         target: State)
    requires Publishing(db, r, artifacts, previous)
    ensures Follows(db, Published(db, r, target, StoredArtifacts(artifacts)), r.(state := target))
  {
    var d := Published(db, r, target, StoredArtifacts(artifacts));
    hide Follows, Consistent, StoredArtifacts, Published, Replaces, ActiveAnswer, SortedKinds, Kinds;
    PublishedReplaces(db, r, artifacts, previous, target);
    ActiveUnique(db, r.scope, previous);
    PublishedArtifacts(db, r, artifacts, previous, target);
    assert previous.Some? ==> ActiveIn(db, r.scope, previous.value.id);
    ReplacesFollows(db, d, r, target, StoredArtifacts(artifacts), previous);
  }

  lemma ActiveUnique(db: Db, scope: Scope, previous: Option<Record>)
    requires Consistent(db) && ActiveAnswer(db, scope, previous)
    ensures forall id :: ActiveIn(db, scope, id) <==> previous.Some? && previous.value.id == id
    ensures previous.Some? ==> previous.value.id in db.records && db.records[previous.value.id] == previous.value
  {
    hide Filed, TidyKinds, Linked, Supersedes, Complete;
  }

  lemma StoredHolds(d: Db, r: Record, artifacts: seq<(string, Artifact)>)
    requires ArtifactsOf(d, r.id) == StoredArtifacts(artifacts) && r.kinds == SortedKinds(artifacts)
    requires NoDuplicates(Kinds(artifacts))
    ensures Holds(d, r, artifacts)
  {
    SortedKindsTidy(artifacts);
    KindsStored(artifacts);
    assert Kinds(artifacts) == seq(|artifacts|, i requires 0 <= i < |artifacts| => artifacts[i].0);
    hide ArtifactsOf, StoredArtifacts, NoDuplicates, Kinds;
    forall i | 0 <= i < |artifacts| && forall j | i < j < |artifacts| :: artifacts[j].1.kind != artifacts[i].1.kind
      ensures artifacts[i].1.kind in StoredArtifacts(artifacts)
              && StoredArtifacts(artifacts)[artifacts[i].1.kind] == artifacts[i].1
    {
      LastStored(artifacts, i);
    }
  }

  lemma PublishedHolds(db: Db, r: Record, artifacts: seq<(string, Artifact)>, previous: Option<Record>,
                       target: State)
    requires Publishing(db, r, artifacts, previous)
    ensures Holds(Published(db, r, target, StoredArtifacts(artifacts)), r.(state := target), artifacts)
  {
    var d := Published(db, r, target, StoredArtifacts(artifacts));
    hide Holds, Consistent, StoredArtifacts, Published, ActiveAnswer, SortedKinds, Kinds;
    PublishedReplaces(db, r, artifacts, previous, target);
    StoredHolds(d, r.(state := target), artifacts);
  }

  class ContextRegistryService {
    var db: Db
    ghost var history: seq<Db>

    ghost predicate Logged()
      reads this
    {
      |history| > 0 && history[|history| - 1] == db
    }

    /** The history ends in the current database and was safe for readers throughout. */
    ghost predicate Live()
      reads this
    {
      Logged() && SafeHistory(history)
    }

    ghost predicate Valid()
      reads this
    {
      Live() && Consistent(db)
    }

    constructor ()
      ensures Valid() && db == Db(map[], map[]) && history == [db]
    {
      db := Db(map[], map[]);
      history := [Db(map[], map[])];
    }

    /** One committed write. */
    method Write(next: Db)
      requires Logged()
      modifies this
      ensures Logged() && db == next && history == old(history) + [next]
      ensures old(Live()) && ReaderSafe(next) && Frozen(old(db), next) && LegalChange(old(db), next) ==> Live()
    {
      if SafeHistory(history) && ReaderSafe(next) && Frozen(db, next) && LegalChange(db, next) {
        HistoryGrows(history, db, next);
      }
      db := next;
      history := history + [next];
    }

    method ActiveRecord(scope: Scope) returns (answer: Option<Record>)
      requires forall id | id in db.records :: db.records[id].id == id
      ensures ActiveAnswer(db, scope, answer)
    {
      answer := None;
      var todo := db.records.Keys;
      while todo != {}
        invariant answer.Some? ==> ActiveIn(db, scope, answer.value.id) && db.records[answer.value.id] == answer.value
        invariant forall id | ActiveIn(db, scope, id) ::
                  id in todo || (answer.Some? && db.records[id].version <= answer.value.version)
        decreases todo
      {
        var id :| id in todo;
        todo := todo - {id};
        if ActiveIn(db, scope, id) && (answer.None? || answer.value.version < db.records[id].version) {
          answer := Some(db.records[id]);
        }
      }
    }

    method IsCurrent(scope: Scope, schemaHash: string) returns (current: bool)
      requires Valid()
      ensures current <==> exists id :: ActiveIn(db, scope, id) && db.records[id].schemaHash == schemaHash
    {
      var active := ActiveRecord(scope);
      current := active.Some? && active.value.schemaHash == schemaHash;
      assert active.Some? ==> ActiveIn(db, scope, active.value.id);
    }

    /** The stored artifact of the active record; in a valid registry it is there for every kind the record lists. */
    method ActiveArtifact(scope: Scope, kind: string) returns (artifact: Option<Artifact>)
      requires Valid()
      ensures forall id | ActiveIn(db, scope, id) ::
                artifact == if kind in ArtifactsOf(db, id) then Some(ArtifactsOf(db, id)[kind]) else None
      ensures forall id | ActiveIn(db, scope, id) && kind in db.records[id].kinds :: artifact.Some?
      ensures !Served(db, scope) ==> artifact.None?
    {
      var active := ActiveRecord(scope);
      artifact := None;
      if active.Some? {
        assert ActiveIn(db, scope, active.value.id) && Complete(db, active.value.id);
        var stored := ArtifactsOf(db, active.value.id);
        if kind in stored { artifact := Some(stored[kind]); }
      }
    }

    /**
     Publish a dictionary of artifacts. The registry stays valid exactly when each key of the dictionary is the kind
     of an artifact in it; otherwise an activated record lists a kind that no reader can get.
    */
    method Publish(newId: string, scope: Scope, schemaHash: string, artifacts: seq<(string, Artifact)>, notes: string,
                   requireValidation: bool)
      returns (res: Result<Record>)
      requires Valid() && newId !in db.records && NoDuplicates(Kinds(artifacts))
      modifies this
      ensures Logged() && old(history) <= history && res.Ok?
      ensures Valid() <==> KeysHeld(artifacts)
      ensures Live() <==> KeysHeld(artifacts) || TargetState(artifacts, requireValidation) == PendingValidation
      ensures var target := TargetState(artifacts, requireValidation);
              exists previous :: ActiveAnswer(old(db), scope, previous) &&
                var r := NewRecord(newId, scope, schemaHash, artifacts, notes, previous);
                db == Published(old(db), r, target, StoredArtifacts(artifacts)) && res.value == r.(state := target)
      // If validation is required and an artifact is a language model's, the record parks and none is ACTIVE.
      // In every other case the record is the scope's ACTIVE one.
      ensures var parks := requireValidation && exists i | 0 <= i < |artifacts| :: artifacts[i].1.provenance == Llm;
              && res.value.state == (if parks then PendingValidation else Active)
              && forall id :: (id in db.records && db.records[id].scope == scope && db.records[id].state == Active)
                              <==> id == newId && !parks
      ensures res.value.id == newId && res.value.scope == scope
      ensures res.value.schemaHash == schemaHash && res.value.notes == notes
      ensures Follows(old(db), db, res.value) && Holds(db, res.value, artifacts)
      ensures Served(old(db), scope) && TargetState(artifacts, requireValidation) == Active ==>
                forall i | |old(history)| <= i < |history| :: Served(history[i], scope)
    {
      hide Consistent, SafeHistory, ReaderSafe, Frozen, LegalChange, ActiveAnswer, Served, ActiveIn,
           Published, Midway, KeysHeld, Kinds, Follows, Holds, StoredArtifacts, SortedKinds;
      ghost var db0 := db;
      FiledTidy(db0);
      var previous := FindPrevious(scope);
      var target := TargetState(artifacts, requireValidation);
      var r := NewRecord(newId, scope, schemaHash, artifacts, notes, previous);
      assert Publishing(db0, r, artifacts, previous);
      RegisterAndStore(r, artifacts, previous);
      var record := ActivateAndSupersede(db0, r, artifacts, previous, target);
      res := Ok(record);
      PublishedFollows(db0, r, artifacts, previous, target);
      PublishedHolds(db0, r, artifacts, previous, target);
      ActiveReads(db, scope, newId, target);
    }

    /** The last writes of a publication: the new record's state, then the state of the record it supersedes. */
    method ActivateAndSupersede(ghost db0: Db, r: Record, artifacts: seq<(string, Artifact)>, previous: Option<Record>,
                                target: State)
      returns (record: Record)
      requires Live() && Publishing(db0, r, artifacts, previous) && target in {Active, PendingValidation}
      requires db == Midway(db0, r, Generated, StoredArtifacts(artifacts))
      modifies this
      ensures Logged() && old(history) <= history && record == r.(state := target)
      ensures db == Published(db0, r, target, StoredArtifacts(artifacts))
      ensures (Consistent(db) <==> KeysHeld(artifacts))
              && (Live() <==> KeysHeld(artifacts) || target == PendingValidation)
      ensures forall id :: ActiveIn(db, r.scope, id) <==> id == r.id && target == Active
      ensures target == Active ==> forall i | |old(history)| <= i < |history| :: Served(history[i], r.scope)
    {
      hide Consistent, SafeHistory, ReaderSafe, Frozen, LegalChange, ActiveAnswer, Served, ActiveIn, Published, Midway,
           KeysHeld, Kinds, Publishing, StoredArtifacts;
      ghost var stored := StoredArtifacts(artifacts);
      FreshId(db0, r, artifacts, previous);
      var activated := StateSet(db, r.scope.org, r.id, target);
      TargetIsMidway(db0, r, target, stored);
      StepSafe(db0, r, artifacts, previous, target, stored);
      MidwayServed(db0, r, target, stored);
      MidwayLegal(db0, r, Generated, stored, stored, target);
      Write(activated.value);
      MidwayRecord(db0, r, target, stored);
      record := db.records[r.id];
      PublishedConsistent(db0, r, artifacts, previous, target);
      PublishedFrozen(db0, r, artifacts, previous, target);
      if previous.Some? {
        PreviousSuperseded(db0, r, artifacts, previous, target);
        var superseded := StateSet(db, r.scope.org, previous.value.id, Superseded);
        Write(superseded.value);
      } else {
        NothingSuperseded(db0, r, target, stored);
      }
      PublishedServed(db, r.scope, r.id, target);
      if SafeHistory(history) { EndsSafe(history); }
    }

    /** The first writes of a publication: the record, then its artifacts one by one. */
    method RegisterAndStore(r: Record, artifacts: seq<(string, Artifact)>, ghost previous: Option<Record>)
      requires Live() && Publishing(db, r, artifacts, previous)
      modifies this
      ensures Live() && old(history) <= history
      ensures db == Midway(old(db), r, Generated, StoredArtifacts(artifacts))
      ensures forall k | |old(history)| <= k < |history| :: Served(old(db), r.scope) ==> Served(history[k], r.scope)
    {
      hide Consistent, SafeHistory, ReaderSafe, Frozen, LegalChange, ActiveAnswer, Served, ActiveIn,
           Midway;
      ghost var db0, history0 := db, history;
      var registered := Registered(db, r.scope.org, r);
      RegisteredIsMidway(db0, r);
      StepSafe(db0, r, artifacts, previous, Generated, map[]);
      Write(registered.value);
      for i := 0 to |artifacts|
        invariant Live() && db == Midway(db0, r, Generated, StoredArtifacts(artifacts[..i]))
        invariant history0 <= history
        invariant forall k | |history0| <= k < |history| :: Served(db0, r.scope) ==> Served(history[k], r.scope)
      {
        var put := ArtifactPut(db, r.scope.org, r.id, artifacts[i].1);
        PutIsMidway(db0, r, artifacts, i);
        StepSafe(db0, r, artifacts, previous, Generated, StoredArtifacts(artifacts[..i + 1]));
        MidwayLegal(db0, r, Generated, StoredArtifacts(artifacts[..i]), StoredArtifacts(artifacts[..i + 1]), Generated);
        Write(put.value);
      }
      assert artifacts[..|artifacts|] == artifacts;
    }

    /** Mark every record of a connection STALE that the lifecycle lets become stale; returns how many. */
    method Invalidate(org: string, connection: string, reason: string) returns (marked: nat)
      requires Valid()
      modifies this
      ensures Valid() && old(history) <= history
      ensures db == Invalidated(old(db), org, connection, reason, old(db).records.Keys)
      ensures marked == |Invalidatable(old(db), org, connection, old(db).records.Keys)|
      ensures WentStale(old(db), db, org, connection, reason)
      ensures marked == |set id | id in old(db).records && id in db.records
                                  && db.records[id].state != old(db).records[id].state|
    {
      hide Consistent, SafeHistory, ReaderSafe, Frozen, LegalChange, Invalidated, Invalidatable, CanInvalidate, Stalled,
           WentStale;
      ghost var db0, history0 := db, history;
      marked := 0;
      var todo := db.records.Keys;
      NothingInvalidated(db0, org, connection, reason);
      while todo != {}
        invariant todo <= db0.records.Keys
        invariant Live() && history0 <= history
        invariant db == Invalidated(db0, org, connection, reason, db0.records.Keys - todo)
        invariant marked == |Invalidatable(db0, org, connection, db0.records.Keys - todo)|
        decreases todo
      {
        var id :| id in todo;
        ghost var done := db0.records.Keys - todo;
        InvalidatesOne(db0, org, connection, reason, done, id);
        InvalidatedSafe(db0, org, connection, reason, done + {id});
        MarkedStaleLegal(db, org, connection, reason, id);
        assert done + {id} == db0.records.Keys - (todo - {id});
        var r := db.records[id];
        if CanInvalidate(r, org, connection) {
          Write(db.(records := db.records[id := Stalled(r, reason)]));
          marked := marked + 1;
        }
        todo := todo - {id};
      }
      assert db0.records.Keys - todo == db0.records.Keys;
      InvalidatedConsistent(db0, org, connection, reason, db0.records.Keys);
      AllWentStale(db0, org, connection, reason);
    }

    method FindPrevious(scope: Scope) returns (previous: Option<Record>)
      requires Consistent(db)
      ensures ActiveAnswer(db, scope, previous)
    {
      previous := ActiveRecord(scope);
    }
  }

  lemma ActiveReads(db: Db, scope: Scope, newId: string, target: State)
    requires forall id :: ActiveIn(db, scope, id) <==> id == newId && target == Active
    ensures forall id :: (id in db.records && db.records[id].scope == scope && db.records[id].state == Active)
                         <==> id == newId && target == Active
  {
    forall id ensures (id in db.records && db.records[id].scope == scope && db.records[id].state == Active)
                      <==> id == newId && target == Active
    {
      assert ActiveIn(db, scope, id) <==> id == newId && target == Active;
    }
  }

  lemma StepSafe(db: Db, r: Record, artifacts: seq<(string, Artifact)>, previous: Option<Record>, state: State,
                 stored: map<string, Artifact>)
    requires Publishing(db, r, artifacts, previous)
    requires state == Generated || (state in {Active, PendingValidation} && stored == StoredArtifacts(artifacts))
    ensures var d := Midway(db, r, state, stored);
            && (state != Active || KeysHeld(artifacts) ==> ReaderSafe(d))
            && Frozen(db, d) && (state == Generated ==> LegalChange(db, d))
            && (Served(db, r.scope) ==> Served(d, r.scope))
  {
    MidwaySafe(db, r, artifacts, previous, state, stored);
    MidwayServed(db, r, state, stored);
    if state == Generated { MidwayLegal(db, r, state, stored, stored, state); }
  }

  lemma PutIsMidway(db: Db, r: Record, artifacts: seq<(string, Artifact)>, i: nat)
    requires i < |artifacts| && r.id !in db.artifacts
    ensures ArtifactPut(Midway(db, r, Generated, StoredArtifacts(artifacts[..i])), r.scope.org, r.id, artifacts[i].1)
            == Ok(Midway(db, r, Generated, StoredArtifacts(artifacts[..i + 1])))
  {
    assert artifacts[..i + 1][..i] == artifacts[..i];
    var before, after := StoredArtifacts(artifacts[..i]), StoredArtifacts(artifacts[..i + 1]);
    assert after == before[artifacts[i].1.kind := artifacts[i].1];
    assert artifacts[i].1.kind in after && after != map[];
    var d := Midway(db, r, Generated, before);
    assert ArtifactsOf(d, r.id) == before;
    assert d.artifacts[r.id := after] == db.artifacts[r.id := after];
  }

  lemma TargetIsMidway(db: Db, r: Record, target: State, stored: map<string, Artifact>)
    requires target in {Active, PendingValidation}
    ensures StateSet(Midway(db, r, Generated, stored), r.scope.org, r.id, target) == Ok(Midway(db, r, target, stored))
  {
    var d := Midway(db, r, Generated, stored);
    assert d.records[r.id := r.(state := target)] == db.records[r.id := r.(state := target)];
  }

  lemma PreviousSuperseded(db: Db, r: Record, artifacts: seq<(string, Artifact)>, previous: Option<Record>,
                           target: State)
    requires Publishing(db, r, artifacts, previous) && previous.Some?
    ensures StateSet(Midway(db, r, target, StoredArtifacts(artifacts)), r.scope.org, previous.value.id, Superseded)
            == Ok(Published(db, r, target, StoredArtifacts(artifacts)))
  {
    PublishedIs(db, r, artifacts, previous, target);
    PreviousOwned(db, r, artifacts, previous, target);
    hide Publishing, Midway, Published, StoredArtifacts;
  }

  lemma PreviousOwned(db: Db, r: Record, artifacts: seq<(string, Artifact)>, previous: Option<Record>, target: State)
    requires Publishing(db, r, artifacts, previous) && previous.Some?
    ensures OwnedBy(Midway(db, r, target, StoredArtifacts(artifacts)), r.scope.org, previous.value.id)
  {
    hide Consistent, StoredArtifacts, SortedKinds, Kinds, NoDuplicates;
    assert ActiveIn(db, r.scope, previous.value.id);
  }

  lemma RegisteredIsMidway(db: Db, r: Record)
    requires r.state == Generated
    ensures Registered(db, r.scope.org, r) == Ok(Midway(db, r, Generated, map[]))
  {
  }

  lemma MidwayRecord(db: Db, r: Record, state: State, stored: map<string, Artifact>)
    ensures r.id in Midway(db, r, state, stored).records
            && Midway(db, r, state, stored).records[r.id] == r.(state := state)
  {
  }

  lemma NothingSuperseded(db: Db, r: Record, target: State, stored: map<string, Artifact>)
    requires r.supersedes.None?
    ensures Published(db, r, target, stored) == Midway(db, r, target, stored)
  {
  }

  lemma FreshId(db: Db, r: Record, artifacts: seq<(string, Artifact)>, previous: Option<Record>)
    requires Publishing(db, r, artifacts, previous)
    ensures r.id !in db.records && r.id !in db.artifacts && (previous.None? ==> r.supersedes.None?)
  {
    hide Consistent, ActiveAnswer, SortedKinds, Kinds;
  }

  lemma PublishedServed(db: Db, scope: Scope, id: string, target: State)
    requires forall x :: ActiveIn(db, scope, x) <==> x == id && target == Active
    ensures target == Active ==> Served(db, scope)
  {
    if target == Active { assert ActiveIn(db, scope, id); }
  }

  /**
   Between the last two writes of a publication the old and the new record are both ACTIVE, and `active` answers
   the new one.
  */
  lemma TwoActiveBetweenWrites(db: Db, r: Record, artifacts: seq<(string, Artifact)>, previous: Option<Record>,
                               answer: Option<Record>)
    requires Publishing(db, r, artifacts, previous) && previous.Some?
    requires ActiveAnswer(Midway(db, r, Active, StoredArtifacts(artifacts)), r.scope, answer)
    ensures var d := Midway(db, r, Active, StoredArtifacts(artifacts));
            && ActiveIn(d, r.scope, r.id) && ActiveIn(d, r.scope, previous.value.id) && r.id != previous.value.id
            && answer == Some(r.(state := Active))
  {
    var d := Midway(db, r, Active, StoredArtifacts(artifacts));
    assert ActiveIn(db, r.scope, previous.value.id);
    assert ActiveIn(d, r.scope, r.id) && ActiveIn(d, r.scope, previous.value.id);
    hide Complete, Linked, Supersedes, StoredArtifacts;
    assert forall id | ActiveIn(d, r.scope, id) && id != r.id :: ActiveIn(db, r.scope, id);
  }

  // ---- Invalidation ----

  predicate CanInvalidate(r: Record, org: string, connection: string) {
    && r.scope.org == org && r.scope.connection == connection
    && r.state != Superseded && r.state != Stale && Stale in NextStates(r.state)
  }

  function Stalled(r: Record, reason: string): Record {
    var note := if |reason| <= 200 then reason else reason[..200];
    r.(state := Stale, notes := if note != "" then note else r.notes)
  }

  ghost function Invalidatable(db: Db, org: string, connection: string, ids: set<string>): set<string> {
    set id | id in ids && id in db.records && CanInvalidate(db.records[id], org, connection)
  }

  ghost function Invalidated(db: Db, org: string, connection: string, reason: string, ids: set<string>): Db {
    db.(records := map id | id in db.records ::
      if id in Invalidatable(db, org, connection, ids) then Stalled(db.records[id], reason) else db.records[id])
  }

  /**
   The connection's ACTIVE and PENDING_VALIDATION records are STALE, with the reason's first 200 characters as note
   if there is one; nothing else has changed.
  */
  ghost predicate WentStale(db0: Db, db: Db, org: string, connection: string, reason: string) {
    && db.records.Keys == db0.records.Keys && db.artifacts == db0.artifacts
    && forall id | id in db0.records ::
         var r := db0.records[id];
         db.records[id] ==
           if r.scope.org == org && r.scope.connection == connection && r.state in {Active, PendingValidation}
             then r.(state := Stale, notes := if reason == "" then r.notes
                                              else if |reason| > 200 then reason[..200] else reason)
           else r
  }

  lemma AllWentStale(db: Db, org: string, connection: string, reason: string)
    requires Consistent(db)
    ensures var d := Invalidated(db, org, connection, reason, db.records.Keys);
            && WentStale(db, d, org, connection, reason)
            && Invalidatable(db, org, connection, db.records.Keys) ==
               set id | id in db.records && id in d.records
                        && d.records[id].state != db.records[id].state
  {
    hide Filed, TidyKinds, Linked, Supersedes, Complete;
    forall s ensures Stale in NextStates(s) <==> s in {PendingValidation, Validated, Active, Degraded} {
      ReachedFrom(s);
    }
    hide NextStates;
  }

  lemma NothingInvalidated(db: Db, org: string, connection: string, reason: string)
    ensures Invalidated(db, org, connection, reason, db.records.Keys - db.records.Keys) == db
    ensures Invalidatable(db, org, connection, db.records.Keys - db.records.Keys) == {}
  {
  }

  /** The database with one more record marked. */
  ghost function MarkedStale(d: Db, org: string, connection: string, reason: string, id: string): Db
    requires id in d.records
  {
    if CanInvalidate(d.records[id], org, connection)
      then d.(records := d.records[id := Stalled(d.records[id], reason)]) else d
  }

  lemma InvalidatableGrows(db: Db, org: string, connection: string, done: set<string>, id: string)
    requires id in db.records && id !in done
    ensures Invalidatable(db, org, connection, done + {id})
            == Invalidatable(db, org, connection, done) +
              (if CanInvalidate(db.records[id], org, connection) then {id} else {})
    ensures id !in Invalidatable(db, org, connection, done)
  {
  }

  lemma InvalidatesOne(db: Db, org: string, connection: string, reason: string, done: set<string>, id: string)
    requires id in db.records && id !in done
    ensures var d := Invalidated(db, org, connection, reason, done);
            id in d.records && d.records[id] == db.records[id]
            && Invalidated(db, org, connection, reason, done + {id}) == MarkedStale(d, org, connection, reason, id)
    ensures |Invalidatable(db, org, connection, done + {id})|
            == |Invalidatable(db, org, connection, done)| +
              (if CanInvalidate(db.records[id], org, connection) then 1 else 0)
  {
    var d, next := Invalidated(db, org, connection, reason, done),
      Invalidated(db, org, connection, reason, done + {id});
    InvalidatableGrows(db, org, connection, done, id);
    hide CanInvalidate, Stalled, Invalidatable;
    assert next.records == MarkedStale(d, org, connection, reason, id).records;
  }

  lemma MarkedStaleLegal(d: Db, org: string, connection: string, reason: string, id: string)
    requires id in d.records
    ensures Frozen(d, MarkedStale(d, org, connection, reason, id))
            && LegalChange(d, MarkedStale(d, org, connection, reason, id))
  {
  }

  lemma InvalidatedSafe(db: Db, org: string, connection: string, reason: string, ids: set<string>)
    requires Consistent(db)
    ensures ReaderSafe(Invalidated(db, org, connection, reason, ids))
  {
  }

  /** d is db with some records marked STALE, none of them superseded. */
  ghost predicate OnlyMarked(db: Db, d: Db) {
    && d.records.Keys == db.records.Keys && d.artifacts == db.artifacts
    && forall id | id in db.records ::
         || d.records[id] == db.records[id]
         || (d.records[id] == db.records[id].(state := Stale, notes := d.records[id].notes)
             && db.records[id].state != Superseded)
  }

  lemma InvalidatedOnlyMarks(db: Db, org: string, connection: string, reason: string, ids: set<string>)
    ensures OnlyMarked(db, Invalidated(db, org, connection, reason, ids))
  {
  }

  lemma MarkedLinked(db: Db, d: Db, id: string)
    requires OnlyMarked(db, d) && id in db.records && Complete(db, id) && Linked(db, id)
    ensures Complete(d, id) && Linked(d, id)
  {
  }

  lemma MarkedSupersedes(db: Db, d: Db)
    requires OnlyMarked(db, d)
    ensures forall newer, older :: Supersedes(d, newer, older) <==> Supersedes(db, newer, older)
    ensures forall id, scope | ActiveIn(d, scope, id) :: ActiveIn(db, scope, id)
  {
  }

  lemma InvalidatedConsistent(db: Db, org: string, connection: string, reason: string, ids: set<string>)
    requires Consistent(db)
    ensures Consistent(Invalidated(db, org, connection, reason, ids))
  {
    var d := Invalidated(db, org, connection, reason, ids);
    InvalidatedOnlyMarks(db, org, connection, reason, ids);
    hide Invalidated, TidyKinds, Complete, Linked, Supersedes, ActiveIn;
    MarkedSupersedes(db, d);
    forall id | id in d.records ensures Complete(d, id) && Linked(d, id) { MarkedLinked(db, d, id); }
  }

  /** After an invalidation no scope of the connection has an active record, so its next version is 1 again. */
  lemma InvalidatedRestarts(db: Db, org: string, connection: string, reason: string, scope: Scope)
    requires Consistent(db) && scope.org == org && scope.connection == connection
    ensures ActiveAnswer(Invalidated(db, org, connection, reason, db.records.Keys), scope, None)
    ensures forall id, hash, artifacts, notes, previous |
              ActiveAnswer(Invalidated(db, org, connection, reason, db.records.Keys), scope, previous) ::
              NewRecord(id, scope, hash, artifacts, notes, previous).version == 1
  {
  }
}
