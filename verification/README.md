# A verified model of datahek's context graph, plan compiler, context registry and run-time gates

datahek answers questions over databases it does not own. Before it asks a model for a query it builds a *context*
of the connected database (schema, topology, metrics, ontology), keeps that context in a versioned registry, projects
it into a graph, and compiles the model's logical plans to SQL under row filters, approvals and rate limits. The
Dafny modules here model that core and prove what it promises: searches that are exact although they stop early, a
compiler that preserves meaning, a registry that a reader can trust between any two writes, a migration protocol that
survives crashes, and text encodings whose order or equality is what the code relies on.

`dafny verify dfyconfig.toml` checks everything. Each file is one module:

| file | what it models |
|---|---|
| `Common`, `Sorting`, `Text` | errors and options; Python's stable `sorted`; code-point order of strings |
| `PathSearch`, `SearchOrder`, `GraphRepository`, `Topology`, `GraphBuilder` | breadth-first search over simple paths and the order of its answers; the in-memory graph; join paths; the projection of a connection's artifacts with pruning |
| `SearchCondition`, `Plan`, `Sql`, `Compile`, `RowFilters` | SQL search conditions; logical plans, their normalisation and validation; the meaning of a SELECT; the compiler; row filters |
| `Lifecycle`, `ContextRegistry`, `Validation` | the lifecycle of a context record; publication and invalidation write by write; batches of human decisions |
| `Migrations` | processes that start at once, a lock, one transaction per migration, crashes anywhere |
| `EventStream`, `Json` | server-sent event framing and the client's splitter; JSON text |
| `RateLimiter`, `Approvals` | the sliding window; approvals spent by gated executions |
| `Numerals`, `Ids`, `Conversations`, `IsoTime`, `Scheduler`, `SchemaForm` | fixed-width numerals, ordered ids and keyset pagination; ISO timestamps compared as text and the scheduler; the canonical schema form |

## How the model reads the code

* Tables, dictionaries and clocks. A database table or an in-memory dictionary is a map or a list of rows in a class
  that the operations update in place; times are integers (microseconds in the scheduler) or calendar fields, and
  clocks, random characters and new ids are parameters.
* Asynchrony. An operation is atomic unless its writes are listed one by one. `ContextRegistry` lists them: every
  write is appended to a ghost `history`, and each property "between two writes" is about every database in it.
  There is a single writer. `Migrations` is a step relation over any number of processes.
* Plans. A column text is represented by what the code parses out of it (`Star`, a dotted path, or a `DATE_TRUNC` of
  a path with its unit and alias), an `order_by` entry by its text and the position or name parsed out of it. A filter
  is a list of SQL tokens, `having` is an opaque text, and the meaning of a comparison or of a sort text is a parameter,
  so the results hold for every such meaning, three-valued logic included.
* Row order. Both meanings keep rows in the order in which the joins and the grouping produce them; equality of two
  results is equality of lists, and `LIMIT` takes the first rows of what `ORDER BY` produced.

What the code needs of its inputs is a `requires`, or, where the code does not check it, one side of an if-and-only-if:

* `Tenanted`: a relationship and its ends belong to one tenant, which is how the builder writes them. No operation
  needs it; `CreateNode`, `BuildKeepsTenants` and `NotBlocked` say what keeps it and what it gives.
* `PlainCatalog`: no table has a column named `*` or containing `)`.
* `KeysHeld`: every key of an artifact dictionary is the kind of an artifact in it; one side of `Publish`.
* `ColonFree` connection ids, in the lemmas about two connections only: their ids could otherwise coincide.
* `PlainNames`: no name of a connection's items holds `->` and no concept name a colon, where ids of relationships are
  to tell their ends.
* `OwnKey`: no other pair of listed tables has the key of a pair in the table of join paths; one side of `JoinPaths`.

## What the proofs found

* The caps 10 (`memory.py:116`) and 3 (`topology.py:88`) stop the search but do not bound its result: `ManyPaths` and
  `ManyJoinPaths` give, for every n, a graph with n results. The last expansion is all that overshoots: if no node has
  more than m arcs to the goal, a result stays below the cap plus m (`PathsOvershootBounded`,
  `JoinPathsOvershootBounded`), so within the cap for m = 1 (`PathsWithinCap`, `JoinPathsWithinCap`), and for every m
  some graph attains the bound (`OvershootReached`, `JoinOvershootReached`). At depth one the cap holds exactly when
  there are no more arcs than the cap (`DepthOnePathsExactly`, `DepthOneJoinPathsExactly`). What always holds is
  `ExactSearch`: nothing shorter is missing, and nothing at all when the cap was not reached. Which of equally long
  paths the cap keeps follows from the sort key alone (`OrderedSearch`).
* `create_node` lets one tenant take over a node of another; `paths` then raises on a path through it
  (`OverwrittenNodeRaises`). It raises only where a path is `Blocked`, and an answer below the cap means none was.
* `validate_plan` accepts plans whose SQL is not well formed: `sum(*)` (`SumOfStar`) and a join ordered by a bare column
  of both tables (`AmbiguousOrder`). `WellFormedExactly` gives the exact condition on the names in select list, `ON`,
  `GROUP BY` and `ORDER BY`: join tables distinct, each `ON` in scope, the default right column present when `on_right`
  is absent, no bare `DATE_TRUNC` that a joined table makes ambiguous, a non-empty select list, only `count` applied to
  `*`, a filter that is one condition, no alias on a `DATE_TRUNC` outside the select list, every plain column grouped
  once there are groups, and each `ORDER BY` entry a position in the output, the name of one output column, or a name
  in scope (grouped once there are groups).
* With aggregates, a grouped `DATE_TRUNC` column that is spelled differently in `group_by` is dropped from the select
  list (`SpelledDifferently` is such a plan). `KeepsGroupedExactly` says that this is the only way to lose a grouped
  column.
* A row filter on a joined table is dropped (`OtherFilterDropped`), and rows that do not satisfy it are read
  (`JoinedFilterEscaped`). `EnforcedExactly` says when all filters hold whatever they say: when none of the filtered
  tables is joined without being the source, or the node's own filter lets no row pass.
* The keys of the join-path table can collide for table names that contain `->` (`ArrowsCollide`); `PairKeysEqual` says
  exactly when. A pair with a key of its own keeps its paths, and of two pairs that share one and that edges can join,
  one loses its paths for some edges (`SharedKeyLosesPaths`).
* Relationship ids can collide in the same way for column names that contain `->` (`ArrowsShareId`): two foreign keys
  with different ends then share one relationship.
* An artifact dictionary with a key that no artifact in it has as its kind makes `publish` activate a record that lists
  a kind no reader can get (`PublishedReaderSafe`).
* Between the last two writes of `publish` a scope has two ACTIVE records; `active` answers the new one
  (`TwoActiveBetweenWrites`). A publication that parks in PENDING_VALIDATION leaves its scope with no ACTIVE record.
* After `invalidate`, the next version of a scope is 1 again (`InvalidatedRestarts`), so a version is the length of a
  supersession chain and not a global counter.
* The builder prunes nodes, never a relationship between two nodes that stay, and at most 1000 nodes of a label.

## Model

| member | source | states |
|---|---|---|
| `PathSearch.SearchStarts` | src/datahek/context/graph/memory.py:113-115 | the search invariant (queued trails levelled by length, none a prefix of another or of a result, every simple path still reachable through the queue or already found) holds of the initial queue |
| `PathSearch.SearchHead` | src/datahek/context/graph/memory.py:117 | a popped trail was never popped before and lies in the finite set of trails within the depth, so the search ends |
| `PathSearch.SearchDrops` | src/datahek/context/graph/memory.py:118-119 | dropping a trail at the depth limit keeps the invariant: no simple path within the depth is lost |
| `PathSearch.SearchExpands` | src/datahek/context/graph/memory.py:120-137 | expanding a trail over its sorted neighbours keeps the invariant, with the paths that end at the goal moved to the results |
| `PathSearch.SearchEnds` | src/datahek/context/graph/memory.py:116-138 | when the loop stops the results are distinct simple paths in nondecreasing length, none within the depth is missing that is shorter than a returned one, and none at all if the queue ran empty |
| `PathSearch.CapOvershootBounded` | src/datahek/context/graph/memory.py:116-138 | if no node has more than m arcs to the goal, a search that stops at a cap reports fewer than cap + m paths |
| `PathSearch.DepthOneExactly` | src/datahek/context/graph/memory.py:116-138 | a search of depth one reports as many paths as there are arcs from start to goal, whatever the cap |
| `PathSearch.OvershootAttained` | src/datahek/context/graph/memory.py:116-138 | in a graph with n tables between start and goal and one more way there whose last step is m-fold, every search that stops at cap n + 1 reports n + m paths |
| `PathSearch.Adjacency` | src/datahek/context/graph/memory.py:105-112 | each node's list holds both ends of its relationships in order, a loop twice |
| `PathSearch.SortedAdjacencyLists` | src/datahek/context/graph/memory.py:120-121 | the sorted list of a node holds exactly the steps possible from it, each step to another node once |
| `PathSearch.ReversedPath` | src/datahek/context/topology.py:79-80 | a simple path walked backwards is a simple path from its end to its start |
| `SearchOrder.OrderExpands` | src/datahek/context/graph/memory.py:120-137 | over a sorted neighbour list, replacing the popped trail by its extensions keeps queue and results in search order: shorter first, and of equal length first where the step that differs sorts first |
| `SearchOrder.OrderEnds` | src/datahek/context/graph/memory.py:116-138 | when the loop stops the results are in search order, and a path within the depth that is missing would have been found from a trail no earlier than those that the reported ones were found from: which paths the cap keeps is determined up to equal sort texts |
| `GraphRepository.InMemoryGraphRepository.CreateNode` | src/datahek/context/graph/memory.py:17-19 | the node is stored under its id, no relationship dangles because of it, and the exact condition under which an overwrite keeps tenants apart |
| `GraphRepository.InMemoryGraphRepository.UpdateNode` | src/datahek/context/graph/memory.py:21-25 | only a node of the caller's tenant is replaced; otherwise NOT_FOUND and nothing changes |
| `GraphRepository.InMemoryGraphRepository.DeleteNode` | src/datahek/context/graph/memory.py:27-33 | the caller's node goes together with every relationship at it, so none dangles; another tenant's node stays |
| `GraphRepository.InMemoryGraphRepository.GetNode` | src/datahek/context/graph/memory.py:35-39 | a node is visible to its own tenant only |
| `GraphRepository.InMemoryGraphRepository.FindNodes` | src/datahek/context/graph/memory.py:41-50 | the nodes with this tenant, label and property values in strict id order, and an omitted one comes after every returned one in a full page |
| `GraphRepository.InMemoryGraphRepository.CreateRelationship` | src/datahek/context/graph/memory.py:52-61 | refused exactly for an unknown type or an end the caller does not own; otherwise it replaces what had its id, and dangling-freedom and tenancy stay |
| `GraphRepository.InMemoryGraphRepository.DeleteRelationship` | src/datahek/context/graph/memory.py:63-66 | exactly the caller's relationship with that id goes |
| `GraphRepository.PutRelPlace` | src/datahek/context/graph/memory.py:60 | a stored relationship takes the place of the one with its id |
| `GraphRepository.ArcExactly` | src/datahek/context/graph/memory.py:105-112 | an arc of the searched graph is a stored relationship of the caller's tenant, of one of the named types if any are named, taken either way |
| `GraphRepository.ReachableWalked` | src/datahek/context/graph/memory.py:75-94 | what a caller can reach is what a walk over the relationships it may use leads to |
| `GraphRepository.BallExact` | src/datahek/context/graph/memory.py:75-94 | growing a ball by whole rounds reaches exactly the nodes at the end of some trail of at most that many steps |
| `GraphRepository.FrontierAdvances` | src/datahek/context/graph/memory.py:78-94 | although the `elif` skips the reverse direction and frontiers revisit nodes, the ball grown by the next frontier is the ball of one more round |
| `GraphRepository.InMemoryGraphRepository.Round` | src/datahek/context/graph/memory.py:78-87 | one pass over the relationships computes the next frontier of the `elif` rule |
| `GraphRepository.InMemoryGraphRepository.Neighbors` | src/datahek/context/graph/memory.py:68-95 | exactly the caller's nodes other than the start to which a walk of at most max(1, depth) steps leads over relationships of the caller's tenant and, if a type is given, of that type, either way, in strict id order; error exactly on an unknown type |
| `GraphRepository.InMemoryGraphRepository.Chain` | src/datahek/context/graph/memory.py:126-132 | the walk over a path's relationships is looked up node by node: it fails exactly when it leaves a node the caller does not see, and otherwise answers what the caller sees at every node |
| `GraphRepository.InMemoryGraphRepository.Expand` | src/datahek/context/graph/memory.py:120-137 | the inner loop appends to queue and results exactly what the trail search does, and fails only at a simple path within the depth that goes through a node of another tenant |
| `GraphRepository.InMemoryGraphRepository.Paths` | src/datahek/context/graph/memory.py:97-138 | on any graph `paths` terminates; it raises only if some simple path within the depth goes through a node the caller does not own; otherwise its answer is exact: distinct simple paths within the depth in nondecreasing length, none shorter than a returned one omitted, all of them when fewer than ten, and the last ones are all the extensions of one trail; they come in the order of neighbour id and relationship id, as do those the cap leaves out; every relationship on them is the caller's and of one of the types asked for; nodes and length of each agree with its relationships |
| `GraphRepository.CompleteUnblocked` | src/datahek/context/graph/memory.py:116-138 | an answer of fewer than ten paths means that no path within the depth goes through a foreign node |
| `GraphRepository.TenantedThrough` | src/datahek/context/graph/memory.py:97-138 | where relationships stay inside one tenant every node of every path is the caller's, so `paths` never raises |
| `GraphRepository.OverwrittenNodeRaises` | src/datahek/context/graph/memory.py:17-19 | a node between two others is taken over by `create_node` of another tenant, and `paths` over it raises |
| `GraphRepository.PathsWithinCap` | src/datahek/context/graph/memory.py:116 | the answer has at most ten paths if no node has two usable relationships to the goal |
| `GraphRepository.PathsOvershootBounded` | src/datahek/context/graph/memory.py:116 | the answer has fewer than 10 + m paths if no node has more than m relationships to the goal |
| `GraphRepository.DepthOnePathsExactly` | src/datahek/context/graph/memory.py:116 | at depth one the answer has one path for each relationship between the ends, so the cap holds if and only if there are at most ten |
| `GraphRepository.ManyPaths` | src/datahek/context/graph/memory.py:116 | for every n some graph makes `paths` answer n paths, eleven for one |
| `GraphRepository.OvershootReached` | src/datahek/context/graph/memory.py:116 | for every m > 0 a graph in which no node has more than m relationships to the goal makes `paths` answer 9 + m paths: the bound is attained, and with two relationships at one node the cap can be passed |
| `Topology.FindPaths` | src/datahek/context/topology.py:82-102 | the join paths found are exact in the same sense, as lists of edge references without repetition, the last ones extend one list, and they come in the order of the references |
| `Topology.JoinPaths` | src/datahek/context/topology.py:73-112 | every key of the table is `start->goal` of two different listed tables and holds an exact search of such a pair, at most three paths but for the last expansion, in the order of the edge references; under every key that no other pair of listed tables shares there is exactly the search of its pair, and no entry if it found nothing |
| `Topology.JoinPathExactly` | src/datahek/context/topology.py:69-102 | a join path is a list of `left=right` texts along different tables, each text that of an edge between two neighbours, where the table of a reference is its text before the first dot |
| `Topology.PairKeysEqual` | src/datahek/context/topology.py:104-112 | two pairs have one key text if and only if they are equal or one's first or second table splits at an arrow into the other's |
| `Topology.PairKeysDiffer` | src/datahek/context/topology.py:104-112 | the key texts of two pairs differ if their first tables have no `->` in their names |
| `Topology.SharedKeyLosesPaths` | src/datahek/context/topology.py:104-112 | whenever two pairs of listed tables that edges can join share a key, some edges make the table of paths wrong for one of them |
| `Topology.JoinPathsWithinCap` | src/datahek/context/topology.py:88-102 | a pair has at most three join paths if edges between any one table and the goal share one text |
| `Topology.JoinPathsOvershootBounded` | src/datahek/context/topology.py:88-102 | fewer than 3 + m join paths are found if no table has more than m different edge texts to the goal |
| `Topology.DepthOneJoinPathsExactly` | src/datahek/context/topology.py:88-102 | at depth one there is one join path for each different edge text, so the cap holds if and only if there are at most three |
| `Topology.ManyJoinPaths` | src/datahek/context/topology.py:88-102 | for every n some edges make the search find n join paths |
| `Topology.JoinOvershootReached` | src/datahek/context/topology.py:88-102 | for every m > 0 some edges, of which no table has more than m differently written ones to the goal, make the search find 2 + m join paths: the bound is attained |
| `Topology.ReversedJoinPath` | src/datahek/context/topology.py:79-80 | the reversal of a join path is a join path of the reversed pair |
| `Topology.JoinPathsSymmetric` | src/datahek/context/topology.py:104-112 | for two tables whose keys no other pair shares: the pair has an entry iff its reverse has, shortest lengths agree, one side holds fewer than three iff the other does, and then both hold every join path and are each other's reversals |
| `GraphBuilder.Draft` | src/datahek/context/graph/builder.py:60-201 | the drafted relationships are exactly those that the artifacts call for, with type, ends, id and details, and as many as they call for, repetitions included; under each drafted id there is a node that they call for, with label, connection and name |
| `GraphBuilder.DraftTables` | src/datahek/context/graph/builder.py:82-145 | the connection, table and column part of the projection |
| `GraphBuilder.DraftEdges` | src/datahek/context/graph/builder.py:147-158 | a join edge is drafted exactly when both its columns are known and differ; as the set of `EdgeRel`, whose type and ends `EdgeRelsExactly` states |
| `GraphBuilder.EdgeRelsExactly` | src/datahek/context/graph/builder.py:147-158 | a relationship is drafted for an edge exactly when it leads from the left to the right column of an edge with two known, different columns, with type REFERENCES for a foreign key and JOINS_WITH otherwise |
| `GraphBuilder.DraftMetrics` | src/datahek/context/graph/builder.py:160-173 | a metric is drafted exactly when its table is known, whatever the grouping by table |
| `GraphBuilder.DraftConcepts` | src/datahek/context/graph/builder.py:175-191 | concepts and their links to known tables |
| `GraphBuilder.DraftLinks` | src/datahek/context/graph/builder.py:192-201 | a link between concepts is drafted exactly when both its ends are concepts |
| `GraphBuilder.ProjectionExactly` | src/datahek/context/graph/builder.py:82-201 | the sets of nodes and relationships that a draft is compared with, item by item: type or label, ends, name and id of what stands for the connection, a table, column, metric, concept, edge or link |
| `GraphBuilder.ProjectedRelsJoin` | src/datahek/context/graph/builder.py:82-201 | every projected relationship has a known type, the caller's tenant and both ends among the projected nodes, so no write is refused |
| `GraphBuilder.WriteNodes` | src/datahek/context/graph/builder.py:203-204 | whatever the graph holds, its nodes become the old ones overlaid with the drafts |
| `GraphBuilder.WriteRels` | src/datahek/context/graph/builder.py:205-206 | no relationship write fails, and the new list holds drafted relationships and the old ones whose id was not drafted |
| `GraphBuilder.PruneLabel` | src/datahek/context/graph/builder.py:208-215 | of one label only unprojected nodes of this connection go, at most 1000, with their relationships; all of them do within that limit |
| `GraphBuilder.Prune` | src/datahek/context/graph/builder.py:208-215 | the same over all labels, with the count of removed nodes |
| `GraphBuilder.Build` | src/datahek/context/graph/builder.py:44-220 | over any graph the build never fails; each node and relationship that the artifacts call for is there afterwards with its label or type, its ends and its name, every other one was there before, stays unless it is pruned, and pruned nodes take their relationships along; within the prune limit the connection's nodes become exactly the projection, a build over a converged graph prunes nothing and adds no id, and the report counts nodes, relationships and pruned nodes |
| `GraphBuilder.WrittenExactly` | src/datahek/context/graph/builder.py:203-206 | on the graph after a build: among the relationships it writes, one of a type leads from one node to another if and only if the artifacts call for it; names hold no `->` and concept names no colon, as the ids tell the ends only then |
| `GraphBuilder.EdgesWritten` | src/datahek/context/graph/builder.py:147-158 | in particular a REFERENCES leads from column l to column r if and only if some edge of kind "fk" has these ends, both known and different, and a JOINS_WITH if and only if some edge of another kind has them |
| `GraphBuilder.ArrowsShareId` | src/datahek/context/graph/builder.py:155 | with an arrow in a column name two foreign keys with different ends share one relationship id |
| `GraphBuilder.BuildKeepsIntegrity` | src/datahek/context/graph/builder.py:203-215 | a build leaves no dangling relationship in a graph that had none |
| `GraphBuilder.BuildKeepsTenants` | src/datahek/context/graph/builder.py:203-215 | a build keeps tenants apart if and only if, before it, no relationship of another tenant whose id it does not write ends at a node it writes |
| `GraphBuilder.ConvergedStays` | src/datahek/context/graph/builder.py:203-215 | a rebuild of a converged graph keeps the sets of node ids and relationship ids |
| `GraphBuilder.BuildConverges` | src/datahek/context/graph/builder.py:203-215 | writes and prune together reach the converged state |
| `GraphBuilder.OtherConnectionsUntouched` | src/datahek/context/graph/builder.py:60-220 | a build leaves every node of another connection as it was: no node id it writes or prunes is one of theirs |
| `GraphBuilder.OtherRelationshipsUntouched` | src/datahek/context/graph/builder.py:60-220 | a relationship that a build for another connection makes between nodes of that connection is in the graph after the build iff it was before |
| `GraphBuilder.RelIdsApart` | src/datahek/context/graph/builder.py:60-201 | relationships projected for two connections never share an id: the id of each tells its connection |
| `SearchCondition.ParenthesizedOperand` | src/datahek/engine/executor.py:35-37 | under the precedence of section 8.12 of SQL-92, a parenthesized condition is one operand with its own meaning, whatever follows, a top-level OR inside included |
| `SearchCondition.Precedence` | src/datahek/engine/executor.py:35-37 | OR binds weaker than AND on either side of it, and NOT stronger than both |
| `SearchCondition.WrittenParses` | src/datahek/engine/executor.py:35-37 | every condition is what its text, every operand in parentheses, parses as |
| `SearchCondition.ThreeValued` | src/datahek/engine/executor.py:35-37 | AND takes the lesser truth value, OR the greater, NOT turns the order false, unknown, true round |
| `Plan.NormalizeJoinRefs` | src/datahek/engine/planner.py:153-186 | in every read node with joins each column, grouping entry and aggregate argument is rewritten and nothing else is; every other node passes unchanged |
| `Plan.ValidateNode` | src/datahek/engine/plan.py:192-348 | the nested loops accept a node exactly when each of the listed conditions holds |
| `Plan.KnownExactly` | src/datahek/engine/plan.py:203-237 | a reference is known exactly when it is `*`, a column of the table it is bare in, or a dotted column of the source or a joined table, a DATE_TRUNC only if the dialect is unknown or one of three |
| `Plan.JoinableExactly` | src/datahek/engine/plan.py:258-268 | two columns may be joined unless both types are known, differ in family, and neither is of no family |
| `Plan.FunctionsExactly` | src/datahek/engine/plan.py:145-152 | six aggregate functions pass in every dialect, `uniq` in all but four |
| `Plan.OrderExactly` | src/datahek/engine/plan.py:296-311 | an ORDER BY name is an aggregate's alias, the last part of a selected column, the alias of a selected bucket, or ends in a column of the source; positions and buckets always pass |
| `Plan.SameRefExactly` | src/datahek/engine/plan.py:32-38 | plain references are the same when their last parts are, buckets when unit and path are |
| `Plan.ValidatePlan` | src/datahek/engine/plan.py:170-348 | a plan is accepted exactly when it has nodes and each read node is valid |
| `Compile.CompileSql` | src/datahek/engine/compile.py:26-72 | the grown statement is the specified translation of the first node, with the two error cases; its limit is the node's limit, and 10 where that is absent or 0 |
| `Compile.ColumnResolves` | src/datahek/engine/compile.py:17-23 | a qualified plain column resolves under SQL name resolution exactly when the plan knows it, and to the base table when it was bare |
| `Compile.BucketResolves` | src/datahek/engine/compile.py:17-23 | a DATE_TRUNC keeps its inner name, which resolves exactly when no joined table shares it |
| `Compile.SideResolves` | src/datahek/engine/compile.py:54-59 | a join operand resolves exactly when it is in scope at its ON clause, and to the column the plan means |
| `Compile.SideUnresolved` | src/datahek/engine/compile.py:54-59 | a star or a bare DATE_TRUNC as a join operand compiles to a name no table has |
| `Compile.JoinResolves` | src/datahek/engine/compile.py:54-59 | an ON clause is well formed exactly under the stated scope condition |
| `Compile.DefaultRightResolves` | src/datahek/engine/compile.py:57-58 | a missing right side is well formed exactly when the joined table has a column named like the last part of the left side |
| `Compile.ItemsNamed` | src/datahek/engine/compile.py:38-50 | every select item names a column exactly when the staying columns do and only count is applied to a star |
| `Compile.GroupedItems` | src/datahek/engine/compile.py:38-65 | each plain item equals a grouping expression exactly when its column denotes a grouped one |
| `Compile.WellFormedExactly` | src/datahek/engine/compile.py:26-72 | a validated node compiles to a statement whose names in select list, ON, GROUP BY and ORDER BY are neither unknown nor ambiguous and which groups properly if and only if it is Compilable |
| `Compile.OrderResolves` | src/datahek/engine/compile.py:68-69 | an ORDER BY entry, written as it stands, resolves (positions, then output names, then names in scope) exactly when it is in scope by the plan |
| `Compile.CompiledWidth` | src/datahek/engine/compile.py:38-52 | the number of output columns, and of those with a given name, read off the plan: what positions and output names in ORDER BY are resolved against |
| `Compile.SumOfStar` | src/datahek/engine/plan.py:324-347 | `sum(*)` is a node that validation accepts and that compiles to ill-formed SQL |
| `Compile.AmbiguousOrder` | src/datahek/engine/plan.py:302-311 | ordering a join by a bare column of both tables passes validation and compiles to ill-formed SQL; without that entry the node compiles well |
| `Compile.KeepsGroupedExactly` | src/datahek/engine/compile.py:38-44 | under aggregates no grouped select column is lost if and only if every grouped DATE_TRUNC column is spelled in group_by as in the select list |
| `Compile.SpelledDifferently` | src/datahek/engine/compile.py:39-43 | a valid node that compiles well and loses one of its grouped columns, because `group_by` spells the bucket differently |
| `Compile.JoinsMean` | src/datahek/engine/compile.py:54-59 | the FROM clause up to any join yields the rows of the plan's joins |
| `Compile.SelectListMeans` | src/datahek/engine/compile.py:38-50 | the compiled select list computes from a group of rows what the plan's kept columns and aggregates do |
| `Compile.CompilationPreservesMeaning` | src/datahek/engine/compile.py:17-72 | for every database and meaning of predicates, a Compilable node whose buckets are spelled alike compiles to a well-formed statement that yields the rows of the plan's own semantics, in which bare names mean the base table: the first k of what ORDER BY produced for a limit of k, ten for no limit or 0, all when there are no more; predicates and the meaning of order keys are parameters |
| `Sql.PassesTest` | src/datahek/engine/compile.py:61-62 | a row passes a WHERE test only when the test is true of it, not when it is unknown |
| `Sql.JoinRowsExactly` | src/datahek/engine/compile.py:54-59 | a joined row meets the ON condition, or is a row of a LEFT JOIN without a partner, filled up with nulls |
| `Sql.NullJoinsNothing` | src/datahek/engine/compile.py:54-59 | the equality of an ON clause holds only of two cells with the same value, never of null |
| `Sql.GroupsExactly` | src/datahek/engine/compile.py:63-65 | each group is all rows with one grouping key, in their order; different groups have different keys and every row has a group |
| `Sql.OneColumnSelected` | src/datahek/engine/compile.py:52 | reading one column of one table gives its cells, row by row, up to the limit |
| `Sql.AggregateYieldsOneRow` | src/datahek/engine/compile.py:45-50 | an aggregate without GROUP BY yields one row, of an empty table too |
| `Sql.EmptyHaving` | src/datahek/engine/compile.py:66-67 | an empty HAVING filters nothing |
| `Compile.NormalizedDenotes` | src/datahek/engine/planner.py:164-172 | a bare name is rewritten to the column that SQL resolution over the joined tables finds, the base table winning; an ambiguous or unknown name is left for validation to refuse |
| `Compile.NormalizeTwice` | src/datahek/engine/planner.py:153-186 | normalising a reference again changes nothing |
| `RowFilters.ApplyRowFilters` | src/datahek/engine/executor.py:21-39 | the rebuilt plan is the specified one, node by node |
| `RowFilters.NarrowedParses` | src/datahek/engine/executor.py:34-37 | the built WHERE text parses as the conjunction of the old filter and all matching predicates, each one operand even with a top-level OR |
| `RowFilters.NarrowedPasses` | src/datahek/engine/executor.py:34-37 | a row passes the built filter iff it passes the old one and every matching predicate |
| `RowFilters.FilteredRows` | src/datahek/engine/executor.py:21-39 | the rows a filtered plan reads are those of the old plan that every matching predicate allows |
| `RowFilters.FiltersEnforced` | src/datahek/engine/executor.py:21-39 | if no filter names a joined table other than the source, or the node's own filter lets no row pass, every row that passes the built filter satisfies every filter on a table the node reads |
| `RowFilters.OtherFilterDropped` | src/datahek/engine/executor.py:28-33 | a filter on another table than the source, a joined one included, changes nothing, whatever filters stand before and after it |
| `RowFilters.JoinedFilterEscaped` | src/datahek/engine/executor.py:28-33 | for any list of filtered tables with a joined one among them there are filters on them, a row and a meaning such that the row passes the built filter and not the joined table's filter |
| `RowFilters.EnforcedExactly` | src/datahek/engine/executor.py:21-39 | row filters on a list of tables are enforced, whatever they say, if and only if none of the tables is joined without being the source, or the node's own filter lets no row pass |
| `RowFilters.FiltersCompose` | src/datahek/engine/executor.py:21-39 | applying two lists of filters in sequence keeps the same rows as applying their concatenation |
| `ContextRegistry.HistoryGrows` | src/datahek/defaults/context_store.py:123-136 | a write that is reader-safe, freezes published artifacts and follows the lifecycle extends a safe history |
| `ContextRegistry.ContextRegistryService.ActiveRecord` | src/datahek/defaults/context_store.py:113-121 | the answer is an ACTIVE record of the scope with the highest version, or none exactly when there is none |
| `ContextRegistry.ContextRegistryService.IsCurrent` | src/datahek/context/registry.py:83-86 | current iff the scope's ACTIVE record has that schema hash |
| `ContextRegistry.ContextRegistryService.ActiveArtifact` | src/datahek/context/registry.py:97-102 | the artifact of the ACTIVE record, present for each of its listed kinds, and none when the scope is not served |
| `ContextRegistry.ContextRegistryService.RegisterAndStore` | src/datahek/context/registry.py:72-74 | registering the record and storing its artifacts write by write keeps every intermediate database safe for readers and a served scope served |
| `ContextRegistry.ContextRegistryService.Publish` | src/datahek/context/registry.py:39-81 | publication never fails; if validation is required and some artifact has LLM provenance the new record is PENDING_VALIDATION and the scope has no ACTIVE one, in every other case it is the scope's ACTIVE one; it follows the record that was ACTIVE by one version and supersedes it, or is version 1, carries the given schema hash and notes, lists the dictionary's keys in order and holds the last artifact of each kind, and all other records are as before; and a served scope was served at every point if it activates; the registry stays valid if and only if every key of the artifact dictionary is the kind of an artifact in it, and its history stays safe if and only if that holds or the record parks |
| `ContextRegistry.ContextRegistryService.Invalidate` | src/datahek/defaults/context_store.py:138-156 | exactly the connection's ACTIVE and PENDING_VALIDATION records become STALE, counted, with the first 200 characters of the reason as note unless it is empty; nothing else changes, and every change is a legal edge |
| `ContextRegistry.MidwaySafe` | src/datahek/context/registry.py:72-75 | while a record is registered, filled and activated (keyed by its artifacts' kinds if it is activated), any record `active` may return has all its kinds stored; published artifacts never change |
| `ContextRegistry.TwoActiveBetweenWrites` | src/datahek/context/registry.py:75-80 | before the old record is superseded both are ACTIVE, and the answer is the new one |
| `ContextRegistry.MidwayLegal` | src/datahek/context/lifecycle.py:5-24 | the writes of a publication up to its activation follow edges of the lifecycle table |
| `ContextRegistry.MarkedStaleLegal` | src/datahek/context/lifecycle.py:5-24 | marking an invalidatable record STALE follows an edge and changes no published artifact |
| `Lifecycle.ReachedFrom` | src/datahek/context/lifecycle.py:5-24 | the lifecycle table read backwards: from which states each state is reached; nothing leaves SUPERSEDED |
| `ContextRegistry.WritesExactly` | src/datahek/defaults/context_store.py:74-212 | registering another tenant's record, changing the state of an unknown or foreign record or against the lifecycle, and storing an artifact for such a record are refused; what each write changes otherwise |
| `ContextRegistry.NewRecordComplete` | src/datahek/context/registry.py:61-74 | the new record has an artifact for each of its kinds if and only if every key of the dictionary is the kind of an artifact in it |
| `ContextRegistry.PublishedReaderSafe` | src/datahek/context/registry.py:72-80 | what is published is safe to read if and only if it parks or its dictionary is so keyed |
| `ContextRegistry.PublishedConsistent` | src/datahek/context/registry.py:43-81 | a finished publication restores the registry invariant (one ACTIVE record per scope, injective supersession, SUPERSEDED iff superseded, artifacts complete and filed under their kind) if and only if every dictionary key is the kind of an artifact in it |
| `ContextRegistry.PublishedInjective` | src/datahek/context/registry.py:53-71 | the new record supersedes exactly the record that was ACTIVE, which nothing superseded before |
| `ContextRegistry.PublishedSuperseded` | src/datahek/context/registry.py:77-80 | a record is SUPERSEDED iff some record supersedes it |
| `ContextRegistry.PublishedFrozen` | src/datahek/context/registry.py:77-80 | the last write follows a lifecycle edge and leaves all published artifacts as they were |
| `ContextRegistry.PreviousSuperseded` | src/datahek/context/registry.py:77-80 | the internal change of state to SUPERSEDED is legal and cannot fail |
| `ContextRegistry.TargetIsMidway` | src/datahek/context/registry.py:75 | the internal change of state to ACTIVE or PENDING_VALIDATION is legal and cannot fail |
| `ContextRegistry.VersionIsChainLength` | src/datahek/context/registry.py:43-68 | a record's version is the length of its chain down to a version-1 root |
| `ContextRegistry.SupersessionAcyclic` | src/datahek/context/registry.py:43-68 | along any chain of supersession versions strictly fall, so it never returns |
| `ContextRegistry.InvalidatedConsistent` | src/datahek/defaults/context_store.py:138-156 | invalidation, stopped after any number of its records, keeps the registry invariant |
| `ContextRegistry.InvalidatedRestarts` | src/datahek/defaults/context_store.py:138-156 | after invalidation no scope of the connection has an ACTIVE record and the next publication is version 1 |
| `ContextValidation.ApplyAllSlots` | src/datahek/context/validation.py:177-198 | a batch succeeds exactly when every decision addresses an existing item; it keeps the shape, touches only addressed items and leaves each of those decided |
| `ContextValidation.ApplyAllRevises` | src/datahek/context/validation.py:177-198 | in a batch with distinct addresses each item ends as its own decision makes it; what that is `RevisedExactly` states |
| `ContextValidation.RevisedExactly` | src/datahek/context/validation.py:187-196 | an approved item is APPROVED and HUMAN_VALIDATED with label and fields as before; an edited one EDITED and HUMAN_VALIDATED with each patched field holding its patch and every other as before; a rejected one REJECTED with provenance, label and fields as before |
| `ContextValidation.BatchDecides` | src/datahek/context/validation.py:133-134 | so at distinct addresses every addressed item is, every other item is as it was, and nothing else of the artifacts changes |
| `ContextValidation.AcceptableExactly` | src/datahek/context/validation.py:152-175 | a decision passes exactly with one of three actions on a reviewable section, an edit with a patch of fields that may be edited there |
| `ContextValidation.AddressExactly` | src/datahek/context/validation.py:179 | without a section a decision addresses the first one of its kind |
| `ContextValidation.BatchOrderIrrelevant` | src/datahek/context/validation.py:112-150 | decisions at distinct addresses commute: any order succeeds or fails alike, with the same artifacts |
| `ContextValidation.BatchShrinksPending` | src/datahek/context/validation.py:84-150 | the pending list after a batch is the old one without exactly the addressed items, and strictly shorter if one of them was pending |
| `ContextValidation.ListPending` | src/datahek/context/validation.py:72-110 | the items listed are the pending ones of the reviewable sections of the ACTIVE record's artifacts, with address, label and provenance, in order; none for an unserved scope |
| `ContextValidation.ApplyInTurn` | src/datahek/context/validation.py:133-134 | decisions are folded in order and the first failing one decides the error |
| `ContextValidation.CheckDecisions` | src/datahek/context/validation.py:117-118 | a batch is checked as a whole before anything is changed |
| `ContextValidation.Apply` | src/datahek/context/validation.py:112-150 | succeeds exactly on reviewable batches; otherwise registry and history are unchanged; on success the next version is ACTIVE with the old schema hash, its items at distinct addresses are approved, edited or rejected as decided and all others as before, and its pending list is the old one minus the addressed items |
| `Migrations.PendingAfterCommit` | src/datahek/defaults/pg.py:105-107 | committing the first pending migration leaves exactly the rest pending |
| `Migrations.StepKeepsInv` | src/datahek/defaults/pg.py:120-138 | every step of any process, a crash included, keeps mutual exclusion, the exactness of the lock holder's list and a log that only grows |
| `Migrations.MigrationSafety` | src/datahek/defaults/pg.py:120-138 | in every run at most one process is inside the lock, each migration commits at most once, and a process that returned left all migrations committed |
| `Migrations.LogStaysPrefix` | src/datahek/defaults/pg.py:105-138 | from a committed prefix of the list, the committed list stays a prefix of it in every run |
| `Migrations.NeverStuck` | src/datahek/defaults/pg.py:120-138 | while some process is unfinished, some process can make a step that is neither a start nor a failure |
| `EventStream.SplitCarries` | apps/web/src/api/client.ts:132-134 | splitting a text piecewise with a carried remainder gives the parts and remainder of splitting it whole |
| `EventStream.SplitExactly` | apps/web/src/api/client.ts:132-134 | parts, delimiters and remainder make up the text, no delimiter is left in the remainder or in a part, and none begins at the last character of a part |
| `EventStream.PayloadExactly` | apps/web/src/api/client.ts:136-138 | the payload is that of the first line that starts with `data: `, wherever it stands in the part |
| `EventStream.UnreadPart` | apps/web/src/api/client.ts:137-143 | a part without a payload, or with one that does not parse, yields no event |
| `EventStream.StreamAsk` | apps/web/src/api/client.ts:125-146 | the loop yields what the concatenation of all chunks holds, however it was cut |
| `EventStream.FramesSplit` | src/datahek/api/app.py:1280-1281 | a sequence of frames splits into exactly their payloads, with an unfinished frame as the remainder |
| `EventStream.CutFrame` | apps/web/src/api/client.ts:132-134 | a frame cut anywhere, inside its delimiter too, shows no delimiter yet |
| `EventStream.StreamRoundTrip` | apps/web/src/api/client.ts:125-146 | under any chunking, and any cut of a following frame, the client yields exactly the events sent, in order |
| `EventStream.JsonStreamRoundTrip` | src/datahek/api/app.py:1280-1281 | the same with the JSON text the server writes, which never holds a line break, and a reader of JSON text on the client's side |
| `Json.ReadPut` | src/datahek/context/hashing.py:32 | a recursive-descent reader reads back every written value and leaves exactly the text after it |
| `Json.ParseDumps` | src/datahek/context/hashing.py:32 | reading the text of a value, with either pair of separators, gives the value |
| `Json.PutUnique` | src/datahek/context/hashing.py:32 | a JSON value followed by a delimiter is determined by the text, and so is what follows |
| `Json.DumpsInjective` | src/datahek/context/hashing.py:32 | two values have the same text iff they are equal |
| `Json.PutPrintable` | src/datahek/api/app.py:1280-1281 | whatever characters its strings have, a value's text is printable ASCII |
| `Json.Separators` | src/datahek/api/app.py:1280-1281 | items and fields are separated by a comma and a blank, keys and values by a colon and a blank |
| `Json.CompactSeparators` | src/datahek/context/hashing.py:32 | compactly both blanks are left out |
| `Json.ShortEscapes` | src/datahek/api/app.py:1280-1281 | quotes, backslashes and the control characters that have one are written with a short escape |
| `RateLimiter.WindowBoundExactly` | src/datahek/defaults/rate_limit.py:13-21 | every closed window holds at most limit admissions iff no limit + 1 consecutive ones fit into one |
| `RateLimiter.LocalRateLimiter.Allow` | src/datahek/defaults/rate_limit.py:13-21 | admits iff fewer than limit admissions of the key's whole history lie in the closed window ending now, refuses only at exactly limit, although old hits are forgotten |
| `RateLimiter.LocalRateLimiter.Reset` | src/datahek/defaults/rate_limit.py:23-27 | a reset key, or every key when none is named, loses its history; other keys keep theirs |
| `RateLimiter.RecentCount` | src/datahek/defaults/rate_limit.py:16-18 | once old hits are dropped the bucket's size is the count over the whole history, at most limit |
| `RateLimiter.AdmissionsBounded` | src/datahek/engine/guardrails.py:119-127 | in every reachable limiter every window of a key's history holds at most limit admissions |
| `Approvals.LocalApprovalService.RequestApproval` | src/datahek/defaults/approvals.py:13-24 | a request starts pending and grants nothing |
| `Approvals.LocalApprovalService.Decide` | src/datahek/defaults/approvals.py:26-34 | an unknown id or decision changes nothing; an approve decision adds one grant |
| `Approvals.LocalApprovalService.Consume` | src/datahek/defaults/approvals.py:43-49 | spends exactly an approved request, and never more than was granted |
| `Approvals.Engine.Execute` | src/datahek/engine/executor.py:181-219 | a gated plan reaches the provider iff an approved id was given, which it spends; the error and new request of every other case |
| `Approvals.ApprovalsConserved` | src/datahek/engine/executor.py:181-219 | over every list of requests, decisions, spendings and executions performed in turn, the gated executions that reached the provider with an id never exceed the approve decisions on it |
| `Numerals.NumeralOrdered` | src/datahek/kernel/ids.py:33 | fixed-width numerals are ordered as text like their numbers, whatever follows them |
| `Numerals.DigitsWritten` | src/datahek/kernel/ids.py:33 | digits are the decimal ones, then small letters |
| `Ids.IdSource.NewId` | src/datahek/kernel/ids.py:26-33 | each id is after all earlier ones whose timestamp has as many digits, even if the clock goes back: after all of them while sixteen digits suffice |
| `Ids.IdSource.EntityId` | src/datahek/kernel/ids.py:36-38 | ids with one prefix keep that order while sixteen digits suffice |
| `Ids.SeventeenDigitsBreakOrder` | src/datahek/kernel/ids.py:33 | the first timestamp of seventeen digits comes before the last one of sixteen |
| `Conversations.ConversationStore.Create` | src/datahek/defaults/conversations.py:61-67 | a taken id is refused and changes nothing |
| `Conversations.ConversationStore.List` | src/datahek/defaults/conversations.py:110-124 | a page holds the next visible ids after the cursor, and a cursor comes with it exactly when some are left |
| `Conversations.PaginationExact` | src/datahek/defaults/conversations.py:110-124 | following the cursor lists every conversation that existed at the start exactly once and in order, although others are created between pages, and those too if ids are issued in order |
| `Conversations.CreateIssued` | src/datahek/api/app.py:1375-1376 | a conversation is created under a fresh issued id, later as text than the ids of all others while sixteen digits suffice |
| `Conversations.BrowseWhileCreating` | src/datahek/defaults/conversations.py:110-124 | reading the list page by page to its end, with any batches of conversations created under issued ids between the pages, yields exactly the visible conversations of the table as it is at the end, once and in order |
| `IsoTime.IsoOrderIsTimeOrder` | src/datahek/defaults/scheduler.py:22-23 | two UTC timestamps are ordered as ISO text like their instants, also when one omits a zero microsecond part |
| `IsoTime.InstantRoundTrip` | src/datahek/defaults/scheduler.py:27 | the calendar fields computed for an instant denote it, and are proper iff it is before year 10000 |
| `IsoTime.FieldsRoundTrip` | src/datahek/defaults/scheduler.py:27 | proper calendar fields are recovered from their instant |
| `IsoTime.DaysBeforeYearClosed` | src/datahek/defaults/scheduler.py:27 | the days before a year are the Gregorian count in closed form |
| `IsoTime.MonthTable` | src/datahek/defaults/scheduler.py:27 | the days before each month are those of the calendar, one more after February of a leap year |
| `IsoTime.IsoFlat` | src/datahek/defaults/scheduler.py:22-23 | the text is YYYY-MM-DDTHH:MM:SS, six digits of microseconds unless they are zero, and +00:00 |
| `Scheduler.SavedQueryStore.CreateSchedule` | src/datahek/defaults/saved_queries.py:113-125 | the first run is due an interval after now, with no lower bound on the interval; a time that is no date raises and a taken id is refused, and then nothing changes |
| `Scheduler.SavedQueryStore.DeleteSchedule` | src/datahek/defaults/saved_queries.py:149-156 | only the tenant's schedule goes, others keep their times |
| `Scheduler.SavedQueryStore.DueSchedules` | src/datahek/defaults/saved_queries.py:158-168 | the enabled schedules whose text is at most now's, each once, in text order |
| `Scheduler.SavedQueryStore.Tick` | src/datahek/defaults/scheduler.py:20-30 | exactly the enabled schedules due in time run, each once; the next run of each is its interval after now, or a second if that is longer, and nothing else changes; it raises if and only if the next run of a due one is no date, having marked only due ones |
| `Scheduler.RunsSpaced` | src/datahek/defaults/scheduler.py:20-30 | over every run of ticks, two runs of a schedule are at least max(interval, 1) seconds apart and a span holds at most its length over that, plus one |
| `Sorting.SortCanonical` | src/datahek/context/hashing.py:15-31 | when the order tells different elements apart, two lists have one sorted form iff one rearranges the other |
| `SchemaForm.TableFormExact` | src/datahek/context/hashing.py:15-31 | tables with one text agree up to the order of their parts; with distinct ordinals, agreeing tables have one text |
| `SchemaForm.FormDeterminesFacts` | src/datahek/context/hashing.py:13-32 | schemas with one form have the same tables up to order and up to what the form ignores, without any assumption |
| `SchemaForm.FormDecidesStructure` | src/datahek/context/hashing.py:13-32 | with distinct table names and ordinals, two forms are equal iff the schemas agree up to order of tables, columns, keys and indexes, case and outer blanks of types, ignoring comments, defaults and row estimates |
| `SchemaForm.FormLaidOut` | src/datahek/context/hashing.py:13-32 | the layout of the text: keys in order, no blanks, a foreign key as the pair of its column and reference |
| `SchemaForm.FactExactly` | src/datahek/context/hashing.py:17-24 | the form keeps of a column its name, nullability and ordinal, and its type but for outer blanks and the case of letters |
| `SchemaForm.NormalTypeExactly` | src/datahek/context/hashing.py:19 | two types have one normal form if and only if they differ only in outer blanks and the case of letters |
| `SchemaForm.TypePaddingIgnored` | src/datahek/context/hashing.py:19 | blanks around a type do not change its normal form |

## Left out

- Concurrent publishers, and a crash inside `publish` or a graph build: the code makes no promise there.
- SHA-256: `IsCurrent` compares hashes, and `FormDecidesStructure` is about the hashed text.
- Floating-point numbers in JSON values: no modelled value holds one.
- JsonStreamRoundTrip: integers beyond 2^53, which the client's `JSON.parse` rounds and the modelled reader does not.
- TypePaddingIgnored: blanks and case are those of ASCII; a type with other Unicode blanks or letters is not covered.
- Tick: the outcome of running a query, its stored status and detail, the run whose marking raises, and the time between the tick's reading of the clock and the marking of a run.
- List: titles and dates of the rows, and the order in which SQLite scans them.
- FindNodes: property values other than text; a node's other fields are one opaque text.
- Draft: the texts of properties and summaries, which are one opaque text per artifact item; and which of two items that share an id is written.
- StreamAsk: UTF-8 decoding; chunks are text.
- CompileSql: the written SQL text; the statement is an abstract syntax tree, so quoting and spacing are not modelled.
- ValidateNode: the regular expressions and type-name hints, whose outcome is part of the parsed plan and of the catalog; and an `ORDER BY` entry that is a `DATE_TRUNC` call with a direction after it.
- WellFormedExactly: names inside `WHERE` and `HAVING` texts, and what functions a dialect has.
- Masking of result columns, result limits of providers, auditing and metrics of `Engine.execute`.
- `infer_join_edges`, quality and freshness scores, profiling, retrieval and prompt composition.
- Postgres, Redis and Neo4j versions of the stores, the HTTP and command-line layers, the model calls and the user interface.
