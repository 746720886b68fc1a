# Wylde: a verified model of its core algorithms

This project models, in Dafny, the parts of the Wylde repository where the
logic is, and proves what they promise over every input, every graph and every
run. `dafny verify dfyconfig.toml` checks all of it.

**Concept hierarchy.** Three flat stores become one id-linked graph
(`Projection`); an authored overlay is folded onto it (`Overlay`); walks read it
(`Traverse`, `CrossWalk`). A containment edge is stored twice, in the parent's
children and in the child's parents, and `Hierarchy.WellFormed` is the invariant
that the view establishes and every later step keeps. Merging rewrites all lists
in place with partial de-duplication; `Merge` proves that this is the quotient
of the graph that identifies the two nodes, `OverlayLaws` that a whole overlay
is one quotient, `DefinitionLaws` whose text each node ends up showing, and
`RecordLaws` what the overlay's records make of each node. `OrderLaws` is about
the order of the lists, on which the primary parent depends.
`Paths` and `LevelOrder` hold what is true of any relation and any level-order
search. Each loop of the source is a method proved equal to a specification
function; the laws are lemmas about that function.

**Calendar.** `Calendar` proves the closed-form conversion of seconds to civil
time equal to counting years and months one by one. `Timestamp` and `Decimal`
carry that over to the printed form (section 5.6 of RFC 3339; the ordering of
timestamps as strings is section 5.1, the leap-year rule Appendix C). `Tracker`
uses the same calendar for documents that expire unless somebody works on them.

**Device gate.** `Devices` and `DeviceGate` are the objects with their methods.
`Gate` is the machine of what each acquisition of a lock makes atomic, so that
its runs are all interleavings of operations of several threads; `GateLaws` and
`RotationLaws` are about every run, and the service object carries the run its
calls have made, so they hold of it. Codes, ids, tokens and clock readings are
arguments of the steps.

**Smaller cores.** `Dedup` (duplicate grouping behind a size filter),
`Supervisor` (extension lifecycle over every sequence of calls) and `Apr1` (the
mixing loops and the tail encoding, with MD5 a parameter).

Rust's `&mut` node tables are owned by one caller at a time; the methods here
take such a table and return the new one.

## What the proofs found

- The overlay documentation (`rust/crates/wylde-concept-hierarchy/src/overlay.rs:261`)
  says that the empty overlay returns the projection unchanged. For an arbitrary
  graph that holds exactly when its leaf flags are already right
  (`EmptyOverlayIsIdentity`); for every projected view they are
  (`ViewIsDeclaredGraph`).
- A cross-reference from a node to itself survives the projection and an
  overlay without merges, and is dropped by the first merge that applies,
  whatever that merge is about (`XrefQuotient` in `OverlayLaws` says when).
- Two overlay records for one id can lose a definition the stores had, since the
  second record no longer sees the inherited text the first displaced.
  `TwoRecordsLoseDefinition` is an input; `RecordsKeepDefinition` is the exact
  condition under which nothing is lost.
- Minted node ids are documented as never reused. The counter has 32 bits, so
  that holds for a run of mints exactly when it has at most 2^32 of them
  (`RunDistinct`). The model wraps, as a release build does; a build with
  overflow checks stops instead.
- Token rotation writes the store and queues its event under different locks.
  If two rotations of one device overlap, the last event can carry the token
  that has just been superseded (`OverlappingRotationsMislead` is such a run).
  `WillAgreeIffConsistent` is the exact condition in any reachable state. For a
  caller about to rotate it comes down to this: every order of what remains ends
  with the right event if and only if no earlier rotation of the device is still
  to be announced (`FreshRotationWillAgree`).
- Enabling an extension whose record is stored as disabled does not start it:
  refreshing the catalog keeps the stored record (`StoredOffStaysDown`).
  `SwitchedOnStaysDisabled` is an input; the exact condition, on the state
  before the call, is in `SetEnabled`.

## Model

| member | source | states |
|---|---|---|
| `OverlayLaws.OverlayIsQuotient` | rust/crates/wylde-concept-hierarchy/src/overlay.rs:262-328 | for every well-formed graph and overlay the applied graph is well formed with correct leaf flags; its nodes are the ids no merge folded away, and its containment and cross-references are exactly the projected plus the authored ones pushed through the in-order fold of the applicable merges, self-loops dropped |
| `OverlayLaws.WithMergesKeeps` | rust/crates/wylde-concept-hierarchy/src/overlay.rs:318-320 | a list of merges, some of them dangling, unresolved or chained, is one quotient of containment, of cross-references and of the set of defined nodes, and keeps well-formedness |
| `OverlayLaws.RepRetracts` | rust/crates/wylde-concept-hierarchy/src/overlay.rs:318-320 | the fold of the merges sends every id to a surviving one and fixes every survivor |
| `OverlayLaws.QuotientStep` | rust/crates/wylde-concept-hierarchy/src/overlay.rs:377-437 | taking one more merge quotients the quotient so far, and does nothing when the merge does not apply to the ids still alive |
| `OverlayLaws.OverlayReachability` | rust/crates/wylde-concept-hierarchy/src/overlay.rs:262-328 | reachability over the whole overlay, exactly: between the nodes that stand for two ids there is a path if and only if projected and authored edges connect the ids, ids merged into one node counting as connected both ways |
| `OverlayLaws.OverlayKeepsReach` | rust/crates/wylde-concept-hierarchy/src/overlay.rs:262-328 | in particular whatever was connected stays connected, whichever ids are asked about |
| `OverlayLaws.LinkedKeeps` | rust/crates/wylde-concept-hierarchy/src/overlay.rs:264-315 | records and authored edges keep the graph well formed and add exactly the new ids and the live, resolved, non-reflexive authored edges |
| `OverlayLaws.WithRecordKeeps` | rust/crates/wylde-concept-hierarchy/src/overlay.rs:264-307 | one record keeps the invariant and every link, and its id is a node afterwards |
| `OverlayLaws.OverrideLadder` | rust/crates/wylde-concept-hierarchy/src/overlay.rs:201-232 | the ladder: an authored text always wins, a draft only fills a gap, an inherited text otherwise stays, and the result is missing exactly when neither is there |
| `OverlayLaws.WithRecordsDefined` | rust/crates/wylde-concept-hierarchy/src/overlay.rs:264-307 | after any list of records a node with records is defined exactly when its last record is usable or its inherited text was never displaced; every other node is as it was |
| `OverlayLaws.RecordsKeepDefinition` | rust/crates/wylde-concept-hierarchy/src/overlay.rs:238-246 | a definition from the stores survives the records exactly when none displaces it or the last record of that id brings a usable text |
| `OverlayLaws.DistinctRecordsKeep` | rust/crates/wylde-concept-hierarchy/src/overlay.rs:238-246 | with one record per id that condition always holds |
| `OverlayLaws.TwoRecordsLoseDefinition` | rust/crates/wylde-concept-hierarchy/src/overlay.rs:281-291 | a concrete overlay with two records for one id leaves a described node without a definition |
| `OverlayLaws.OverlayDefinitions` | rust/crates/wylde-concept-hierarchy/src/overlay.rs:262-437 | the defined nodes of the applied graph are exactly those that stand for a node defined once the records were in: merges lose no definition |
| `DefinitionLaws.MergedDefinition` | rust/crates/wylde-concept-hierarchy/src/overlay.rs:386-396 | one merge: the primary keeps a text of its own and takes the alias's only to fill a gap; no other node's definition changes |
| `DefinitionLaws.MergesDefinition` | rust/crates/wylde-concept-hierarchy/src/overlay.rs:318-320 | over any list of merges a survivor that had a text keeps it, and every survivor shows the definition of some node it stands for |
| `DefinitionLaws.OverlayTexts` | rust/crates/wylde-concept-hierarchy/src/overlay.rs:262-328 | in the applied graph a node that the records left with a text shows exactly that text; any other shows the definition of a node merged into it |
| `RecordLaws.RecordIntroduces` | rust/crates/wylde-concept-hierarchy/src/overlay.rs:281-305 | a record for an unknown id appends exactly one node: authored, without links or embedding, labelled by the override when that is more than whitespace, else "Node " and what follows the first colon of the id, else the id; its definition is the record's text with its source when usable, else missing |
| `RecordLaws.RecordedFace` | rust/crates/wylde-concept-hierarchy/src/overlay.rs:264-307 | after any list of records each node has the kind and embedding of the projected node, or of an authored one, and the last label given, else its own, else the default |
| `RecordLaws.RecordedText` | rust/crates/wylde-concept-hierarchy/src/overlay.rs:264-307 | after any list of records the definition of an id is, by its last record: the inherited one while nothing displaced it, else that record's text and source when usable, else missing |
| `RecordLaws.AppliedFace` | rust/crates/wylde-concept-hierarchy/src/overlay.rs:262-328 | the same of every node of the applied graph: kind, embedding and label are those the projection and the records gave |
| `RecordLaws.AppliedText` | rust/crates/wylde-concept-hierarchy/src/overlay.rs:262-328 | a surviving node whose last record is usable shows exactly that text and source, unless an inherited text was never displaced |
| `OverlayLaws.EmptyOverlayIsIdentity` | rust/crates/wylde-concept-hierarchy/src/overlay.rs:171-177 | the empty overlay returns the graph unchanged if and only if its leaf flags were already right |
| `OverlayLaws.OverlayKeepsFaces` | rust/crates/wylde-concept-hierarchy/src/overlay.rs:309-325 | edges, merges and leaf flags never touch a label, a kind or an embedding |
| `OverlayLaws.RecordLabels` | rust/crates/wylde-concept-hierarchy/src/overlay.rs:281-297 | a record relabels its own node, and only when its label is more than whitespace; kind, embedding and links stay |
| `OverlayLaws.MergedWalk` | rust/crates/wylde-concept-hierarchy/src/overlay.rs:377-437 | what the walk returns from the primary after a merge is exactly what it returned from the two nodes before, the two themselves excepted, in either direction |
| `Overlay.ApplyOverlay` | rust/crates/wylde-concept-hierarchy/src/overlay.rs:262-328 | computes the specified graph: records, then edges over one index, then merges in order, then leaf flags |
| `Overlay.ApplyRecord` | rust/crates/wylde-concept-hierarchy/src/overlay.rs:264-307 | one record overrides the first node with its id or appends a node of its own |
| `Merge.ApplyMerge` | rust/crates/wylde-concept-hierarchy/src/overlay.rs:377-437 | computes the merged graph of the specification, or the same graph when an id is absent or the two are equal |
| `Merge.MergedLinks` | rust/crates/wylde-concept-hierarchy/src/overlay.rs:410-436 | after the list rewriting with its partial de-duplication, each direction's links are exactly the collapse of the old ones |
| `Merge.MergedNodesOk` | rust/crates/wylde-concept-hierarchy/src/overlay.rs:377-437 | a merge keeps unique ids, repetition-free lists, agreement of parents and children, no self-edge and no dangling child, and drops exactly the alias |
| `Merge.MergedXrefsAre` | rust/crates/wylde-concept-hierarchy/src/overlay.rs:399-408 | re-pointed cross-references are exactly the renamed ones without self-references, without repetition and within the surviving ids |
| `Merge.MergedDefined` | rust/crates/wylde-concept-hierarchy/src/overlay.rs:386-396 | the nodes with a definition are the renamed ones of before, so a merge never loses one |
| `Merge.MergeReachability` | rust/crates/wylde-concept-hierarchy/src/overlay.rs:377-437 | between surviving nodes there is a path after a merge if and only if there was one before or one that passes through both merged nodes; cyclic graphs included |
| `Merge.MergedNeighbourhood` | rust/crates/wylde-concept-hierarchy/src/overlay.rs:377-437 | the descendants of the primary are exactly the old descendants of either node other than the two, and likewise the ancestors |
| `Merge.RepointXrefs` | rust/crates/wylde-concept-hierarchy/src/overlay.rs:399-408 | renames both endpoints, drops self-references and keeps the first of equal ones |
| `Merge.DedupXrefs` | rust/crates/wylde-concept-hierarchy/src/overlay.rs:459-462 | keeps the first occurrence of each cross-reference, in order |
| `Merge.RetainOthers` | rust/crates/wylde-concept-hierarchy/src/overlay.rs:436 | keeps every node but those with the given id, in order |
| `MergeLists.Repoint` | rust/crates/wylde-concept-hierarchy/src/overlay.rs:440-456 | replaces the id throughout a list and keeps one copy of the target |
| `MergeLists.RepointedHas` | rust/crates/wylde-concept-hierarchy/src/overlay.rs:440-456 | the re-pointed list holds exactly the renamed members |
| `MergeLists.RepointedNoDup` | rust/crates/wylde-concept-hierarchy/src/overlay.rs:440-456 | re-pointing a repetition-free list gives a repetition-free list, although only the target is de-duplicated |
| `MergeLists.Absorb` | rust/crates/wylde-concept-hierarchy/src/overlay.rs:417-431 | appends the alias's neighbours that are new and not the node itself |
| `MergeLists.AbsorbedHas` | rust/crates/wylde-concept-hierarchy/src/overlay.rs:417-431 | the absorbed list is the union of both, without the node itself from the second |
| `MergeLists.Retain` | rust/crates/wylde-concept-hierarchy/src/overlay.rs:433-434 | drops every copy of an id from a list, keeping the order |
| `OrderLaws.RenamedAt` | rust/crates/wylde-concept-hierarchy/src/overlay.rs:440-446 | renaming acts item by item: only the old id changes, into the new one |
| `OrderLaws.RepointedOrder` | rust/crates/wylde-concept-hierarchy/src/overlay.rs:440-456 | dropping later copies of the target alone leaves the renamed list with each id where it first stood |
| `OrderLaws.AbsorbedOrder` | rust/crates/wylde-concept-hierarchy/src/overlay.rs:417-431 | the alias's new neighbours follow the primary's own, in their order |
| `OrderLaws.PrimaryLists` | rust/crates/wylde-concept-hierarchy/src/overlay.rs:410-435 | after a merge the primary lists its own neighbours and then the alias's, renamed, itself left out, each where it first stands |
| `EdgeTable.AddContainment` | rust/crates/wylde-concept-hierarchy/src/overlay.rs:352-370 | writes the edge on both endpoints, or nothing for a self-edge or an unknown endpoint |
| `EdgeTable.WithEdgeKeeps` | rust/crates/wylde-concept-hierarchy/src/overlay.rs:352-370 | one edge keeps the whole representation invariant, adds exactly itself to the relation and only lengthens lists |
| `EdgeTable.WithPairsKeeps` | rust/crates/wylde-concept-hierarchy/src/overlay.rs:313-315 | a list of edges adds exactly its resolved, non-reflexive members and keeps the invariant |
| `EdgeTable.MarkLeaves` | rust/crates/wylde-concept-hierarchy/src/overlay.rs:323-325 | sets every leaf flag to whether the node has no child |
| `EdgeTable.WithLeavesKeeps` | rust/crates/wylde-concept-hierarchy/src/overlay.rs:323-325 | leaf flags are right afterwards, and no id, link or definition changed |
| `Hierarchy.BuildIndex` | rust/crates/wylde-concept-hierarchy/src/overlay.rs:340-347 | maps every id to the last node that carries it |
| `Hierarchy.IdsSplit` | rust/crates/wylde-concept-hierarchy/src/model.rs:44-48 | splitting a concept or vocabulary id at its first colon gives the prefix and the source id back, whatever colons that has |
| `Hierarchy.ResolveLadder` | rust/crates/wylde-concept-hierarchy/src/model.rs:134-156 | the authored text when it is more than whitespace, else the inherited one under its kind when that is, else missing |
| `Hierarchy.WhitespaceIs` | rust/crates/wylde-concept-hierarchy/src/model.rs:134-156 | the characters trimming removes, one by one |
| `Hierarchy.BlankTrims` | rust/crates/wylde-concept-hierarchy/src/model.rs:134-156 | a text counts as blank exactly when trimming both ends leaves nothing |
| `Hierarchy.IdsInjective` | rust/crates/wylde-concept-hierarchy/src/model.rs:28-37 | ids built from different records never clash, within a store or across the two |
| `Identity.HierarchyIdentity.Mint` | rust/crates/wylde-concept-hierarchy/src/overlay.rs:54-63 | hands out the id of the current mark and moves the mark by one, modulo 2^32 |
| `Identity.NeverReused` | rust/crates/wylde-concept-hierarchy/src/overlay.rs:54-63 | two mints hand out the same id exactly when they are a multiple of 2^32 mints apart |
| `Identity.RunDistinct` | rust/crates/wylde-concept-hierarchy/src/overlay.rs:54-63 | a run of mints hands out distinct ids if and only if it has at most 2^32 of them |
| `Identity.MintedIsNew` | rust/crates/wylde-concept-hierarchy/src/overlay.rs:54-63 | a minted id is never the id of a concept or of a vocabulary node |
| `Identity.MintedSplit` | rust/crates/wylde-concept-hierarchy/src/overlay.rs:54-63 | splitting a minted id gives "node" and the padded ordinal back |
| `Identity.MintedLabel` | rust/crates/wylde-concept-hierarchy/src/overlay.rs:332-337 | a node introduced under a minted id without a label is shown as "Node" and the padded ordinal |
| `Paths.CollapseReachability` | rust/crates/wylde-concept-hierarchy/src/overlay.rs:377-437 | reachability in a quotient that identifies two nodes, in terms of reachability before |
| `LevelOrder.LevelIsDistance` | rust/crates/wylde-concept-hierarchy/src/traverse.rs:206-230 | the k-th level of a level-order search holds exactly the nodes at shortest distance k |
| `Traverse.WalkContainment` | rust/crates/wylde-concept-hierarchy/src/traverse.rs:174-199 | ends on every graph and returns exactly the transitive closure without the start, once each, nearest first |
| `Traverse.Unvisited` | rust/crates/wylde-concept-hierarchy/src/traverse.rs:190-196 | what a step pushes on the queue: every neighbour not visited yet, nothing else |
| `Traverse.Ancestors` | rust/crates/wylde-concept-hierarchy/src/traverse.rs:162-164 | on a well-formed graph, exactly the other nodes the start can be reached from |
| `Traverse.Descendants` | rust/crates/wylde-concept-hierarchy/src/traverse.rs:168-170 | on a well-formed graph, exactly the other nodes reachable from the start |
| `Traverse.AncestorDescendantDual` | rust/crates/wylde-concept-hierarchy/src/traverse.rs:162-170 | on a well-formed graph y is an ancestor of x if and only if x is a descendant of y |
| `Traverse.AncestorChain` | rust/crates/wylde-concept-hierarchy/src/traverse.rs:138-156 | ends on every graph with a repetition-free path of first parents from the start, stopping at a root or just before a repeat or an unknown id |
| `Traverse.ChainWithinAncestors` | rust/crates/wylde-concept-hierarchy/src/traverse.rs:138-164 | everything on the chain after the start is an ancestor of the start, on every graph |
| `CrossWalk.CombinedAdjacency` | rust/crates/wylde-concept-hierarchy/src/traverse.rs:236-252 | builds the neighbour table: parents and children when containment is followed, then both ends of every selected cross-reference |
| `CrossWalk.NeighboursInOrder` | rust/crates/wylde-concept-hierarchy/src/traverse.rs:236-252 | the table lists a node's parents before its children, each in the order of the lists |
| `CrossWalk.WalkPairs` | rust/crates/wylde-concept-hierarchy/src/traverse.rs:236-252 | the table relates exactly the nodes linked by containment, when followed, or by a cross-reference of a selected kind in either direction |
| `CrossWalk.WalkRelationSymmetric` | rust/crates/wylde-concept-hierarchy/src/traverse.rs:236-252 | on a well-formed graph the relation is symmetric |
| `CrossWalk.Discover` | rust/crates/wylde-concept-hierarchy/src/traverse.rs:217-227 | a step reports and enqueues exactly the neighbours not visited yet, at one hop more |
| `CrossWalk.CrossReferenceWalk` | rust/crates/wylde-concept-hierarchy/src/traverse.rs:206-230 | the queue-driven walk returns the levels 1 to the cap, in order, each node with its level |
| `CrossWalk.WalkIsExact` | rust/crates/wylde-concept-hierarchy/src/traverse.rs:206-230 | a node is reported with k hops if and only if k is its true shortest distance and 1 <= k <= cap; once each, hops never decreasing, never the start |
| `CrossWalk.WalkIsSymmetric` | rust/crates/wylde-concept-hierarchy/src/traverse.rs:206-252 | on a well-formed graph y is reported from x at k hops if and only if x is reported from y at k hops |
| `CrossWalk.WalkCapExtends` | rust/crates/wylde-concept-hierarchy/src/traverse.rs:206-230 | raising the cap only appends to the result |
| `Projection.BuildView` | rust/crates/wylde-concept-hierarchy/src/project.rs:149-256 | computes the specified view: nodes with the first record winning, then edges, then cross-references, then leaf flags |
| `Projection.ViewIsDeclaredGraph` | rust/crates/wylde-concept-hierarchy/src/project.rs:149-256 | the view is well formed with correct leaf flags; its ids are the stores' ids, its containment exactly the declared parents that resolve and are not the node itself, its cross-references exactly the declared ones whose endpoints resolve: a name for each term of a concept, and for each live relation one from its source record to its target record, positive, negative or dependency as the relation is |
| `Projection.ViewKeepsRecords` | rust/crates/wylde-concept-hierarchy/src/project.rs:158-195 | each node of the view shows the label, definition, kind and embedding of its record, and every definition is inherited or missing |
| `Projection.FirstRecordWins` | rust/crates/wylde-concept-hierarchy/src/project.rs:158-195 | of several records with one id the first is in the table |
| `OrderLaws.ViewParents` | rust/crates/wylde-concept-hierarchy/src/project.rs:198-213 | a concept's parents in the view are its declared parents that exist, itself left out, each once and in the order declared, so its primary parent is the first of them |
| `OrderLaws.WithPairsOrder` | rust/crates/wylde-concept-hierarchy/src/project.rs:104-122 | a list of edges appends to each node's parents and children what is new, in the order of the edges |
| `OrderLaws.FirstOfEachOrder` | rust/crates/wylde-concept-hierarchy/src/project.rs:158-195 | the nodes stand in the order of the first records of their ids |
| `OrderLaws.PushedOrder` | rust/crates/wylde-concept-hierarchy/src/project.rs:125-129 | of equal cross-references the first stays, and the order is that in which they were declared |
| `Projection.StoresStayApart` | rust/crates/wylde-concept-hierarchy/src/project.rs:198-213 | containment never crosses between concepts and vocabulary |
| `Projection.ResolvedOk` | rust/crates/wylde-concept-hierarchy/src/model.rs:134-156 | a description is inherited unchanged unless it is blank, and is missing exactly then |
| `Projection.ConceptShown` | rust/crates/wylde-concept-hierarchy/src/project.rs:158-176 | the first concept with an id is a node of the view with its own label, kind concept, its centroid, and its description as inherited definition, or none when blank |
| `Projection.AnchorShown` | rust/crates/wylde-concept-hierarchy/src/project.rs:177-195 | the first anchor with an identifier is a node of the view labelled by it, kind vocabulary, without embedding, and with its description as inherited definition, or none when blank |
| `Projection.ProjectNodes` | rust/crates/wylde-concept-hierarchy/src/project.rs:158-195 | concepts first, then anchors: the first record of each id, in order, with its index |
| `Projection.ProjectContainment` | rust/crates/wylde-concept-hierarchy/src/project.rs:104-213 | adds every declared parent in order: of the concepts, then of the anchors |
| `Projection.PushXref` | rust/crates/wylde-concept-hierarchy/src/project.rs:125-129 | pushes a cross-reference unless it is there |
| `Projection.ProjectXrefs` | rust/crates/wylde-concept-hierarchy/src/project.rs:216-248 | the terms of each concept, then the live relations, each with known endpoints once, in order |
| `Calendar.CivilFromEpochCounts` | tools/wylde-release/src/preflight.rs:802-819 | for every second count the result is a valid Gregorian date and time not before 1970; counting years and months one by one gives back secs / 86400, and the time fields recombine to secs % 86400 |
| `Calendar.EpochRoundTrip` | tools/wylde-release/src/preflight.rs:802-819 | a civil time is the conversion of a second count if and only if the count is its naive second number |
| `Calendar.CivilFromDaysCounts` | tools/wylde-release/src/preflight.rs:802-819 | the closed form is inverse to naive day counting for every day from 1 January of year 1 |
| `Calendar.CivilRoundTrip` | tools/wylde-release/src/preflight.rs:802-819 | every valid date is recovered from its day number |
| `Calendar.YearOfEraExact` | tools/wylde-release/src/preflight.rs:802-819 | the corrected division finds the year of the era: what remains is a day of that year, and a 366th day only before a leap February |
| `Calendar.MarchMonths` | tools/wylde-release/src/preflight.rs:802-819 | the 153-day rule gives a month and a day within that month's length |
| `Calendar.BeforeIsSmaller` | tools/wylde-release/src/preflight.rs:802-819 | date order and day-number order agree |
| `Timestamp.IsoOrder` | tools/wylde-release/src/preflight.rs:795-798 | before the year 10000 the text order of two timestamps is their time order, and equal texts mean equal times |
| `Timestamp.IsoWidth` | tools/wylde-release/src/preflight.rs:795-798 | the timestamp has 20 characters if and only if its year has four digits |
| `Timestamp.IsoInjective` | tools/wylde-release/src/preflight.rs:795-798 | no two second counts print alike, whatever the year |
| `Timestamp.IsoReads` | tools/wylde-release/src/preflight.rs:795-798 | before the year 10000 the separators stand at their six places and the digits between them read as year, month, day, hour, minute and second |
| `Timestamp.YmdIsDay` | tools/wylde-release/src/preflight.rs:789-792 | two second counts print the same day if and only if they fall on the same UTC day |
| `Timestamp.YmdStartsIso` | tools/wylde-release/src/preflight.rs:789-798 | the printed day is how the printed timestamp of the same moment begins |
| `Timestamp.YearBound` | tools/wylde-release/src/preflight.rs:795-819 | four-digit years end exactly at second 253402300800 |
| `Timestamp.MomentOrder` | tools/wylde-release/src/preflight.rs:802-819 | comparing the civil fields from the year down is comparing second counts |
| `Tracker.AddOneMonthIs` | Core/harness/dev/tracker_expiry.py:85-100 | the next month's same day, clipped to the length of that month; it fails only in December 9999 |
| `Tracker.MonthGap` | Core/harness/dev/tracker_expiry.py:85-100 | adding a month adds 28 to 31 days |
| `Tracker.AddOneMonthMonotone` | Core/harness/dev/tracker_expiry.py:85-100 | a later touch never has an earlier expiry |
| `Tracker.EffectiveIsLatest` | Core/harness/dev/tracker_expiry.py:108-117 | the enforced expiry is the later of the recorded and the derived one, by day number |
| `Tracker.ClassifyByDay` | Core/harness/dev/tracker_expiry.py:128-144 | expired, warned or live by the number of days left |
| `Tracker.LastTouch` | Core/harness/dev/tracker_expiry.py:221-243 | the date of the newest commit that carries one and is no bump |
| `Tracker.SweepWrites` | Core/harness/dev/tracker_expiry.py:277-312 | a sweep changes a document if and only if the enforced date is not past and not yet recorded; the change is that date and one marked commit, and when the enforced date is not past it is the recorded one afterwards |
| `Tracker.SweepReports` | Core/harness/dev/tracker_expiry.py:277-312 | the reported expiry is the recorded or the derived date, none only without both, and the status is expired, warned or live by the days left |
| `Tracker.DerivedIs` | Core/harness/dev/tracker_expiry.py:103-105 | the derived date is a month after the newest touch |
| `Tracker.NothingDerived` | Core/harness/dev/tracker_expiry.py:277-312 | there is no derived date exactly when no commit counts as a touch |
| `Tracker.EditTouches` | Core/harness/dev/tracker_expiry.py:221-243 | a commit is a touch exactly when it is dated and unmarked |
| `Tracker.RecordedIsEnforced` | Core/harness/dev/tracker_expiry.py:422-439 | over every run, after a sweep that finds the document not expired the recorded date is the enforced one until the next human commit |
| `Tracker.TouchKeepsAlive` | Core/harness/dev/tracker_expiry.py:277-312 | over every run, after a dated unmarked commit no sweep of the next 28 days finds the document expired |
| `Tracker.BumpIsCosmetic` | Core/harness/dev/tracker_expiry.py:422-439 | a bump never changes the enforced expiry or any later status, and none is due right after it |
| `Tracker.NoSelfRenewal` | Core/harness/dev/tracker_expiry.py:277-312 | over every run of sweeps with no human commit, a document is expired on a day exactly when that day is past the one fixed date enforced at the start |
| `Tracker.BumpsAreSeparated` | Core/harness/dev/tracker_expiry.py:23-29 | between any two bumps of a document there is a human commit |
| `Tracker.SettledAfterBump` | Core/harness/dev/tracker_expiry.py:277-312 | after a bump no sweep finds another one due until a human commit |
| `Tracker.RecentTouchIsLive` | Core/harness/dev/tracker_expiry.py:277-312 | a document touched at most 28 days ago is never expired |
| `Tracker.StaleTouchExpires` | Core/harness/dev/tracker_expiry.py:277-312 | a document last touched at least 32 days ago is expired, unless a later date was recorded by hand |
| `GateLaws.VerifiesIffCurrent` | rust/crates/wylde-device-gate/src/core.rs:311-323 | after every run of lock-level steps a token verifies if and only if it is not empty and is the last one written for a device not removed since |
| `GateLaws.SupersededForever` | rust/crates/wylde-device-gate/src/core.rs:359-414 | with fresh mints, a token that once stopped verifying never verifies again |
| `GateLaws.NoResurrection` | rust/crates/wylde-device-gate/src/store.rs:187-228 | a device that is absent stays absent until a pairing creates it: a late update, rotation or touch brings nothing back |
| `GateLaws.TokensDistinct` | rust/crates/wylde-device-gate/src/store.rs:161-167 | with fresh mints two devices never hold the same token |
| `GateLaws.CurrentToken` | rust/crates/wylde-device-gate/src/core.rs:359-388 | the token stored for a device is exactly the last one written, in every interleaving |
| `GateLaws.CurrentTier` | rust/crates/wylde-device-gate/src/core.rs:327-355 | over every run and interleaving the tier stored for a device is exactly the one its pairing or its last tier update gave it, if it was not removed since |
| `GateLaws.FoundIsCurrent` | rust/crates/wylde-device-gate/src/core.rs:311-323 | a token that verifies stands for the device whose current token it is, at that device's current tier |
| `GateLaws.DevicesStayUnique` | rust/crates/wylde-device-gate/src/store.rs:173-182 | device ids stay unique over every run |
| `GateLaws.TiersValid` | rust/crates/wylde-device-gate/src/store.rs:19-40 | every stored tier is one of the known ones over every run |
| `GateLaws.EventsConserved` | rust/crates/wylde-device-gate/src/core.rs:418-443 | over every run what was consumed for a device followed by what is pending is what was queued for it, in order and without repetition |
| `GateLaws.RevocationAnnounced` | rust/crates/wylde-device-gate/src/core.rs:392-414 | over every run, from a removal on its thread owes the revoked event until a later step of that thread has queued it |
| `GateLaws.RevocationsConserved` | rust/crates/wylde-device-gate/src/core.rs:392-433 | over every run the removals of a device are as many as its revoked events queued plus the threads that still owe one: none is lost, repeated or invented |
| `GateLaws.PairingHasStart` | rust/crates/wylde-device-gate/src/core.rs:241-307 | each successful pairing presents the code of a start that was neither cancelled, replaced, expired nor used, before its expiry and with good credentials |
| `GateLaws.StartPermitsPairing` | rust/crates/wylde-device-gate/src/core.rs:241-307 | and conversely, under those conditions the pairing succeeds |
| `GateLaws.WindowUsedOnce` | rust/crates/wylde-device-gate/src/core.rs:204-307 | no start serves two pairings |
| `GateLaws.PairingsBounded` | rust/crates/wylde-device-gate/src/core.rs:204-307 | successful pairings, plus one for an open window, never exceed starts |
| `GateLaws.PairedReadOnly` | rust/crates/wylde-device-gate/src/core.rs:283-299 | a pairing appends exactly the new device, at the read-only tier, and changes no other |
| `Gate.StepDevice` | rust/crates/wylde-device-gate/src/store.rs:161-229 | what each lock-level step does to each device's whole record: pairing creates it read-only, an update sets the tier asked for, a rotation the token, a touch the last-seen time, a revocation removes it; nothing else of any record changes |
| `Gate.ThreadFinishes` | rust/crates/wylde-device-gate/src/core.rs:311-414 | from any state, whatever others did in between, an operation is done after at most two further steps of its own |
| `Devices.TiersRanked` | rust/crates/wylde-device-gate/src/store.rs:19-40 | the known tiers are exactly the ranked ones, each with a rank of its own, read-only lowest |
| `Gate.StepTokens` | rust/crates/wylde-device-gate/src/store.rs:161-229 | what each lock-level step does to each device's token: only the writing and the removing steps change it, and only for their device |
| `RotationLaws.WillAgreeIffConsistent` | rust/crates/wylde-device-gate/src/core.rs:359-388 | from any reachable state with a token for the device: every continuation that leaves the token alone and announces everything ends with a last rotation event carrying the stored token, if and only if the threads still to announce all carry that token and, with none left, it was the last announced |
| `RotationLaws.RotationWillAgree` | rust/crates/wylde-device-gate/src/core.rs:359-388 | right after a rotation that is so if and only if, before its write, no thread was about to announce another token of the device |
| `RotationLaws.FreshRotationWillAgree` | rust/crates/wylde-device-gate/src/core.rs:359-388 | with fresh mints: if and only if every earlier rotation of the device had been announced when this one was written |
| `RotationLaws.LastEventIsCurrent` | rust/crates/wylde-device-gate/src/core.rs:359-388 | when the last rotation of a device overlapped no other and everything is announced, the last rotation event queued carries the token that verifies, however earlier rotations overlapped |
| `RotationLaws.OverlappingRotationsMislead` | rust/crates/wylde-device-gate/src/core.rs:359-388 | the failing input: a concrete run of two overlapping rotations whose last event carries a token that no longer verifies |
| `DeviceGate.RunSteps` | rust/crates/wylde-device-gate/src/core.rs:204-443 | enabled steps extend a run of the machine; this is how each method of the service keeps its fields equal to the state its history leads to |
| `DeviceGate.RotationIsSteps` | rust/crates/wylde-device-gate/src/core.rs:359-388 | a rotation on an idle thread is the steps check, write, announce of the machine, or the check alone for an unknown device |
| `DeviceGate.RevocationIsSteps` | rust/crates/wylde-device-gate/src/core.rs:392-414 | likewise a revocation: check, remove, announce, or the check alone |
| `DeviceGate.TierChangeIsSteps` | rust/crates/wylde-device-gate/src/core.rs:327-355 | likewise a tier change: update, announce, or an update that changes nothing |
| `DeviceGate.VerificationIsSteps` | rust/crates/wylde-device-gate/src/core.rs:311-323 | likewise a verification: find, touch, or a find that finds nothing |
| `DeviceGate.DeviceGateService.CompletePairing` | rust/crates/wylde-device-gate/src/core.rs:241-307 | each refusal if and only if its cause: no open window or past its end, else another code, else bad credentials, else a taken id; only success adds the device, closes the window and logs; every failure changes nothing |
| `DeviceGate.DeviceGateService.StartPairing` | rust/crates/wylde-device-gate/src/core.rs:204-218 | opens a window with the minted code for 300 seconds, replacing any other, and shows both |
| `DeviceGate.DeviceGateService.CancelPairing` | rust/crates/wylde-device-gate/src/core.rs:220-228 | closes the window and says whether it was active |
| `DeviceGate.DeviceGateService.GetPairingStatus` | rust/crates/wylde-device-gate/src/core.rs:230-239 | shows code and end of an active window and collapses an expired one |
| `DeviceGate.DeviceGateService.Verify` | rust/crates/wylde-device-gate/src/core.rs:311-323 | names the device and tier of the token and touches that device, or reports an invalid token and changes nothing; it succeeds exactly for a token last written, in the history of calls, for a device not removed since, and the tier it names is the last one given to that device |
| `DeviceGate.DeviceGateService.SetTier` | rust/crates/wylde-device-gate/src/core.rs:327-355 | rejects unknown tiers and devices without a change; otherwise updates, announces and logs |
| `DeviceGate.DeviceGateService.RotateToken` | rust/crates/wylde-device-gate/src/core.rs:359-388 | rejects an unknown device without a change; otherwise writes the minted token, announces and logs it |
| `DeviceGate.DeviceGateService.Revoke` | rust/crates/wylde-device-gate/src/core.rs:392-414 | rejects an unknown device without a change; otherwise removes it, announces and logs |
| `DeviceGate.DeviceGateService.EnqueueEvent` | rust/crates/wylde-device-gate/src/core.rs:418-433 | appends the event to its device's queue |
| `DeviceGate.DeviceGateService.ConsumePendingEvents` | rust/crates/wylde-device-gate/src/core.rs:435-438 | hands over the device's queue and empties it |
| `DeviceGate.DeviceGateService.HasPendingEvents` | rust/crates/wylde-device-gate/src/core.rs:440-443 | whether an event waits for the device |
| `DeviceGate.DeviceGateService.RecentActions` | rust/crates/wylde-device-gate/src/core.rs:471-483 | the newest entries of the device, newest first |
| `Devices.DeviceStore.FindByToken` | rust/crates/wylde-device-gate/src/store.rs:161-167 | the first device with the token; never one for the empty token |
| `Devices.DeviceStore.Add` | rust/crates/wylde-device-gate/src/store.rs:173-182 | appends unless the id is taken |
| `Devices.DeviceStore.Update` | rust/crates/wylde-device-gate/src/store.rs:187-198 | rewrites the first device with the id, and no other |
| `Devices.DeviceStore.Remove` | rust/crates/wylde-device-gate/src/store.rs:200-210 | drops every device with the id and says whether there was one |
| `Devices.DeviceStore.Touch` | rust/crates/wylde-device-gate/src/store.rs:214-228 | sets the last-seen time of the device, if it is there, and nothing else |
| `Devices.RemovedHas` | rust/crates/wylde-device-gate/src/store.rs:200-210 | removal drops exactly the devices with the id |
| `Devices.ActionLog.RecordAt` | rust/crates/wylde-device-gate/src/store.rs:327-350 | appends to the device's own history, cut to the newest fifty, and alters no other device's |
| `Devices.ActionLog.Recent` | rust/crates/wylde-device-gate/src/store.rs:354-364 | over any interleaving of records, the reverse of the last min(limit, 50, n) entries recorded for the device |
| `Devices.RecentOfLast` | rust/crates/wylde-device-gate/src/store.rs:327-364 | cutting the log to the newest entries first changes nothing a reader can see |
| `Dedup.GroupFileStats` | rust/crates/wylde-fswalk/src/dedup.rs:44-87 | for any iteration order of the size table, exactly the classes with two or more members of naive grouping of the readable files by size and hash, each once, input order inside, reclaimable bytes never increasing |
| `Dedup.BucketHoldsClass` | rust/crates/wylde-fswalk/src/dedup.rs:44-72 | skipping files of other sizes loses nothing: a class is the same read off its size bucket |
| `Dedup.ClassConcat` | rust/crates/wylde-fswalk/src/dedup.rs:63-72 | members of a group keep the input order |
| `Dedup.GroupedIffShared` | rust/crates/wylde-fswalk/src/dedup.rs:44-87 | a readable file is in a group if and only if another file of the input has its size and hash |
| `Dedup.GroupsApart` | rust/crates/wylde-fswalk/src/dedup.rs:52-72 | two groups never share size and hash |
| `Dedup.ReclaimableIs` | rust/crates/wylde-fswalk/src/dedup.rs:33-36 | what a group frees is all its copies take together less one copy, saturated at 64 bits |
| `Dedup.SortIs` | rust/crates/wylde-fswalk/src/dedup.rs:85 | the sort rearranges the groups by reclaimable bytes, largest first |
| `Supervisor.ReachableOk` | rust/crates/wylde-extension-bridge/src/host.rs:246-348 | after every sequence of calls: running iff a client is held, a pid implies running, panel-only never holds a client, crashed and broken carry an error, broken implies at least the maximum of failed connections in a row, and the counter is that number, saturated |
| `Supervisor.RunningWasConnected` | rust/crates/wylde-extension-bridge/src/host.rs:246-348 | a running extension holds the client of a connection made for it that no stop has ended since |
| `Supervisor.BrokenAtLimit` | rust/crates/wylde-extension-bridge/src/host.rs:300-314 | a failed connection leaves the extension broken exactly when it is the limit's or a later one in a row, crashed otherwise |
| `Supervisor.RecordSticks` | rust/crates/wylde-extension-bridge/src/host.rs:181-227 | an extension stays in the catalog with the record it entered with until a walk of a readable directory fails to find it |
| `Supervisor.StoredOffStaysDown` | rust/crates/wylde-extension-bridge/src/host.rs:185-189 | so an extension stored as disabled or panel-only stays down whatever is called and whatever the files say later |
| `Supervisor.SwitchedOnStaysDisabled` | rust/crates/wylde-extension-bridge/src/host.rs:185-189 | the failing input: an extension first seen disabled, then enabled in its file and started with a connection that succeeds, is still disabled |
| `Supervisor.CatalogFollowsDisk` | rust/crates/wylde-extension-bridge/src/host.rs:181-227 | over every sequence of calls, a walk of a readable directory leaves exactly the extensions it found and a walk of an unreadable one only adds |
| `Supervisor.RefreshEntries` | rust/crates/wylde-extension-bridge/src/host.rs:134-189 | a walk changes no entry that stays; a new one is starting if and only if enabled and not panel-only, else disabled, with no client, pid, error or failed attempt |
| `Supervisor.StartOutcome` | rust/crates/wylde-extension-bridge/src/host.rs:246-317 | for every reachable state, what a start makes of status, client, pid, error and attempt count for each outcome of the attempt; other extensions are left alone |
| `Supervisor.StopOutcome` | rust/crates/wylde-extension-bridge/src/host.rs:320-348 | what a stop clears and what it keeps: record, last error and attempt count stay |
| `Supervisor.RefreshDrops` | rust/crates/wylde-extension-bridge/src/host.rs:205-226 | an entry is dropped exactly when the directory could be read, the entry came from it and is gone; an unreadable directory never shrinks the catalog |
| `Supervisor.Host.EnsureStarted` | rust/crates/wylde-extension-bridge/src/host.rs:246-317 | performs the start step of the model and succeeds exactly when the extension ends running or disabled |
| `Supervisor.Host.StopOne` | rust/crates/wylde-extension-bridge/src/host.rs:320-348 | performs the stop step: no client, disabled, no pid; fails for an unknown name |
| `Supervisor.Host.RefreshCatalog` | rust/crates/wylde-extension-bridge/src/host.rs:181-227 | afterwards the catalog is exactly what a readable directory held, or the old one and the found when it was unreadable; known entries are as they were and new ones fresh |
| `Supervisor.Host.Restart` | rust/crates/wylde-extension-bridge/src/host.rs:753-765 | a stop, then a start; it ends running exactly when the record is enabled, is not panel-only and the connection succeeds |
| `Supervisor.Host.SetEnabled` | rust/crates/wylde-extension-bridge/src/host.rs:494-526 | a refresh, then a start or a stop; the entry survives exactly when the walk finds it, the directory was unreadable or it has no file; it ends running exactly when it survives, the record stored before the call is enabled and not panel-only, and it connects or was running |
| `Apr1.AcceptsIffDigest` | rust/crates/wylde-device-gate/src/auth.rs:135-150 | for every password and salt, a stored encoded digest is accepted if and only if it equals the computed one |
| `Apr1.AcceptsExactly` | rust/crates/wylde-device-gate/src/auth.rs:135-150 | for every stored text: accepted if and only if it is "$apr1$", a salt, a dollar sign and the tail of the digest for the password and the salt's first eight bytes |
| `Apr1.FirstInput` | rust/crates/wylde-device-gate/src/auth.rs:152-187 | what the first digest is fed, part by part, with the alternate digest repeated to the password's length |
| `Apr1.RoundFeeds` | rust/crates/wylde-device-gate/src/auth.rs:190-209 | what a round is fed: which of password and digest opens and closes it, and when salt and password come between |
| `Apr1.DigestChain` | rust/crates/wylde-device-gate/src/auth.rs:190-209 | the final digest ends a chain of 1000 rounds from the first digest, each hashing its own mix of the one before |
| `Apr1.Alphabet` | rust/crates/wylde-device-gate/src/auth.rs:244-249 | the letters are dot, slash, digits, capitals, small letters, in order |
| `Apr1.TailRoundTrip` | rust/crates/wylde-device-gate/src/auth.rs:213-241 | a decoder recovers all sixteen digest bytes from the 22 characters |
| `Apr1.LettersRead` | rust/crates/wylde-device-gate/src/auth.rs:244-249 | the letters of a value that fits are read back as that value |
| `Apr1.MixAlt` | rust/crates/wylde-device-gate/src/auth.rs:167-172 | feeds exactly as many bytes as the password is long, cycling through the alternate digest |
| `Apr1.MixBits` | rust/crates/wylde-device-gate/src/auth.rs:177-185 | feeds the byte of each bit of the length, from the low bit |
| `Apr1.OneBytePerBit` | rust/crates/wylde-device-gate/src/auth.rs:177-185 | as many bytes are fed as the password length n has binary digits (2^(k-1) <= n < 2^k), and byte i is zero exactly when bit i of n is set |
| `Apr1.ComputeDigest` | rust/crates/wylde-device-gate/src/auth.rs:152-242 | the loops compute the specified thousand-round digest, with MD5 a parameter |
| `Apr1.EncodeTail` | rust/crates/wylde-device-gate/src/auth.rs:213-241 | writes the 22 characters of the shuffled digest |
| `Apr1.VerifyApr1` | rust/crates/wylde-device-gate/src/auth.rs:135-150 | accepts exactly as specified, malformed stored texts refused |
| `Apr1.SplitsAtFirst` | rust/crates/wylde-device-gate/src/auth.rs:135-150 | the salt ends at the first dollar sign |

## Left out

- Graph timestamps are not modelled; embeddings are only carried along.
- Configuration flags that switch the projection off, listing children, roots and leaves of a graph, and the serialised forms.
- The relation store of concept routing (`relations.rs`) is not part of this model; a relation has the fields its use in `project.rs` shows.
- Reading and writing files, JSON, permissions and failed saves: stores are in memory, start empty, and every save succeeds.
- MD5 is a parameter of `Apr1`; bcrypt, SHA-crypt, reading the password file and constant-time comparison are not modelled. Salts are bytes, so cutting a salt inside a multi-byte character is not modelled.
- Minting codes, ids and tokens: they are arguments, a pairing code with the six characters the source mints (`core.rs:592-600`), assumed fresh only where a lemma says so (`FreshMints`).
- Device metadata is opaque text, the name derived from it is an argument, and the public form of a device and listing devices are left out.
- Completing a pairing is one step of the machine, because it holds the pairing lock throughout. Writing the action log is not a step of the machine: `ActionLog` is proved for any interleaving of records.
- The order among duplicate groups with equal reclaimable bytes depends on the iteration order of the size table, so it is not stated. Hashing a file is a function of its path, and the library sort is a stable sorting function.
- Front matter and Git in the tracker: a document is its recorded date and its list of commits; a document without an `expires` key, whose bump rewrites nothing, is not modelled. Touches in December 9999, where adding a month fails, are excluded.
- Extension health checks, tools, panels and the event bus; an entry of the catalog not backed by a file occurs only in the repository's tests.
- Timestamps beyond year 9999 have no promised string order, and none is stated; width and injectivity are.
- Idempotence of applying an overlay: an alias with a record of its own is created again by the next application.
