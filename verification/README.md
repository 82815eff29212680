# Verified model of the OSM-to-PostGIS importer

The importer reads OpenStreetMap files into PostGIS, keeps the tables and a flat node
coordinate store up to date from sequence-numbered diffs, cuts the planet database into
regional bundles, and installs those bundles elsewhere. This project models the parts of it
that carry state, concurrency or hand-written formats, and proves what each promises.

Tables are maps from (table, id) to rows and tag sets, or multisets of rows where the code
joins without a key. A `double` is a 64-bit word compared for equality, and by sign and magnitude where the code
orders coordinates (`Doubles`). The region test
(`RegionIndex::matches`) is an arbitrary predicate, so every export and install theorem holds
for any polygons. Threads are interleaved steps; a schedule is any sequence of them. A
process crash falls between two committed steps, a write to the node store or one database
transaction, or inside a store write, the growth of the store's two files included.

Where the original changes things in place, the model does too: classes for the node store,
the database client, both appliers, the polling process, the COPY reader and writer and the
WKB cursor, and loops for the encoders, scans, merges and searches. Each such method is
proved equal to a function, and the theorems are about those functions. Concurrent code (the
bulk import, the export worker pool) and crashes are state machines over atomic steps.

Reading order:

| area | files |
|---|---|
| shared types | `Core`, `Geometry`, `Lists`, `Wire`, `Bits` |
| replication | `TagText`, `NavTables`, `TagFilters`, `TagDiff`, `TagReplay`, `Delta`, `ChangeRows`, `StoreSteps`, `Replication`, `RecordedExact`, `Replay`, `ReplayIds`, `ReplayWays`, `Integrity`, `Roads`, `Applier` |
| node store | `NodeStore`, `NodeStoreRuns`, `Scan`, `OsmMap`, `Shards` |
| bulk import | `ImportPipeline`, `PipelineNodes`, `PipelineWays`, `PipelineSafety`, `PipelineProgress`, `ImportRows` |
| regional export and install | `WorkPool`, `RegionalExport`, `ExportWork`, `NodeExport`, `NodeFile`, `Install`, `EndToEnd`, `Quoting` |
| regional deltas | `RegionalDelta`, `RegionalRows`, `RegionalTables`, `RegionalNodes`, `RegionalApplier` |
| formats and geometry | `PgCopy`, `PgReader`, `Ewkb`, `WkbCursor`, `WkbHex`, `Stitch`, `Doubles`, `Multipolygon`, `MultipolygonRings` |

Main results:

- A diff may be interrupted between any two commits or inside a store write, its growth
  included, any number of times; what is stored when its number is recorded is what an
  uninterrupted application gives (`Replication.CrashExact`), as long as no change reads what
  only a later change of the diff first writes and every node update finds room. Without a
  crash between the two truncations of a grow, a covering bitmap keeps covering and ids up to
  the ceiling always find room (`Replication.CrashExactCovered`). With such crashes the
  recorded states of a run are exact exactly when every last node update of every recorded
  attempt finds room (`RecordedExact.RecordedExactIff`).
- Starting too early is harmless in every table under the same condition on reads
  (`Replay.EarlyStartExact`). The ids in the diffs decide it (`ReplayIds.IdsSettle`), and
  listing nodes before ways before relations is one way to meet it
  (`Replication.CrashExactOrdered`).
- The bulk import never deadlocks, always ends, resolves ways only against the fully merged
  node store and processes relations only after every way is written
  (`PipelineProgress.ImportEnds`, `CanFinish`, `PipelineSafety.LookupsAfterMerge`,
  `RelationsAfterWays`).
- What each change leaves in every table and in the store is stated cell by cell from the cells
  before it (`ChangeRows.WayEdited`, `RelationEdited`, `NodeEdited`; for a region
  `RegionalRows.WayEdited` and its neighbours), and the row of every imported way from what the
  merged file selects for its references (`ImportRows.ImportedRow`).
- Exporting and installing any list of regions gives exactly the master's matching rows with
  exactly their tags, for any chunking and schedule (`RegionalExport.ExportExact`,
  `Install.InstallExact`, joined in `EndToEnd.ExportInstallExact` and, by the geometries in the
  master, `EndToEnd.InstalledIff`), and the exported node files resolve every vertex of every
  exported way, relation and road (`NodeExport.WideningComplete`, `JoinedWideningComplete`).
- The node store is a partial map through updates, removals, growth and reopening
  (`NodeStoreRuns.RunRefines`, crashes inside a grow included), and no crash inside a grow
  changes a readable id (`NodeStore.GrowCrashSafe`).
- After any run of harmless diffs, restarts included, a region's ways and areas are exactly the
  planet's that match one of its regions (`RegionalTables.RunTablesAgree`), and so are its nodes
  (`RegionalNodes.RunNodesAgree`).
- Multipolygons take their shells from the members that are not inner and their holes from those
  that are (`MultipolygonRings.ClosedMultipolygon`, `RingPoints`).
- The COPY reader's result does not depend on how the bytes arrive (`PgReader.ReadStream`) and is
  the rows a server sent (`PgCopy.StreamTrip`),
  EWKB decoding inverts encoding whatever follows (`Ewkb.RoundTrip`), and quoted command lines
  split back into their arguments under POSIX and Windows rules.

Properties that do not hold of the code, with the exact condition under which they do:

- The tag rows of a key become its cleaned tags exactly when the key is dropped or was stored
  at most once (`TagDiff.KeyRowsIff`), and there is one row per key afterwards exactly when the
  cleaned keys are distinct and none of them was stored repeatedly (`TagDiff.UniqueIff`). A key
  stored twice stays twice (`TagDiff.RepeatStays`), and colliding keys add a fixed number of
  rows on every re-application (`TagDiff.CollisionGrows`). Read as a map the rows are always
  the cleaned tags (`TagDiff.DiffExact`). Outside `TagDiff` an entity's tags carry distinctness
  of cleaned keys, over every key the row filter for non-nodes keeps, as the subset type
  `NavTables.Tags`.
- `include/PlanetDownloader.h:39-42` calls replaying already included changes harmless. It is
  for nodes (`Replay.EarlyStartNodes`), and for every table when the diffs are settled
  (`Replay.EarlyStartExact`, `ReplayIds.EarlyStartByIds`), but not always
  (`Replay.WaysDependOnOrder`). For a way edited once the exact condition is given in any world
  (`ReplayWays.OnceEditedIff`) and, for all worlds at once, on the diffs alone: no reference is
  first written after the edit, or fewer than two references last (`ReplayWays.TwiceIff`). The
  crash machine needs it too (`ReplayWays.CrashNeedsSettledEdits`). Ways and relations edited
  any number of times are covered by `ReplayWays.LastEditIff` and `ReplayWays.RelationIff`.
- A crash between the two truncations of a grow leaves the bitmap short, and a later diff can
  be recorded with a node missing although nothing crashed in it
  (`RecordedExact.LaterDiffLosesNode`). Over any run of diffs listed by type with ids up to the
  ceiling, all recorded states are exact if and only if in each recorded attempt every last
  update of a node finds room (`RecordedExact.RecordedExactIff`), which the sizes of the files
  when the attempt begins decide (`RecordedExact.RoomAtIff`).
- After restarts a key may have more tag rows than after one undisturbed run. It has as many
  exactly when some edit drops the key or no interrupted attempt got through an edit in which
  several tags are cleaned to it (`TagReplay.ReplayCountIff`); with distinct cleaned keys always
  (`TagReplay.DistinctReplay`).
- Re-applying a diff's node changes after any list of attempts cut short between ops is exact
  exactly when no update is dropped that the same diff's growth later makes addressable, both in
  a process that keeps its files open (`NodeStoreRuns.ReplayExactIff`) and with restarts
  (`NodeStoreRuns.RestartExactIff`); with ids up to the sanity ceiling it always is, whatever
  range a restart asks for (`NodeStoreRuns.SaneRestartsExact`).
- A node store update of an id of 2^60 or more computes a wrapped offset; an update is a map
  update exactly when it does not wrap onto a record of another coordinate and the bitmap has,
  or the update grows, a bit for it (`NodeStore.UpdateFaithfulIff`).
- After a crash between the two truncations of a grow a write in range can be lost
  (`NodeStore.CrashLosesWrite`). Writing then reading works exactly when the bitmap has the bit
  or this update grows the files (`NodeStore.WriteReadIff`); the bitmap still covers the data
  exactly when the reopened range or the old bitmap does (`NodeStore.CoverageAfterCrashIff`);
  and re-running the diff is exact exactly when every last update finds its bit or a growing
  update before it (`NodeStoreRuns.CrashRerunIff`).
- `include/GeoUtils.h:43-45` says segment sets that never close are dropped. The code closes
  them by repeating the first point (`Stitch.OpenChainEmitted`). All chains close by themselves
  exactly when every point is an end of an even number of segment ends
  (`Stitch.AllCloseIff`); then no ring gets a new edge, and without straight two-point pieces
  only then (`Stitch.NoEdgeAddedIff`). With such pieces the order of the segments decides
  (`Stitch.OrderMatters`).
- The first transaction of a relation change leaves a road without its relation exactly when
  the relation has a road and is deleted or keeps no tag (`Roads.RoadGapIff`). After a crash
  there the orphan stays through the restarted diff until that relation's second transaction is
  reached (`Roads.OrphanIsDue`); whenever a number is recorded there is none
  (`Roads.RoadsAtRecord`).
- A region resolves the planet's coordinate after a change exactly when the change does not
  move or delete a node of the base file or move a promoted one, and a new node's id is one
  the planet store accepts (`RegionalDelta.AgreesIff`).
- A change keeps a region's row and tags of a node those of the planet exactly when it is not a
  tagged create, outside the regions, of an id that has a row (`RegionalNodes.NodeKeptIff`).
- Writing the rows of a COPY stream back reproduces it exactly when flags and extension length
  are zero and nothing follows the trailer (`PgCopy.WriteBackIff`); the reader skips those
  eight bytes unread.

## Model

| member | source | states |
|---|---|---|
| Replication.CrashExact | src/Replicator.cpp:125-150 | In every run with any crashes, between commits or inside a store write and its growth, in which every node update committed or cut short finds room as the plain store does: when a number is recorded it is the successor of the previous one and the node store and all tables equal the crash-free application of every diff up to it; no diff may read what only a later change of it first writes |
| Replication.CrashExactOrdered | src/Replicator.cpp:125-150 | The same for diffs that list nodes before ways before relations |
| Replication.CrashExactCovered | src/Replicator.cpp:125-150 | The same without asking that updates find room: from files whose bitmap covers the data, with ids up to the ceiling and no crash between the two truncations of a grow |
| Replication.RunStaysCovered | src/OSMMMap.cpp:548-577 | In every run without such a crash a bitmap that covers the data keeps covering it, through growth and reopening with any range |
| Replication.CaughtUpIsCanonical | src/Replicator.cpp:324-361 | From a covering bitmap, with ids up to the ceiling, catching up applies each diff from the next to the last available, once and in turn, as the crash-free application does |
| RecordedExact.RecordedExactIff | src/Replicator.cpp:125-150 | Over every run of type-ordered diffs with ids up to the ceiling and any crashes, those between the two truncations included, from any sizes: all recorded states are the crash-free ones if and only if in each recorded attempt every last update of a node finds room |
| RecordedExact.RecordIff | src/Replicator.cpp:125-150 | One record, after exact ones: the state is crash-free if and only if every last update of that attempt found room |
| RecordedExact.EndIsExactIff | src/Replicator.cpp:83-94 | An attempt at its end has the crash-free world if and only if every last update of a node found room, whatever earlier attempts left |
| RecordedExact.CommitTracks | src/DeltaApplier.cpp:127-150 | Each committed step keeps what is known of an attempt on files that may be short: coordinates exact or absent, and no cell written that the crash-free run does not write |
| RecordedExact.RoomAtIff | src/OSMMMap.cpp:530-601 | An update in an attempt finds room if and only if the bitmap has its bit when the attempt begins or some update up to it grows the files |
| RecordedExact.LaterDiffLosesNode | src/OSMMMap.cpp:548-577 | A run of two diffs: a crash inside a grow in the first, re-run and recorded exactly, after which the second is recorded without its node |
| StoreSteps.CoveredRunIsPlain | src/OSMMMap.cpp:530-601 | From a covering bitmap a diff with ids up to the ceiling runs on the growing files as on the plain store, and the bitmap still covers |
| StoreSteps.CoveredRoom | src/OSMMMap.cpp:530-601 | With a covering bitmap an update finds room if and only if its id is between 0 and the ceiling, or above it and already inside the file |
| Replication.SortedIsSettled | src/DeltaApplier.cpp:160-252 | Steps sorted by the layer they write read nothing that is first written later, from any start |
| Replication.TornStartsOver | src/OSMMMap.cpp:598-600 | A store write torn by the crash, whatever it left in its own cells, does not disturb the next attempt |
| Replication.NothingSkipped | src/Replicator.cpp:324-361 | For any diffs the recorded number changes only by recording the next one; restarts skip and repeat none |
| Replication.ReadsAreFinal | src/DeltaApplier.cpp:160-252 | At any point of a restarted diff, what the next step reads is already what the crash-free run read there |
| Replication.FinishedIsExact | src/Replicator.cpp:83-94 | A restarted diff that reaches its end leaves the crash-free world, wherever earlier attempts stopped |
| Delta.ReadsBelow | src/DeltaApplier.cpp:105-125 | Geometry is built only from lower layers: nodes for ways, ways for relations |
| Delta.ReadsOnly | src/DeltaApplier.cpp:105-125 | What a step writes depends on nothing but the coordinates of its references or the way rows of its members |
| Delta.OrderedIsSorted | src/DeltaApplier.cpp:127-150 | Changes listed by type run as steps sorted by the layer they write |
| ChangeRows.NodeEdited | src/DeltaApplier.cpp:160-187 | What a created or modified node leaves: its coordinate for ids from 0 to the ceiling, its row and tags unless it is a create without tags, and nothing else changed |
| ChangeRows.NodeDeleted | src/DeltaApplier.cpp:189-192 | A deleted node loses coordinate, row and tags, and nothing else changes |
| ChangeRows.WayEdited | src/DeltaApplier.cpp:204-216 | An edited way is the geometry of exactly the references found in the store, in order; closed ones go to the areas and leave the ways, others the other way round; without a geometry nothing changes |
| ChangeRows.WayDeleted | src/DeltaApplier.cpp:221-224 | A deleted way is gone from ways and areas, and nothing else changes |
| ChangeRows.RelationEdited | src/DeltaApplier.cpp:232-244 | A relation row joins exactly the members' lines in member order, areas and missing members adding nothing; the road row is the same exactly when it is tagged route=road or has a highway tag and there is a line |
| ChangeRows.RouteOfLines | src/DeltaApplier.cpp:116-123 | A route=road relation whose members are all stored lines is stored as the multi-line of exactly these, and so is its road |
| ChangeRows.RelationDeleted | src/DeltaApplier.cpp:249-252 | A deleted relation loses its row and its road, and nothing else changes |
| Replay.EarlyStartNodes | include/PlanetDownloader.h:39-42 | Applying diffs 1..n again over a world that already includes 1..k leaves all node coordinates, rows and tags as after n, with no order assumed inside diffs; the store is the plain one that drops over-ceiling ids |
| Replay.EarlyStartExact | include/PlanetDownloader.h:39-42 | When no change reads what only a later change first writes, applying diffs 1..n over a world that includes 1..k gives the world after n, in every table |
| Replay.EarlyStartInFiles | include/PlanetDownloader.h:39-42 | Both on the growing files: from a covering bitmap, with ids up to the ceiling, early start is exact for nodes, and for every table when settled |
| Replay.WaysDependOnOrder | include/PlanetDownloader.h:39-42 | An edit of a way and a later move of its node for which re-application rebuilds a different way, across diffs and inside one |
| ReplayIds.IdsSettle | src/DeltaApplier.cpp:160-252 | The check on ids, no node change to a reference after a way nor way change to a member after a relation unless one that certainly writes came before, settles the diffs from every start |
| ReplayIds.EarlyStartByIds | include/PlanetDownloader.h:39-42 | Diffs that pass the check on ids may be started too early, in every table |
| ReplayIds.CrashExactByIds | src/Replicator.cpp:125-150 | Diffs that each pass the check on ids are crash-exact in every run in which the node updates find room |
| ReplayIds.OrderedIdsSettled | src/DeltaApplier.cpp:127-150 | Diffs listed by type pass the check on ids |
| ReplayWays.OnceEditedIff | src/DeltaApplier.cpp:204-216 | For a way edited once, in any world: its rows are the same after a replay if and only if the geometry from the coordinates the replay finds is none, the same, not stored, or there already |
| ReplayWays.LastEditIff | src/DeltaApplier.cpp:204-216 | However often a way is edited, when its last edit builds a geometry both times its rows are the same after a replay if and only if the geometries are, or it keeps no tag |
| ReplayWays.RelationIff | src/DeltaApplier.cpp:232-244 | However often a relation is edited, in any world, it and its road are the same after a replay if and only if the last edit finds the same geometry, or keeps no tag |
| ReplayWays.TwiceIff | src/DeltaApplier.cpp:204-216 | For a way edited once and stored: applying the diffs twice leaves it the same in every world if and only if no reference is first written after the edit or fewer than two references last |
| ReplayWays.CrashNeedsSettledEdits | src/Replicator.cpp:125-150 | When that condition fails for a diff, some world and one crash make the recorded state differ from the crash-free one |
| Integrity.RunsStayConsistent | src/NavDB.cpp:649-776 | In every committed state of every run, crashes included, no tag row lacks its parent and no id is both a way and an area |
| Roads.RoadsAtRecord | src/DeltaApplier.cpp:232-252 | For any diffs, whenever a number is recorded every road id is also a relation id |
| Roads.RoadGapIff | src/DeltaApplier.cpp:232-252 | After the first transaction of a relation change some road lacks its relation if and only if the relation had a road and is deleted or keeps no tag |
| Roads.OrphanIsDue | src/DeltaApplier.cpp:232-252 | In every committed state of every run, crashes included, an orphan road has a change of its relation in the diff being applied or due again, whose second transaction this attempt has not reached |
| Integrity.ChangeKeepsRoads | src/DeltaApplier.cpp:232-252 | A whole change keeps roads a subset of relations |
| Integrity.ClearingMakesReady | src/DeltaApplier.cpp:204-216 | Clearing the other kind first means a way is never stored beside an area of its id |
| TagDiff.DiffExact | src/NavDB.cpp:607-647 | Read as a map the stored rows become exactly the cleaned tags, whatever was stored and whatever collides |
| TagDiff.DiffCount | src/NavDB.cpp:607-647 | How many rows each key has afterwards, from the rows stored and the cleaned tags, for all of both |
| TagDiff.KeyRowsIff | src/NavDB.cpp:607-647 | A key's rows become exactly its cleaned tags if and only if it is dropped or was stored at most once |
| TagDiff.UniqueIff | src/NavDB.cpp:607-647 | One row per key afterwards if and only if the cleaned keys are distinct and none of them was stored more than once |
| TagDiff.RepeatStays | src/NavDB.cpp:607-647 | A key stored twice by an earlier collision stays twice under distinct tags |
| TagDiff.CollisionGrows | src/NavDB.cpp:607-647 | Over any number of re-applications, whatever the order rows are listed in, each adds one row less than the key has cleaned tags |
| TagReplay.ReplayCountIff | src/NavDB.cpp:607-647 | After restarts a key has as many rows as after one undisturbed run of an entity's edits if and only if some edit drops the key or no interrupted attempt got through an edit giving it several tags; it never has fewer |
| TagReplay.DistinctReplay | src/NavDB.cpp:607-647 | With distinct cleaned keys the restarts change no row count, whatever was stored and in whatever order rows are listed |
| TagDiff.CleanedIsKept | src/NavDB.cpp:195-206 | The rows the diff writes and the parent-row test agree, in whatever order the tags are enumerated |
| TagDiff.DiffTags | src/NavDB.cpp:607-647 | The loop over tags, with its inserts, updates and final deletes, computes the diff of the cleaned tags |
| TagText.CleanTag | src/NavDB.cpp:54-66 | A cleaned tag is valid UTF-8 of at most 256 characters, cleaning is idempotent, and valid short text is untouched |
| TagText.WellFormedUntouched | src/NavDB.cpp:21-49 | Cleaning removes nothing from text that is already well formed |
| TagText.CleanFront | src/NavDB.cpp:21-49 | Cleaning keeps every character in front and drops exactly a byte at which none starts |
| TagText.CleanedUnits | src/NavDB.cpp:54-66 | Text that is a list of characters is kept up to its 256th |
| TagText.CleanUtf8 | src/NavDB.cpp:21-49 | The byte loop drops exactly NUL, stray and truncated sequences |
| TagText.CleanTagText | src/NavDB.cpp:54-66 | The truncation loop cuts on a character boundary |
| NavTables.Kept | src/NavDB.cpp:195-206 | An entity keeps a tag set that is empty exactly when no tag survives the filters |
| NavTables.KeptAt | src/NavDB.cpp:108-206 | A surviving tag is kept under its cleaned key with its cleaned value |
| NavTables.KeptFrom | src/NavDB.cpp:108-206 | Every kept key comes from a surviving raw tag |
| TagFilters.TagByTag | src/NavDB.cpp:195-206 | What an entity keeps is what its tags keep, each taken with its height and elevation alone |
| TagFilters.BareBuilding | src/NavDB.cpp:137-142 | A building tag alone is kept exactly for hangar, terminal and control_tower |
| TagFilters.ExcludedAlone | src/NavDB.cpp:108-125 | Provenance keys, the four prefixes and tags that cleaning empties are never kept |
| TagFilters.NodeClutter | src/NavDB.cpp:150-164 | Traffic signs and the listed highway and barrier values are dropped on nodes and only there |
| TagFilters.Nature | src/NavDB.cpp:171-182 | A tree, shrub or rock node is kept exactly with a height or an elevation |
| TagFilters.OtherTag | src/NavDB.cpp:195-206 | Any other tag is kept, cleaned |
| Applier.Database.UpdateEntity | src/NavDB.cpp:649-747 | After an update the parent row exists exactly when a tag survives, the tag rows are the kept tags, and no other entity changes |
| Applier.Database.SyncTags | src/NavDB.cpp:607-647 | Synchronising replaces an entity's tag rows by its kept tags as a map; a kept key has one row, or as many as were stored |
| Applier.Database.DeleteEntity | src/NavDB.cpp:749-776 | Deleting removes the parent and its tag rows and nothing else |
| Applier.Database.GetWay | src/NavDB.cpp:591-605 | A way's geometry comes from the ways table, else from the areas table |
| Applier.HasSurvivorLoop | src/NavDB.cpp:195-206 | The early-exit loop decides whether any tag survives |
| Applier.DeltaApplier.StoreUpdate | src/OSMMMap.cpp:589-601 | A node update grows the sizes as the files would and stores the coordinate exactly when record and bit then exist |
| Applier.DeltaApplier.BuildWayGeom | src/DeltaApplier.cpp:105-114 | Missing nodes are skipped; the rest, in order, decide line or polygon |
| Applier.DeltaApplier.BuildRelationGeom | src/DeltaApplier.cpp:116-123 | Members without a geometry are skipped and only lines are merged |
| Applier.DeltaApplier.UpsertWay | src/DeltaApplier.cpp:204-216 | One way change is its two transactions, with the geometry built before the first |
| Applier.DeltaApplier.UpsertRelation | src/DeltaApplier.cpp:232-244 | One relation change writes the relation, then its road or the road's removal |
| Applier.DeltaApplier.Apply | src/DeltaApplier.cpp:127-150 | The dispatcher runs exactly the steps of a change, in order, and counts it once |
| Applier.DeltaApplier.ApplyFile | src/Replicator.cpp:83-94 | A file is its changes in document order, on the sizes each change leaves |
| Applier.Replicator.DownloadAndApply | src/Replicator.cpp:125-150 | The number is recorded after the diff is applied; an unavailable diff changes nothing |
| Applier.Replicator.CatchUp | src/Replicator.cpp:324-361 | The loop applies consecutive diffs, stops at the first unavailable one, and records exactly what was applied |
| NodeStoreRuns.RunRefines | src/OSMMMap.cpp:530-613 | Every run of update, remove, automatic growth, reopen (any id range whose file is below 2^64 bytes) and crash inside a grow, from fresh files, reads as the plain form of two sizes and a partial map |
| NodeStoreRuns.OnlySaneDrops | src/OSMMMap.cpp:530-601 | Without a crash inside a grow only negative ids and over-ceiling ids past capacity are dropped |
| NodeStoreRuns.OpRefines | src/OSMMMap.cpp:589-613 | Each operation acts on what can be read as on a plain map |
| NodeStoreRuns.ReplayExactIff | src/OSMMMap.cpp:530-601 | Re-running a diff's node changes after every list of attempts cut short between ops, in a process that keeps its files open, is exact if and only if no update was dropped that later growth makes addressable |
| NodeStoreRuns.RestartExactIff | src/OSMMMap.cpp:80-101 | The same when each attempt ends in a restart that reopens the files with the same id range |
| NodeStoreRuns.StopsRerunIff | src/OSMMMap.cpp:80-101 | After attempts cut short anywhere, inside grows included, and reopened with any ranges, re-running is exact if and only if the same last updates find room as without them |
| NodeStoreRuns.SaneRestartsExact | src/OSMMMap.cpp:20-25 | With ids up to the ceiling and no crash inside a grow, re-running is exact after any attempts and restarts with any ranges |
| NodeStoreRuns.RerunIff | src/OSMMMap.cpp:530-613 | From any state that agrees outside the diff, re-running it is exact if and only if the same last updates find room |
| NodeStoreRuns.CrashRerunIff | src/OSMMMap.cpp:548-577 | From a covering bitmap, with ids up to the ceiling: after attempts cut short inside grows and reopened, re-running the diff is exact if and only if every last update finds its bit in the bitmap as left, or some update up to it still grows the files |
| NodeStoreRuns.LandsAtIff | src/OSMMMap.cpp:530-601 | An update of a sane id finds room if and only if the bitmap has its bit at the start or some update up to it grows the files |
| NodeStoreRuns.LastDecides | src/OSMMMap.cpp:589-613 | After a run each id has the value of its last operation, if that found room |
| NodeStore.UpdateEffect | src/OSMMMap.cpp:589-601 | What an update changes at every id, for any bitmap length and wrap-around of the offset included |
| NodeStore.CoveredLands | src/OSMMMap.cpp:589-601 | With a covering bitmap an update lands unless its id is negative, or over the ceiling and past capacity |
| NodeStore.RemoveEffect | src/OSMMMap.cpp:603-613 | What a removal changes at every id, wrap-around included |
| NodeStore.RemovedRecord | src/OSMMMap.cpp:603-613 | A removed record is zeroed and its bit cleared, and every other record and bit stays |
| NodeStore.UpdateFaithfulIff | src/OSMMMap.cpp:589-601 | For any store an update acts as a map update if and only if its offset does not wrap onto another coordinate and its bit is there or grown |
| NodeStore.GrowKeeps | src/OSMMMap.cpp:530-587 | Growth, to a size that need not be a multiple of 16, keeps every readable id and the coverage of the bitmap |
| NodeStore.GrowthIs | src/OSMMMap.cpp:530-587 | The files grow exactly for ids up to the ceiling past the end, to the largest of the record, a quarter more and a million records more, with a bit for each record |
| NodeStore.FileSizes | src/OSMMMap.cpp:80-129 | New and reopened files have 16 bytes and one bit an id; reopening never cuts |
| NodeStore.GrowCrashSafe | src/OSMMMap.cpp:548-577 | A crash at any point of a grow, then a reopen, leaves every set bit covered by data and every id reading as before |
| NodeStore.ReopenKeeps | src/OSMMMap.cpp:80-101 | Reopening with any id range whose file is below 2^64 bytes, even a smaller one, changes no reading and keeps coverage |
| NodeStore.WriteReadIff | src/OSMMMap.cpp:29-33 | For any store a crash can leave, what was written can be read if and only if the bitmap has the bit or this update grows the files |
| NodeStore.CoverageAfterCrashIff | src/OSMMMap.cpp:548-577 | After a half-finished grow and a reopen the bitmap covers the data if and only if the reopened range or the old bitmap does |
| NodeStore.CrashLosesWrite | src/OSMMMap.cpp:548-577 | A fresh store, one half-finished grow and a reopen: a million slots, eight bits, and a write of id 8 is lost |
| NodeStore.BitSetGet | src/OSMMMap.cpp:29-39 | Setting or clearing a bit affects that id alone, and is ignored past the end |
| Bits.OneBit | src/OSMMMap.cpp:29-39 | One bit of a byte changes and the other seven do not |
| Bits.MaskIsShift | src/OSMMMap.cpp:29-39 | The eight masks are the shifted ones the helpers compute |
| Bits.ZeroByte | src/OSMMMap.cpp:486-503 | A byte may be skipped exactly when it has no bit |
| OsmMap.OSMMMap.CreateFile | src/OSMMMap.cpp:116-129 | Fresh files of any range below 2^64 bytes, all zero and nothing populated |
| OsmMap.OSMMMap.Select | src/OSMMMap.cpp:473-480 | Reads the record of an id exactly when its bit is set |
| OsmMap.OSMMMap.GrowMergedIfNeeded | src/OSMMMap.cpp:530-587 | In place, for an id within the ceiling: to the record, a quarter more or a million records more, whichever is largest, which may pass the ceiling; contents kept, new parts zero |
| OsmMap.OSMMMap.Update | src/OSMMMap.cpp:589-601 | In place: grow, write the record, set the bit |
| OsmMap.OSMMMap.Remove | src/OSMMMap.cpp:603-613 | In place: clear the bit and zero the record |
| OsmMap.OSMMMap.ForEachPopulatedRange | src/OSMMMap.cpp:486-503 | The byte-skipping scan visits the populated ids of its byte range, ascending, each once |
| OsmMap.OSMMMap.HighestPopulatedId | src/OSMMMap.cpp:505-516 | Returns the highest set bit, or -1 when there is none |
| Scan.PopulatedExact | src/OSMMMap.cpp:486-503 | A ranged scan is strictly ascending and holds exactly the ids that select finds there |
| Scan.PopulatedBound | src/regional_export.cpp:260-275 | Nothing is populated above the highest set bit, so bounding a scan by it loses nothing |
| Shards.DecodeShard | src/OSMMMap.cpp:356-463 | However the decompressed bytes are cut into pieces, the carry logic yields exactly the whole records in order |
| Shards.ProcessPiece | src/OSMMMap.cpp:380-440 | One piece completes the carried record, takes the whole ones and carries the rest |
| Shards.RecoverInserted | src/OSMMMap.cpp:309-326 | What was inserted into a shard, 24 bytes a record, is what its merge reads back |
| Shards.ParseEncoded | src/OSMMMap.cpp:309-326 | Parsing inverts the record encoding for any list of 64-bit ids |
| Shards.MergeSelects | src/OSMMMap.cpp:328-463 | After merging, select returns an id's last in-capacity record in shard order, else what was there |
| Shards.DealIsPermutation | src/main.cpp:1343-1346 | Round-robin hands every record to exactly one node thread |
| Shards.ThreadCountIrrelevant | src/main.cpp:1343-1346 | With distinct ids the merged store is the same for any numbers of node threads |
| PipelineSafety.LookupsAfterMerge | src/main.cpp:1348-1360 | In every run, when a way thread holds an entry to process, the merge has run and the store holds every node of the file, each once |
| PipelineSafety.RelationsAfterWays | src/main.cpp:747-761 | In every run, once a thread may process relations, every way of the file is written as the full store resolves it |
| PipelineSafety.ArrivesOnce | src/main.cpp:815-819 | Each way thread arrives at the way barrier at most once, and exactly once by the time it returns |
| PipelineSafety.QueuesBounded | src/main.cpp:43-82 | In every run no queue exceeds its configured size |
| PipelineSafety.DoneImported | src/main.cpp:1395-1404 | A finished import has merged all nodes and stored, per thread, exactly the entries it popped, with nothing left in a buffer |
| PipelineSafety.StoredOnce | src/main.cpp:711-813 | In a finished import each way and each relation is in one thread's output, once, and in no other's |
| PipelineSafety.RowsDependOnFileOnly | src/main.cpp:726-734 | With distinct node ids a way's coordinates are those the file determines, whatever the thread counts |
| ImportRows.ImportedRow | src/main.cpp:726-734 | In a finished import the row of every way is the geometry of the coordinates that select on the merged file gives for its references, misses skipped, in reference order |
| ImportRows.FullRow | src/main.cpp:726-734 | With distinct ids, a way whose references are all nodes of the file, in range, is stored through exactly their coordinates, one a reference |
| PipelineProgress.Progress | src/main.cpp:43-82 | Every reachable unfinished state has an enabled step: neither full queues nor barriers deadlock |
| PipelineProgress.ImportEnds | src/main.cpp:1341-1404 | Every schedule is bounded, and one that cannot be extended has finished the import with everything stored |
| PipelineProgress.CanFinish | src/main.cpp:1341-1404 | Whatever has happened so far, some continuation finishes the import with everything stored |
| PipelineProgress.StepLowers | src/main.cpp:1341-1404 | Every step of every thread lowers one rank |
| PipelineProgress.BarrierOpens | src/main.cpp:1224-1224 | When all way threads have arrived the barrier lets any of them through |
| PipelineNodes.MergedIsAll | src/main.cpp:1212-1223 | The store produced by the barrier's completion step is every node, in shard order, each once |
| PipelineNodes.NodeInvKept | src/main.cpp:559-603 | Every step of every thread keeps the node-side invariant: what was dealt to a node thread is its shard, its hand and its queue, in order |
| PipelineWays.WayInvKept | src/main.cpp:696-823 | Every step keeps the way-side invariant: the queue is a gapless run of positions, and each thread's output accounts for all it popped |
| PipelineWays.OwnedIs | src/main.cpp:55-63 | Each popped entry belongs to exactly the thread that popped it |
| RegionalExport.ExportExact | src/regional_db_export.cpp:572-733 | For any region test, chunk count, thread count and schedules, what is gathered for a region is exactly its matching parents and all tag rows of those parents |
| RegionalExport.LocalIsGlobal | src/regional_db_export.cpp:709-733 | A chunk's own local map answers for its window what the whole parent table would |
| RegionalExport.WindowIs | src/regional_db_export.cpp:594-619 | The chunk windows partition the id range |
| WorkPool.PoolComplete | src/regional_db_export.cpp:686-704 | For any thread count and schedule every chunk is processed by its own work, and nothing else is recorded |
| WorkPool.PoolCanFinish | src/regional_db_export.cpp:686-704 | For any thread count some schedule lets every thread finish |
| ExportWork.ParentWork | src/regional_db_export.cpp:623-684 | The classification loop writes to each region exactly its matching rows and outside vertices and records one map entry per matched row |
| ExportWork.ClassifyRow | src/regional_db_export.cpp:651-682 | One row goes to exactly the regions whose test it passes; undecodable and NULL geometries go nowhere |
| ExportWork.LookupBitmask | src/regional_db_export.cpp:400-405 | The binary search returns the mask of the id's entry, or nothing when there is none |
| ExportWork.LookupLocal | src/regional_db_export.cpp:706-707 | Searching the sorted entries is reading the local map |
| ExportWork.ChildWork | src/regional_db_export.cpp:712-733 | The child loop writes exactly the child chunks of the export theorem |
| ExportWork.MergeTempFiles | src/regional_db_export.cpp:436-456 | The joined file is header, every temp file's whole rows verbatim in order, trailer, with the right count; a file cut inside a row ends there |
| ExportWork.FramesBack | src/regional_db_export.cpp:415-431 | The rows read from a temp file are those its writer framed |
| ExportWork.BundleReadsBack | src/regional_db_export.cpp:436-456 | The bundle file joined from the chunks' temp files reads back as exactly their rows in chunk order, ending cleanly |
| NodeExport.ExtraComplete | src/regional_db_export.cpp:647-683 | Every vertex of an exported row outside the region's polygon reaches its extra-vertex file |
| NodeExport.LoadExtraVertices | src/regional_export.cpp:132-150 | The hash maps a coordinate to exactly the regions whose files contain it |
| NodeExport.ClassifyNode | src/regional_export.cpp:322-351 | A node is written to each accepting region once, polygon test and extra mask never both |
| NodeExport.ParallelScanExact | src/regional_export.cpp:271-406 | For any threads, chunks and schedule, a region's file is strictly ascending, holds exactly the accepted populated ids, and looks up as the planet store restricted to them |
| NodeExport.RealBytesLoseNothing | src/regional_export.cpp:271-275 | Stopping the scan after the highest populated id loses nothing |
| NodeExport.RegionFileExact | src/regional_export.cpp:322-351 | A region's file answers exactly for the populated ids the polygon or the mask accepts |
| NodeExport.StoredWayVertices | src/regional_db_export.cpp:484-491 | Collecting the vertices of a stored way gives back the coordinates it was built from |
| NodeExport.WideningComplete | src/regional_db_export.cpp:647-683 | Every node reference of an exported way that resolved in the planet store resolves in the region's node file, to the same words |
| NodeExport.JoinedWideningComplete | src/regional_db_export.cpp:647-683 | The same for every reference of a way among the lines of an exported multi-line, for relations and roads |
| NodeExport.VertexCovered | src/regional_db_export.cpp:484-491 | Any vertex of an exported row, of whatever geometry, that a node of the store stands on is in the region's node file |
| NodeFile.Select | src/RegionalNodeMap.cpp:162-181 | The binary search finds an id exactly when the ascending file has it |
| NodeFile.Merge | src/RegionalNodeMap.cpp:194-234 | The merge loop computes the left-biased merge |
| NodeFile.MergedAscending | src/RegionalNodeMap.cpp:194-234 | Merging ascending files gives an ascending file |
| NodeFile.MergedLookup | src/RegionalNodeMap.cpp:194-234 | Looking up in the merge is the left-biased union |
| NodeFile.MergedCount | src/RegionalNodeMap.cpp:67-75 | The merged file has A plus B minus common records |
| NodeFile.MergeAlgebra | src/RegionalNodeMap.cpp:194-234 | Merging is associative and idempotent, and commutative on files of one snapshot |
| NodeFile.InstalledLookup | src/regional_install.cpp:635-665 | After any installs the node file resolves exactly the ids some bundle carried, to the snapshot's coordinates |
| NodeFile.InstallOrderIrrelevant | src/regional_install.cpp:635-665 | Order and repetition of installs do not change the node file, byte for byte |
| Install.InstallExact | src/regional_install.cpp:336-383 | Installing any list of regions, in any order and with repeats, into an empty database gives exactly the master's matching rows and each row's tags exactly as the master has them |
| EndToEnd.ExportInstallExact | src/regional_install.cpp:336-383 | Any list of regions, each exported from one master by any completed run with its own chunks, threads and schedules, installs into an empty database as exactly the master's matching rows with exactly their tags |
| EndToEnd.InstalledIff | src/regional_install.cpp:336-383 | A master row is installed if and only if its geometry matches one of the regions, as the master has it, and each tag row of those as often as in the master; rows without a decodable geometry never |
| Install.InstallConfluent | src/regional_install.cpp:336-383 | Two lists of the same regions leave the same database |
| Install.InstallKeeps | src/regional_install.cpp:336-383 | One more install extends the installed regions by one, overlap adding nothing twice |
| Install.ChildCount | src/regional_install.cpp:364-383 | Only the tag rows of parents new to the database are added, each once |
| PosixQuoting.RoundTrip | src/regional_install.cpp:146-166 | For every argument vector, shell splitting of the built command, redirection included, gives the vector back |
| PosixQuoting.QuoteTrip | src/regional_install.cpp:146-157 | One quoted argument is read as one word, none of its characters seen unquoted |
| PosixQuoting.QuoteIs | src/regional_install.cpp:146-157 | Single quotes around the argument, and each quote in it closed, escaped and reopened |
| PosixQuoting.QuoteArg | src/regional_install.cpp:146-157 | The quoting loop |
| PosixQuoting.BuildCommand | src/regional_install.cpp:160-166 | The joined command line, with its redirection |
| WindowsQuoting.RoundTrip | src/regional_install.cpp:127-145 | For every argument vector, splitting by the C runtime's backslash and quote rules gives the vector back |
| WindowsQuoting.QuoteTrip | src/regional_install.cpp:127-145 | One quoted argument is read back whole, backslashes before quotes and at the end included |
| WindowsQuoting.QuoteArg | src/regional_install.cpp:127-145 | The quoting loop with its count of pending backslashes |
| RegionalDelta.RunStaysIn | src/RegionalDeltaApplier.cpp:181-304 | Over every run, crashes between transactions included, every stored row of every table matches some installed region |
| RegionalDelta.RunStaysConsistent | src/RegionalDeltaApplier.cpp:181-304 | Over every run no tag row lacks its parent and no id is both way and area |
| RegionalDelta.PromotedResolves | src/RegionalDeltaApplier.cpp:254-262 | A promoted node resolves, to the coordinate it was promoted with, until it is deleted or the process restarts |
| RegionalDelta.UsedNodesSurvive | src/RegionalDeltaApplier.cpp:254-262 | Every node an in-region way resolved still resolves the same after the diff's pending nodes are discarded |
| RegionalDelta.AgreesIff | src/RegionalDeltaApplier.cpp:102-110 | A change keeps region and planet in agreement if and only if it leaves known nodes where they are and new nodes have storable ids |
| RegionalDelta.RunAgrees | src/RegionalDeltaApplier.cpp:102-152 | As long as every change is of that kind, every coordinate the region resolves is the planet store's |
| RegionalDelta.SameCoords | src/RegionalDeltaApplier.cpp:133-143 | A way all of whose nodes the region resolves gets the planet's coordinates |
| RegionalRows.NodeEdited | src/RegionalDeltaApplier.cpp:195-229 | Every written node is remembered for the rest of the diff; a row only inside a region, erased when a modified node is outside |
| RegionalRows.NodeDeleted | src/RegionalDeltaApplier.cpp:231-235 | A deleted node is forgotten and loses its row |
| RegionalRows.WayEdited | src/RegionalDeltaApplier.cpp:239-271 | An edited way is the geometry of the known references, base before overlay before this diff; inside a region stored and its nodes promoted, outside cleared, without a geometry untouched |
| RegionalRows.WayDeleted | src/RegionalDeltaApplier.cpp:273-276 | A deleted way is gone from ways and areas and nothing else changes |
| RegionalRows.RelationEdited | src/RegionalDeltaApplier.cpp:280-299 | A relation inside a region is its members' lines joined, with a road when tagged so; outside both are cleared |
| RegionalRows.RelationDeleted | src/RegionalDeltaApplier.cpp:301-304 | A deleted relation loses its row and its road |
| RegionalTables.RunTablesAgree | src/RegionalDeltaApplier.cpp:181-304 | After any run of harmless diffs, restarts included unless between a way's two transactions, whose ways resolve as fully as on the planet, the region's way and area rows and tags are exactly the planet's that match an installed region |
| RegionalTables.ChangeKeepsAgreement | src/RegionalDeltaApplier.cpp:239-276 | One change keeps that agreement |
| RegionalNodes.NodeKeptIff | src/RegionalDeltaApplier.cpp:195-235 | A change keeps a node's row and tags equal to the planet's, or absent outside the regions, if and only if it is not a tagged create outside the regions of an id that has a row |
| RegionalNodes.RunNodesAgree | src/RegionalDeltaApplier.cpp:181-235 | After any run without such a create, restarts included unless after a node transaction, the region's node rows and tags are exactly the planet's that lie in an installed region |
| RegionalDelta.StaleBase | src/RegionalDeltaApplier.cpp:102-110 | A base-file node that moves keeps its old coordinate in the region |
| RegionalDelta.RunApart | src/RegionalDeltaApplier.cpp:254-262 | The overlay never shadows or repeats the base file |
| RegionalApplier.RegionalDeltaApplier.ResolveNode | src/RegionalDeltaApplier.cpp:102-110 | Base, overlay, pending, in this order, noting what came from pending |
| RegionalApplier.RegionalDeltaApplier.InRegion | src/RegionalDeltaApplier.cpp:112-129 | True exactly when some installed region matches |
| RegionalApplier.RegionalDeltaApplier.BuildWayGeom | src/RegionalDeltaApplier.cpp:133-143 | The geometry of the resolved nodes, and exactly the ids that came from pending |
| RegionalApplier.RegionalDeltaApplier.PromoteHits | src/RegionalDeltaApplier.cpp:254-262 | Exactly the pending nodes the way used move to the overlay |
| RegionalApplier.RegionalDeltaApplier.UpsertWay | src/RegionalDeltaApplier.cpp:239-271 | Out-of-region ways are cleared, in-region ones promoted and stored under one kind |
| RegionalApplier.RegionalDeltaApplier.UpsertRelation | src/RegionalDeltaApplier.cpp:280-299 | Out-of-region relations are cleared, in-region ones stored with or without a road |
| RegionalApplier.RegionalDeltaApplier.ApplyNode | src/RegionalDeltaApplier.cpp:195-235 | Node changes: pending always, a row only inside a region |
| RegionalApplier.RegionalDeltaApplier.Apply | src/RegionalDeltaApplier.cpp:156-179 | Each change does what the region's state model says and is counted once |
| RegionalApplier.RegionalDeltaApplier.FlushDiff | src/RegionalDeltaApplier.cpp:181-191 | Nothing stays pending after a diff |
| PgReader.ReadStream | src/PgCopyBinary.cpp:118-176 | Rows and clean end depend on the bytes alone, for every split into wire chunks |
| PgReader.Reader.Fill | src/PgCopyBinary.cpp:68-92 | Pulling chunks and dropping bytes before the mark changes neither the pending bytes nor the row being parsed |
| PgReader.Reader.ReadHeader | src/PgCopyBinary.cpp:45-57 | Accepts exactly streams of at least 19 bytes with the signature, and skips the other eight bytes |
| PgReader.Reader.Next | src/PgCopyBinary.cpp:118-176 | Returns the next row with its exact bytes and fields, the end, or an error, as the stream means |
| PgReader.Reader.NextField | src/PgCopyBinary.cpp:150-167 | One field; its offset stays right across compaction |
| PgCopy.WriteBackIff | src/PgCopyBinary.cpp:186-213 | Writing the rows of a cleanly ending stream back gives the same bytes if and only if flags and extension length are zero and nothing follows the trailer |
| PgCopy.ReadBack | src/PgCopyBinary.cpp:186-213 | A file written from well-formed rows reads back as those rows and ends cleanly |
| PgCopy.StreamTrip | src/PgCopyBinary.cpp:118-176 | Rows sent in the binary format, of any fields, empty rows included, are read as those fields with their bytes, up to the trailer |
| PgCopy.RowTrip | src/PgCopyBinary.cpp:118-176 | One row, in front of anything |
| PgCopy.Refused | src/PgCopyBinary.cpp:118-176 | Negative counts and lengths other than -1, and bytes that run out, are refused |
| PgCopy.WrittenBytes | src/PgCopyBinary.cpp:186-213 | The written file's literal signature, zero words and trailer |
| PgCopy.DeliveredWellFormed | src/PgCopyBinary.cpp:118-176 | Every delivered row parses back as itself in front of anything |
| PgCopy.WriteAll | src/PgCopyBinary.cpp:186-213 | Header once, rows verbatim, trailer once |
| PgCopy.ReadBigintBE | src/PgCopyBinary.cpp:178-184 | Refuses anything but 8 non-NULL bytes, else the signed big-endian value |
| PgCopy.BigintTrip | src/PgCopyBinary.cpp:178-184 | Every 64-bit id survives big-endian encoding |
| Ewkb.RoundTrip | src/WkbDecode.cpp:60-149 | Decoding any encoded geometry, with or without SRID headers inside, gives the same words and SRID and leaves exactly what followed |
| Ewkb.BodyTrip | src/WkbDecode.cpp:60-149 | The same for the part after the header, nested geometries included |
| Ewkb.HeaderBytes | src/GeoUtils.cpp:61-90 | The literal byte-order, type, SRID-flag and SRID bytes of every geometry |
| Ewkb.WayBytes | src/GeoUtils.cpp:61-90 | The literal bytes of a way's line or one-ring polygon up to its points |
| Ewkb.RingBytes | src/GeoUtils.cpp:191-202 | A ring is its count and 16 little-endian bytes a point |
| WkbCursor.ReadOne | src/WkbDecode.cpp:60-144 | The recursive reader accepts, on every byte string, exactly what the decoding function accepts and stops where it stops |
| WkbCursor.ReadParts | src/WkbDecode.cpp:101-144 | Nested parts of the wrong kind are refused; remaining bytes bound the recursion |
| WkbCursor.Decode | src/WkbDecode.cpp:146-149 | Every byte string is decoded or refused, never read out of bounds |
| WkbCursor.Cursor.U32 | src/WkbDecode.cpp:21-29 | Little-endian 32 bits, or failure without moving |
| WkbCursor.Cursor.F64 | src/WkbDecode.cpp:31-39 | Eight bytes as a word, or failure without moving |
| WkbHex.HexTrip | src/GeoUtils.cpp:34-40 | Hex text decodes to the bytes it was made from |
| WkbHex.LinearTest | src/GeoUtils.cpp:112-120 | Member geometries are kept exactly when the low half of the type word is 2 or 5 |
| WkbHex.WriteWkbRing | src/GeoUtils.cpp:191-202 | Appends the encoded ring |
| WkbHex.WriteWkbPolygon | src/GeoUtils.cpp:205-218 | Appends a polygon with its holes |
| WkbHex.BuildWayHex | src/GeoUtils.cpp:61-90 | A line, or a one-ring polygon when closed with at least 4 points; nothing below two points |
| WkbHex.MergeWayGeoms | src/GeoUtils.cpp:92-137 | Concatenates the linear inputs under one header with their count |
| WkbHex.MergeKeepsLines | src/GeoUtils.cpp:92-137 | Merging keeps exactly the LineString inputs, in order, and decodes to them |
| Geometry.WayVertices | src/GeoUtils.cpp:61-90 | Closing decides the type and never loses or moves a vertex |
| Geometry.MultiLineVertices | src/regional_db_export.cpp:484-491 | The vertices of a multi-line are the points of its lines, all and only |
| Geometry.MultiPolygonVertices | src/regional_db_export.cpp:484-491 | The vertices of a multi-polygon are the points of its rings, all and only |
| Stitch.StitchRings | src/GeoUtils.cpp:140-188 | The nested loops compute the rings of the chains and end on every list of non-empty segments |
| Stitch.Scan | src/GeoUtils.cpp:156-174 | One scan attaches the first segment touching the chain's end, forwards or reversed, and removes it |
| Stitch.GrowChain | src/GeoUtils.cpp:148-175 | A chain grows until complete or stuck |
| Stitch.SegmentsConserved | src/GeoUtils.cpp:140-188 | Every segment is consumed by exactly one chain |
| Stitch.EdgesConserved | src/GeoUtils.cpp:140-188 | Before closing, the undirected edges of all chains are those of the input, with multiplicity |
| Stitch.RingsSound | src/GeoUtils.cpp:177-186 | Every ring is closed, has at least 4 points, and is one chain's segments plus at most one closing edge |
| Stitch.ChainsMaximal | src/GeoUtils.cpp:148-175 | A chain that did not complete touches no segment left to later chains |
| Stitch.AllCloseIff | src/GeoUtils.cpp:140-188 | Every chain closes by itself if and only if every point is an end of an even number of segment ends, whatever order and direction the segments come in |
| Stitch.NoEdgeAddedIff | include/GeoUtils.h:43-45 | Even ends are enough for no ring to get an edge the input lacks; without straight two-point pieces they are also needed |
| Stitch.OrderMatters | src/GeoUtils.cpp:148-186 | With straight two-point pieces the order decides: the same two pieces are emitted as a ring or dropped |
| Stitch.OpenChainEmitted | src/GeoUtils.cpp:177-186 | Two segments that never close are emitted as a closed ring |
| Multipolygon.BuildMultipolygon | src/main.cpp:621-692 | The hex of the assembled polygon or multipolygon, holes assigned by bounding box, or nothing without an outer ring |
| Multipolygon.BoxOf | src/main.cpp:672-679 | The loop computes the smallest and largest coordinates as doubles compare |
| Multipolygon.InBoxIff | src/main.cpp:681-686 | A point is in the box if and only if the ring has points on all four sides of it |
| Doubles.BetweenIff | src/main.cpp:672-686 | A value lies between the smallest and largest of a list if and only if some element is on either side |
| Doubles.OrderIsNumeric | src/main.cpp:672-686 | Finite words compare as the IEEE 754 numbers they stand for |
| Multipolygon.AssembledTrip | src/main.cpp:655-691 | The stored geometry decodes to the assembled shells and holes |
| Multipolygon.ShellsComplete | src/main.cpp:646-649 | Every shell and hole is a closed ring of at least 4 points |
| MultipolygonRings.RingPoints | src/main.cpp:635-649 | Every point of a shell is a point of a member that is not inner, and of a hole of one that is |
| MultipolygonRings.ClosedMultipolygon | src/main.cpp:635-692 | With closed members the shells are the coordinates of those that are not inner, in member order, and the holes those of the inner ones: all for one shell, by bounding box for several |
| Multipolygon.HoleKeptIff | src/main.cpp:672-686 | With several shells a hole is kept if and only if some shell's box holds its first point |

## Left out

- Replay.EarlyStartNodes: the store is the plain one, which drops ids above the ceiling even when the file already reaches them; Replay.EarlyStartInFiles has the growing files, for ids up to the ceiling.
- Replication.CrashExact: every committed update is asked to find room; that the last update of each node is enough, and needed, is RecordedExact.RecordedExactIff, for type-ordered diffs.
- RecordedExact.RecordedExactIff: diffs list nodes before ways before relations and hold no id above the ceiling. In other diffs a way may read a node between two of its updates, so the last updates alone do not decide; NodeStoreRuns.StopsRerunIff has all ids, for the store alone.
- NodeStoreRuns.RunRefines: operations on ids from 2^60 - 1 up, whose offsets wrap, are left to NodeStore.UpdateEffect and NodeStore.UpdateFaithfulIff.
- NodeStoreRuns.OpRefines: as for NodeStoreRuns.RunRefines.
- NodeStoreRuns.RestartExactIff: files with at least one record, as every reopened file has.
- RegionalTables.RunTablesAgree: a restart between the two transactions of one way, or after a node transaction for RegionalNodes.RunNodesAgree, is followed by a time in which the region is ahead of the planet it is compared with. Relations and roads are built from the region's own ways, so they agree with the planet's only where all members do; not stated.
- Applier.Database.GetWay: a database error, which the code reports as no geometry, so that a relation could commit with missing members; transactions that fail end the attempt in the model.
- Applier.Replicator.CatchUp: the stop flag that ends the loop between two diffs; a stop there is a run that ends.
- NavTables.Kept: entities with two surviving raw keys cleaned to one key are excluded by the type of tags; the map they leave depends on the enumeration order. TagDiff.DiffCount, TagDiff.UniqueIff and TagDiff.CollisionGrows say what happens to them.
- NavTables.KeptAt: as for NavTables.Kept.
- NavTables.KeptFrom: as for NavTables.Kept.
- Applier.Database.UpdateEntity: as for NavTables.Kept; tag rows are seen as a map, their multiplicity is in Applier.Database.SyncTags.
- Applier.Database.SyncTags: as for NavTables.Kept.
- ReplayWays.RelationIff: the condition compares the geometries the two runs build; on the diffs alone ReplayIds.IdsSettle is sufficient only.
- ReplayWays.TwiceIff: the condition on the diffs alone is for ways edited once. For ways edited several times and for relations the exact conditions ReplayWays.LastEditIff and ReplayWays.RelationIff speak of the geometries built; on ids alone ReplayIds.IdsSettle is sufficient only.
- ReplayWays.LastEditIff: a last edit that builds a geometry in one run only is left to ReplayWays.OnceEditedIff.
- Shards.MergeSelects: record ids from 2^60 - 1 up, whose offset wraps in the merge, are excluded.
- Shards.ThreadCountIrrelevant: as for Shards.MergeSelects.
- NodeStore.UpdateEffect: excludes the one id modulo 2^60 whose record would end at 2^64, as NodeStore.RemoveEffect and NodeStore.UpdateFaithfulIff do; there the C++ writes outside the mapping.
- NodeStore.RemoveEffect: as for NodeStore.UpdateEffect.
- NodeStore.UpdateFaithfulIff: as for NodeStore.UpdateEffect.
- Stitch.StitchRings: the C++ reads the last point of an empty segment list entry, which is undefined; callers skip empty segments, and so does the model. Comparison of doubles is equality of words, so -0.0, 0.0 and NaN are not distinguished as in C++.
- WindowsQuoting.RoundTrip: the C runtime reads the program name by a simpler rule, and `cmd.exe` interprets metacharacters and the redirection before it; neither is modelled. Strings hold no NUL.
- WkbHex.MergeKeepsLines: member geometries that are themselves multi-lines are copied as they are by the code and would not decode as parts; the tables the members come from hold lines and polygons.
- ImportPipeline: fresh imports only; the resume modes, the progress line and exceptions in threads are not modelled. A queue's condition variables are atomic guarded steps. The branch of the node thread that forwards a non-node is unreachable, since the producer pushes only nodes to node queues, and has no counterpart.
- Region bitmasks are sets of region numbers; the 32-region width of the masks is not modelled.
- Bulk import chooses way or area by tags (`isArea`), the delta appliers by closure; only the latter is modelled.
- Geometry of node rows: bulk import stores projected points, both delta appliers store degrees; rows carry both values and the region test uses the projected one, as the code does.
- Crashes inside one transaction: each is one step. A crash loses no completed write; lost `msync` is outside the model.
- LZ4, zlib, expat and protobuf decoding, PROJ projection, polygon tests, `std::sort`, SQL execution, files and sockets: parameters or library contracts.
- The header of a regional node file (magic, version, name, bounds) and its memory mapping.
- COPY batches that fail and are retried row by row (`tryCopyBatch`): depends on server error text.
- Airports, FAA, airspace, terrain and magnetic-model loaders, small tables and airport tags of a bundle, and the SQL convenience functions.
