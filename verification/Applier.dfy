/**
 The objects behind the step model: the database client (src/NavDB.cpp), the applier that
 runs one change (src/DeltaApplier.cpp) and the catch-up loop of the polling process
 (src/Replicator.cpp). Each method is proved to do exactly what the step model says.
 */
module Applier {
  import opened Core
  import opened Geometry
  import opened NavTables
  import opened TagDiff
  import opened Delta
  import opened Replication
  import opened StoreSteps
  import NodeStoreRuns

  /** The five parent tables and the five tag tables, rows grouped by entity. */
  class Database {
    var parents: map<(Kind, int), Row>
    var tagRows: map<(Kind, int), seq<Tag>>
    ghost var tables: World

    constructor ()
      ensures Valid() && tables == map[]
    {
      parents, tagRows := map[], map[];
      tables := map[];
    }

    ghost predicate Valid()
      reads this
    {
      && (forall c :: Get(tables, c) == Content(parents, tagRows, c))
    }

    static function Content(parents: map<(Kind, int), Row>, tagRows: map<(Kind, int), seq<Tag>>, c: Cell): NavTables.Content {
      match c
      case CoordCell(_) => Absent
      case RowCell(k, id) => if (k, id) in parents then Stored(parents[(k, id)]) else Absent
      case TagCell(k, id) =>
        if (k, id) in tagRows && AsMap(tagRows[(k, id)]) != map[] then Tagged(AsMap(tagRows[(k, id)])) else Absent
    }

    /** `updateNode`, `updateWay`, `updateArea`, `updateRelation` or `updateRoad`. */
    method UpdateEntity(kind: Kind, id: int, row: Row, tags: Tags)
      requires Valid()
      modifies this
      ensures Valid()
      ensures tables == Put(old(tables), Upsert(kind, id, row, tags))
    {
      hide Put, Get, Kept, Survives, HasSurvivingTag, Content, Upsert, AsMap, KeyUnique, NavTables.NoCollision;
      var e := (kind, id);
      var survives := HasSurvivorLoop(tags, kind.NodeKind?);
      if survives {
        parents := parents[e := row];
      } else {
        parents := parents - {e};
      }
      var rows := if e in tagRows then tagRows[e] else [];
      rows := SyncTags(rows, tags, kind.NodeKind?);
      tagRows := tagRows[e := rows];
      tables := Put(tables, Upsert(kind, id, row, tags));
      UpdatedContent(old(parents), old(tagRows), kind, id, row, tags, rows, old(tables));
    }

    /** An entity's tag rows, brought in line with its tags; a key stored twice stays twice. */
    static method SyncTags(before: seq<Tag>, tags: Tags, isNode: bool) returns (rows: seq<Tag>)
      ensures AsMap(rows) == Kept(tags, isNode)
      ensures forall k :: Count(rows, k) == if k !in Kept(tags, isNode) then 0 else if Count(before, k) > 1 then Count(before, k) else 1
    {
      hide Kept, Survives, TagDiff.Diff, AsMap, KeyUnique, TagDiff.Count, NavTables.NoCollision;
      ghost var order: seq<string>;
      rows, order := DiffTags(before, tags, isNode);
      CleanedIsKept(tags, order, isNode);
      DiffExact(before, Cleaned(tags, order));
      UniqueCounts(Cleaned(tags, order));
      forall k ensures Count(rows, k) == if k !in Kept(tags, isNode) then 0 else if Count(before, k) > 1 then Count(before, k) else 1 {
        DiffCount(before, Cleaned(tags, order), k);
        CountKey(Cleaned(tags, order), k);
      }
    }

    method DeleteEntity(kind: Kind, id: int)
      requires Valid()
      modifies this
      ensures Valid()
      ensures tables == Put(old(tables), Erase(kind, id))
    {
      hide Put, Get, AsMap, KeyUnique;
      tagRows := tagRows - {(kind, id)};
      parents := parents - {(kind, id)};
      tables := Put(tables, Erase(kind, id));
    }

    method GetWay(id: int) returns (g: Option<Geom>)
      requires Valid()
      ensures g == NavTables.GetWay(tables, id)
    {
      assert Get(tables, RowCell(WayKind, id)) == Content(parents, tagRows, RowCell(WayKind, id));
      assert Get(tables, RowCell(AreaKind, id)) == Content(parents, tagRows, RowCell(AreaKind, id));
      if (WayKind, id) in parents {
        var row := parents[(WayKind, id)];
        g := if row.GeomRow? then row.shape else None;
      } else if (AreaKind, id) in parents {
        var row := parents[(AreaKind, id)];
        g := if row.GeomRow? then row.shape else None;
      } else {
        g := None;
      }
    }
  }

  /** `hasSurvivingTag` as executed. */
  method HasSurvivorLoop(tags: map<string, string>, isNode: bool) returns (b: bool)
    ensures b == HasSurvivingTag(tags, isNode)
  {
    hide Survives;
    var rest := tags.Keys;
    while rest != {}
      invariant rest <= tags.Keys
      invariant forall k :: k in tags.Keys - rest ==> !Survives(tags, k, isNode)
      decreases rest
    {
      var k :| k in rest;
      if Survives(tags, k, isNode) { return true; }
      rest := rest - {k};
    }
    return false;
  }

  lemma UpdatedContent(parents: map<(Kind, int), Row>, tagRows: map<(Kind, int), seq<Tag>>,
                       kind: Kind, id: int, row: Row, tags: Tags, rows: seq<Tag>, w: World)
    requires forall c :: Get(w, c) == Database.Content(parents, tagRows, c)
    requires AsMap(rows) == Kept(tags, kind.NodeKind?)
    ensures var e := (kind, id);
            var p := if Kept(tags, kind.NodeKind?) != map[] then parents[e := row] else parents - {e};
            forall c :: Get(Put(w, Upsert(kind, id, row, tags)), c) == Database.Content(p, tagRows[e := rows], c)
  {
    hide Put, Get, Kept, AsMap, NavTables.NoCollision;
  }

  /** The world is the coordinate store and the tables side by side. */
  ghost predicate Split(w: World, coords: map<int, Coord>, tables: World) {
    forall c: Cell :: Get(w, c) ==
      if c.CoordCell? then (if c.id in coords then At(coords[c.id]) else Absent) else Get(tables, c)
  }

  lemma SplitPut(w: World, coords: map<int, Coord>, tables: World, kind: Kind, id: int, patch: map<Cell, Content>)
    requires Split(w, coords, tables) && patch.Keys == {RowCell(kind, id), TagCell(kind, id)}
    ensures Split(Put(w, patch), coords, Put(tables, patch))
  {
    hide Get, Put;
  }

  lemma SplitStore(w: World, coords: map<int, Coord>, tables: World, n: NodeEntry, f: Files)
    requires Split(w, coords, tables)
    ensures Split(Exec(Label(Store(n), f), w), if FindsRoom(f, n.id) then coords[n.id := n.at] else coords, tables)
  {
    hide FindsRoom, Get, Put;
    StoreWrites(n, FindsRoom(f, n.id), w);
  }

  lemma StoreWrites(n: NodeEntry, lands: bool, w: World)
    ensures Writes(StoreCoord(n, lands), w) == if lands then map[CoordCell(n.id) := At(n.at)] else map[]
  {}

  /** Room is found exactly when the id fits the files as the update leaves them. */
  lemma RoomAfter(n: NodeEntry, f: Files)
    ensures FindsRoom(f, n.id) <==> n.id >= 0 && NodeStoreRuns.HasRoom(FilesAfter(Store(n), f), n.id)
  {
    hide NodeStoreRuns.GrowPlan, NodeStoreRuns.HasRoom;
  }

  class DeltaApplier {
    const db: Database
    var coords: map<int, Coord>
    var files: Files
    var created: nat
    var modified: nat
    var deleted: nat
    ghost var world: World

    constructor (database: Database, sizes: Files)
      requires database.Valid() && forall id :: Get(database.tables, CoordCell(id)) == Absent
      ensures db == database && Valid() && world == database.tables && files == sizes
      ensures created == modified == deleted == 0
    {
      db := database;
      coords, files := map[], sizes;
      created, modified, deleted := 0, 0, 0;
      world := database.tables;
    }

    ghost predicate Valid()
      reads this, db
    {
      db.Valid() && Split(world, coords, db.tables)
    }

    /** `osmmap_.update`: stored when the files have, or grow, room for the id. */
    method StoreUpdate(n: NodeEntry)
      requires Valid()
      modifies this`coords, this`files, this`world
      ensures Valid() && world == Exec(Label(Store(n), old(files)), old(world))
      ensures files == FilesAfter(Store(n), old(files))
    {
      hide FilesAfter, FindsRoom, Label, Exec, Split;
      SplitStore(world, coords, db.tables, n, files);
      RoomAfter(n, files);
      world := Exec(Label(Store(n), files), world);
      files := FilesAfter(Store(n), files);
      if n.id >= 0 && NodeStoreRuns.HasRoom(files, n.id) { coords := coords[n.id := n.at]; }
    }

    method StoreRemove(id: int)
      requires Valid()
      modifies this`coords, this`world
      ensures Valid() && world == Exec(ForgetCoord(id), old(world))
    {
      if id >= 0 { coords := coords - {id}; }
      world := Exec(ForgetCoord(id), world);
    }

    method Select(id: int) returns (at: Option<Coord>)
      requires Valid()
      ensures at == match Get(world, CoordCell(id)) case At(c) => Some(c) case _ => None
    {
      assert Get(world, CoordCell(id)) == if id in coords then At(coords[id]) else Absent;
      at := if id in coords then Some(coords[id]) else None;
    }

    method BuildWayGeom(way: WayEntry) returns (shape: Option<Geom>)
      requires Valid()
      ensures shape == WayShape(world, way)
    {
      var points: seq<Coord> := [];
      assert way.refs[..|way.refs|] == way.refs;
      for i := 0 to |way.refs|
        invariant points == Resolved(world, way.refs[..i])
      {
        ResolvedSnoc(world, way.refs[..i], way.refs[i]);
        assert way.refs[..i + 1] == way.refs[..i] + [way.refs[i]];
        var at := Select(way.refs[i]);
        if at.Some? { points := points + [at.value]; }
      }
      shape := BuildWay(points);
    }

    method BuildRelationGeom(r: RelationEntry) returns (shape: Option<Geom>)
      requires Valid()
      ensures shape == RelationShape(world, r)
    {
      var geoms: seq<Geom> := [];
      assert r.members[..|r.members|] == r.members;
      for i := 0 to |r.members|
        invariant geoms == MemberShapes(world, r.members[..i])
      {
        MemberSnoc(world, r.members[..i], r.members[i]);
        assert r.members[..i + 1] == r.members[..i] + [r.members[i]];
        SameWay(world, db.tables, r.members[i]);
        var g := db.GetWay(r.members[i]);
        if g.Some? { geoms := geoms + [g.value]; }
      }
      shape := MergeLines(geoms);
    }

    /** One `updateX` transaction that happens to be step `s`. */
    method RunUpsert(kind: Kind, id: int, row: Row, tags: Tags, ghost s: Step)
      requires Valid() && Writes(s, world) == Upsert(kind, id, row, tags)
      modifies this`world, db
      ensures Valid() && world == Exec(s, old(world))
    {
      hide Writes, Upsert, Split, Put, Get, NavTables.NoCollision;
      SplitPut(world, coords, db.tables, kind, id, Upsert(kind, id, row, tags));
      db.UpdateEntity(kind, id, row, tags);
      world := Exec(s, world);
    }

    method RunErase(kind: Kind, id: int, ghost s: Step)
      requires Valid() && Writes(s, world) == Erase(kind, id)
      modifies this`world, db
      ensures Valid() && world == Exec(s, old(world))
    {
      hide Writes, Erase, Split, Put, Get;
      SplitPut(world, coords, db.tables, kind, id, Erase(kind, id));
      db.DeleteEntity(kind, id);
      world := Exec(s, world);
    }

    method UpsertWay(way: WayEntry)
      requires Valid()
      modifies this`world, db
      ensures Valid() && world == Exec(PutWay(way), Exec(ClearOther(way), old(world)))
    {
      hide Exec, Valid, WayShape, Writes, Upsert, Erase, NavTables.NoCollision;
      var shape := BuildWayGeom(way);
      ShapeKept(way, world);
      if shape.None? {
        NoShapeNoWrites(way, world);
        return;
      }
      WayWrites(way, world);
      WayWrites(way, Exec(ClearOther(way), world));
      var kind := if shape.value.Polygon? then AreaKind else WayKind;
      RunErase(if shape.value.Polygon? then WayKind else AreaKind, way.id, ClearOther(way));
      RunUpsert(kind, way.id, GeomRow(way.name, shape), way.tags, PutWay(way));
    }

    method UpsertRelation(r: RelationEntry)
      requires Valid()
      modifies this`world, db
      ensures Valid() && world == Exec(PutRoad(r), Exec(PutRelation(r), old(world)))
    {
      hide Exec, Valid, RelationShape, Writes, Upsert, Erase, IsRoad, NavTables.NoCollision;
      var shape := BuildRelationGeom(r);
      MembersKept(r, world);
      RelationWrites(r, world);
      RelationWrites(r, Exec(PutRelation(r), world));
      RunUpsert(RelationKind, r.id, GeomRow(r.name, shape), r.tags, PutRelation(r));
      if IsRoad(r.tags) && shape.Some? {
        RunUpsert(RoadKind, r.id, GeomRow(r.name, shape), r.tags, PutRoad(r));
      } else {
        RunErase(RoadKind, r.id, PutRoad(r));
      }
    }

    method Count(a: Action)
      modifies this`created, this`modified, this`deleted
      ensures created == old(created) + if a.Create? then 1 else 0
      ensures modified == old(modified) + if a.Modify? then 1 else 0
      ensures deleted == old(deleted) + if a.Delete? then 1 else 0
    {
      match a
      case Create => created := created + 1;
      case Modify => modified := modified + 1;
      case Delete => deleted := deleted + 1;
    }

    /** The dispatcher: a change does exactly its steps, in order, as the files take them. */
    method Apply(c: Change)
      requires Valid()
      modifies this, db
      ensures Valid() && world == RunTo(Labelled(StepsOf(c), old(files)), |StepsOf(c)|, old(world))
      ensures files == FilesTo(StepsOf(c), |StepsOf(c)|, old(files))
      ensures created + modified + deleted == old(created + modified + deleted) + 1
    {
      hide Exec, StepsOf, Split, RunTo, FilesTo, Label;
      match c {
        case NodeChange(_, _) => ApplyNode(c);
        case WayChange(_, _) => ApplyWay(c); NoStores(c, files);
        case RelationChange(_, _) => ApplyRelation(c); NoStores(c, files);
      }
      Count(c.action);
    }

    method ApplyNode(c: Change)
      requires Valid() && c.NodeChange?
      modifies this`coords, this`files, this`world, db
      ensures Valid() && world == RunTo(Labelled(StepsOf(c), old(files)), |StepsOf(c)|, old(world))
      ensures files == FilesTo(StepsOf(c), |StepsOf(c)|, old(files))
    {
      hide Exec, Valid, Writes, Upsert, Erase, RunTo, NavTables.NoCollision, FilesTo, Label, Labelled;
      var n := c.node;
      NodeLabels(c, files);
      TwoSteps(Labelled(StepsOf(c), files), world);
      if c.action.Delete? {
        StoreRemove(n.id);
        EraseWrites(NodeKind, n.id, world);
        RunErase(NodeKind, n.id, EraseEntity(NodeKind, n.id));
      } else {
        StoreUpdate(n);
        if !(c.action.Create? && n.tags == map[]) {
          NodeWrites(n, world);
          RunUpsert(NodeKind, n.id, NodeRow(n.name, n.at, n.geog), n.tags, PutNode(n));
        }
      }
    }

    method ApplyWay(c: Change)
      requires Valid() && c.WayChange?
      modifies this`world, db
      ensures Valid() && world == RunTo(StepsOf(c), |StepsOf(c)|, old(world))
    {
      hide Exec, Valid, Writes, Erase, RunTo, NavTables.NoCollision;
      TwoSteps(StepsOf(c), world);
      if c.action.Delete? {
        DeleteBoth(WayKind, AreaKind, c.way.id);
      } else {
        UpsertWay(c.way);
      }
    }

    method ApplyRelation(c: Change)
      requires Valid() && c.RelationChange?
      modifies this`world, db
      ensures Valid() && world == RunTo(StepsOf(c), |StepsOf(c)|, old(world))
    {
      hide Exec, Valid, Writes, Erase, RunTo, NavTables.NoCollision;
      TwoSteps(StepsOf(c), world);
      if c.action.Delete? {
        DeleteBoth(RelationKind, RoadKind, c.relation.id);
      } else {
        UpsertRelation(c.relation);
      }
    }

    method DeleteBoth(first: Kind, second: Kind, id: int)
      requires Valid()
      modifies this`world, db
      ensures Valid() && world == Exec(EraseEntity(second, id), Exec(EraseEntity(first, id), old(world)))
    {
      hide Exec, Valid, Writes, Erase;
      EraseWrites(first, id, world);
      RunErase(first, id, EraseEntity(first, id));
      EraseWrites(second, id, world);
      RunErase(second, id, EraseEntity(second, id));
    }

    /** `applyFile` without a failure: every change of the diff, in document order. */
    method ApplyFile(d: seq<Change>)
      requires Valid()
      modifies this, db
      ensures Valid() && world == ApplyDiffIn(d, old(world), old(files)) && files == FilesAfterDiff(d, old(files))
    {
      hide Exec, Valid, StepsOf, Labelled, FilesTo;
      assert d[..|d|] == d;
      EmptyDiff(world, files);
      for i := 0 to |d|
        invariant Valid() && world == ApplyDiffIn(d[..i], old(world), old(files)) && files == FilesAfterDiff(d[..i], old(files))
      {
        assert d[..i + 1] == d[..i] + [d[i]];
        DiffSnoc(d[..i], d[i], old(world), old(files));
        Apply(d[i]);
      }
    }
  }

  // ---------------------------------------------------------------- lemmas for the methods

  lemma NodeWrites(n: NodeEntry, w: World)
    ensures Writes(PutNode(n), w) == Upsert(NodeKind, n.id, NodeRow(n.name, n.at, n.geog), n.tags)
  {
    hide Upsert;
  }

  lemma EraseWrites(kind: Kind, id: int, w: World)
    ensures Writes(EraseEntity(kind, id), w) == Erase(kind, id)
  {
    hide Erase;
  }

  lemma WayWrites(way: WayEntry, w: World)
    requires WayShape(w, way).Some?
    ensures var g := WayShape(w, way).value;
            && Writes(ClearOther(way), w) == Erase(if g.Polygon? then WayKind else AreaKind, way.id)
            && Writes(PutWay(way), w)
               == Upsert(if g.Polygon? then AreaKind else WayKind, way.id, GeomRow(way.name, Some(g)), way.tags)
  {
    hide Upsert, Erase, WayShape;
  }

  lemma RelationWrites(r: RelationEntry, w: World)
    ensures var shape := RelationShape(w, r); var row := GeomRow(r.name, shape);
            && Writes(PutRelation(r), w) == Upsert(RelationKind, r.id, row, r.tags)
            && Writes(PutRoad(r), w)
               == if IsRoad(r.tags) && shape.Some? then Upsert(RoadKind, r.id, row, r.tags) else Erase(RoadKind, r.id)
  {
    hide Upsert, Erase, RelationShape, IsRoad;
  }

  lemma EmptyDiff(w: World, f: Files)
    ensures ApplyDiffIn([], w, f) == w && FilesAfterDiff([], f) == f
  {}

  /** Only the store write of a node change looks at the files. */
  lemma NodeLabels(c: Change, f: Files)
    requires c.NodeChange?
    ensures var s, l := StepsOf(c), Labelled(StepsOf(c), f);
      && FilesTo(s, |s|, f) == (if c.action.Delete? then f else FilesAfter(Store(c.node), f))
      && (if c.action.Delete? then l == s
          else l[0] == Label(Store(c.node), f) && |l| == |s| && (|s| == 2 ==> l[1] == s[1]))
  {
    hide Label, FilesAfter;
    var s := StepsOf(c);
    assert FilesTo(s, 0, f) == f;
    assert FilesTo(s, 1, f) == FilesAfter(s[0], f);
    assert |s| == 2 ==> FilesTo(s, 2, f) == FilesAfter(s[1], FilesTo(s, 1, f));
    NotStore(s[0], f);
    if |s| == 2 {
      NotStore(s[1], f);
      NotStore(s[1], FilesTo(s, 1, f));
    }
  }

  lemma NotStore(s: Step, f: Files)
    ensures !s.StoreCoord? ==> Label(s, f) == s && FilesAfter(s, f) == f
  {}

  lemma NoStores(c: Change, f: Files)
    requires !c.NodeChange?
    ensures Labelled(StepsOf(c), f) == StepsOf(c) && FilesTo(StepsOf(c), |StepsOf(c)|, f) == f
  {
    hide Label, FilesAfter;
    var s := StepsOf(c);
    assert FilesTo(s, 0, f) == f;
    assert FilesTo(s, 1, f) == FilesAfter(s[0], f);
    assert FilesTo(s, 2, f) == FilesAfter(s[1], FilesTo(s, 1, f));
    NotStore(s[0], f);
    NotStore(s[1], f);
  }

  lemma {:induction false} StepsSnoc(d: seq<Change>, c: Change)
    ensures StepsOfDiff(d + [c]) == StepsOfDiff(d) + StepsOf(c)
  {
    hide StepsOf;
    if d == [] {
      assert d + [c] == [c];
      assert [c][1..] == [];
    } else {
      assert (d + [c])[1..] == d[1..] + [c];
      StepsSnoc(d[1..], c);
      assert StepsOf(d[0]) + (StepsOfDiff(d[1..]) + StepsOf(c)) == (StepsOf(d[0]) + StepsOfDiff(d[1..])) + StepsOf(c);
    }
  }

  lemma DiffSnoc(d: seq<Change>, c: Change, w: World, f: Files)
    ensures var g, n := FilesAfterDiff(d, f), |StepsOf(c)|;
      && ApplyDiffIn(d + [c], w, f) == RunTo(Labelled(StepsOf(c), g), n, ApplyDiffIn(d, w, f))
      && FilesAfterDiff(d + [c], f) == FilesTo(StepsOf(c), n, g)
  {
    hide StepsOf, StepsOfDiff, RunTo, FilesTo, Labelled;
    var a, b := StepsOfDiff(d), StepsOf(c);
    StepsSnoc(d, c);
    LabelledConcat(a, b, f);
    FilesConcat(a, b, |b|, f);
    RunConcat(Labelled(a, f), Labelled(b, FilesTo(a, |a|, f)), |b|, w);
  }

  lemma SameWay(v: World, w: World, id: int)
    requires Get(v, RowCell(WayKind, id)) == Get(w, RowCell(WayKind, id))
    requires Get(v, RowCell(AreaKind, id)) == Get(w, RowCell(AreaKind, id))
    ensures GetWay(v, id) == GetWay(w, id)
  {}

  lemma NoShapeNoWrites(way: WayEntry, w: World)
    requires WayShape(w, way).None?
    ensures Exec(PutWay(way), Exec(ClearOther(way), w)) == w
  {
    hide WayShape;
    forall c ensures Get(Exec(ClearOther(way), w), c) == Get(w, c) {}
    Extensional(Exec(ClearOther(way), w), w);
    forall c ensures Get(Exec(PutWay(way), w), c) == Get(w, c) {}
    Extensional(Exec(PutWay(way), w), w);
  }

  lemma TwoSteps(s: seq<Step>, w: World)
    requires 1 <= |s| <= 2
    ensures RunTo(s, |s|, w) == if |s| == 1 then Exec(s[0], w) else Exec(s[1], Exec(s[0], w))
  {
    hide Exec;
    assert RunTo(s, 0, w) == w;
    assert RunTo(s, 1, w) == Exec(s[0], w);
  }

  // ---------------------------------------------------------------- polling

  /** `poll`'s catch-up pass: diffs in turn, stopping at the first that cannot be applied. */
  class Replicator {
    const applier: DeltaApplier
    var recorded: int
    var stop: bool

    constructor (a: DeltaApplier, sequence: int)
      ensures applier == a && recorded == sequence && !stop
    {
      applier, recorded, stop := a, sequence, false;
    }

    method DownloadAndApply(number: int, diffs: int -> seq<Change>, available: int -> bool) returns (ok: bool)
      requires applier.Valid()
      modifies this`recorded, applier, applier.db
      ensures applier.Valid() && ok == available(number)
      ensures ok ==> recorded == number && applier.world == ApplyDiffIn(diffs(number), old(applier.world), old(applier.files))
      ensures ok ==> applier.files == FilesAfterDiff(diffs(number), old(applier.files))
      ensures !ok ==> recorded == old(recorded) && applier.world == old(applier.world) && applier.files == old(applier.files)
    {
      if !available(number) { return false; }
      applier.ApplyFile(diffs(number));
      recorded := number;
      return true;
    }

    /** What is recorded is exactly what has been applied, up to the first unavailable diff. */
    method CatchUp(remote: int, diffs: int -> seq<Change>, available: int -> bool)
      requires applier.Valid() && !stop
      modifies this, applier, applier.db
      ensures applier.Valid()
      ensures old(recorded) <= recorded
      ensures State(applier.world, applier.files) == ApplyDiffsIn(diffs, old(recorded), old(State(applier.world, applier.files)), recorded)
      ensures forall n :: old(recorded) < n <= recorded ==> available(n)
      ensures stop <==> recorded < remote
      ensures stop ==> !available(recorded + 1)
      ensures recorded <= remote || recorded == old(recorded)
    {
      hide ApplyDiffIn, FilesAfterDiff;
      var number := recorded + 1;
      while number <= remote && !stop
        invariant applier.Valid()
        invariant old(recorded) <= recorded && number == recorded + 1
        invariant State(applier.world, applier.files) == ApplyDiffsIn(diffs, old(recorded), old(State(applier.world, applier.files)), recorded)
        invariant forall n :: old(recorded) < n <= recorded ==> available(n)
        invariant recorded <= remote || recorded == old(recorded)
        invariant stop ==> recorded < remote && !available(recorded + 1)
        decreases remote - number, !stop
      {
        var ok := DownloadAndApply(number, diffs, available);
        if !ok {
          stop := true;
          break;
        }
        number := number + 1;
      }
    }
  }
}
