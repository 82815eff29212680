/**
 What every committed state of the tables satisfies, over every run of the replication
 process with any number of crashes (src/DeltaApplier.cpp, src/NavDB.cpp).
 */
module Integrity {
  import opened Core
  import opened Geometry
  import opened NavTables
  import opened Delta
  import opened StoreSteps
  import opened Replication

  predicate Has(w: World, kind: Kind, id: int) { Get(w, RowCell(kind, id)) != Absent }

  /** No tag rows without their parent row. */
  ghost predicate TagsHaveParents(w: World) {
    forall k, id :: Get(w, TagCell(k, id)) != Absent ==> Has(w, k, id)
  }

  /** No id is both a way and an area. */
  ghost predicate WaysApartFromAreas(w: World) {
    forall id :: !(Has(w, WayKind, id) && Has(w, AreaKind, id))
  }

  ghost predicate Consistent(w: World) { TagsHaveParents(w) && WaysApartFromAreas(w) }

  ghost predicate RoadsAreRelations(w: World) {
    forall id :: Has(w, RoadKind, id) ==> Has(w, RelationKind, id)
  }

  /** `PutWay` may run only where the row of the other kind has just been cleared. */
  predicate Ready(s: Step, w: World) {
    s.PutWay? && WayShape(w, s.way).Some? ==>
      !Has(w, if WayShape(w, s.way).value.Polygon? then WayKind else AreaKind, s.way.id)
  }

  // ---------------------------------------------------------------- one step

  /** A patch writes a parent row and its tag rows together: both or neither. */
  predicate Paired(patch: map<Cell, Content>, kind: Kind, id: int) {
    && patch.Keys == {RowCell(kind, id), TagCell(kind, id)}
    && patch[RowCell(kind, id)].Absent? == patch[TagCell(kind, id)].Absent?
  }

  lemma UpsertPaired(kind: Kind, id: int, row: Row, tags: Tags)
    ensures Paired(Upsert(kind, id, row, tags), kind, id)
    ensures Paired(Erase(kind, id), kind, id) && Erase(kind, id)[RowCell(kind, id)].Absent?
  {
    hide Kept;
  }

  lemma PairedKeepsParents(w: World, patch: map<Cell, Content>, kind: Kind, id: int)
    requires TagsHaveParents(w) && Paired(patch, kind, id)
    ensures TagsHaveParents(Put(w, patch))
  {
    hide Get, Put;
    var r := Put(w, patch);
    forall k, i | Get(r, TagCell(k, i)) != Absent ensures Has(r, k, i) {
      if k == kind && i == id {
        assert Get(r, RowCell(k, i)) == patch[RowCell(kind, id)];
      } else {
        assert Get(r, RowCell(k, i)) == Get(w, RowCell(k, i));
        assert Has(w, k, i);
      }
    }
  }

  lemma ErasedStaysApart(w: World, kind: Kind, id: int)
    requires WaysApartFromAreas(w)
    ensures WaysApartFromAreas(Put(w, Erase(kind, id)))
  {
    hide Get, Put;
    var r := Put(w, Erase(kind, id));
    forall i ensures !(Has(r, WayKind, i) && Has(r, AreaKind, i)) {
      assert !(Has(w, WayKind, i) && Has(w, AreaKind, i));
    }
  }

  lemma PutStaysApart(w: World, patch: map<Cell, Content>, kind: Kind, id: int)
    requires WaysApartFromAreas(w) && Paired(patch, kind, id)
    requires kind == WayKind ==> !Has(w, AreaKind, id)
    requires kind == AreaKind ==> !Has(w, WayKind, id)
    ensures WaysApartFromAreas(Put(w, patch))
  {
    hide Get, Put;
    var r := Put(w, patch);
    forall i ensures !(Has(r, WayKind, i) && Has(r, AreaKind, i)) {
      assert !(Has(w, WayKind, i) && Has(w, AreaKind, i));
    }
  }

  lemma PutKeeps(w: World, patch: map<Cell, Content>, kind: Kind, id: int)
    requires Consistent(w) && Paired(patch, kind, id)
    requires kind == WayKind ==> !Has(w, AreaKind, id)
    requires kind == AreaKind ==> !Has(w, WayKind, id)
    ensures Consistent(Put(w, patch))
  {
    hide Get, Put, Paired, TagsHaveParents, WaysApartFromAreas;
    PairedKeepsParents(w, patch, kind, id);
    PutStaysApart(w, patch, kind, id);
  }

  lemma EraseKeeps(w: World, kind: Kind, id: int)
    requires Consistent(w)
    ensures Consistent(Put(w, Erase(kind, id)))
  {
    hide Get, Put, Paired, TagsHaveParents, WaysApartFromAreas, Erase;
    UpsertPaired(kind, id, GeomRow("", None), map[]);
    PairedKeepsParents(w, Erase(kind, id), kind, id);
    ErasedStaysApart(w, kind, id);
  }

  lemma CoordKeeps(w: World, id: int, content: Content)
    requires Consistent(w)
    ensures Consistent(Put(w, map[CoordCell(id) := content])) && Consistent(Put(w, map[]))
  {
    hide Get, Put;
    var r, same := Put(w, map[CoordCell(id) := content]), Put(w, map[]);
    forall k, i ensures Has(r, k, i) == Has(w, k, i) == Has(same, k, i) {}
    forall k, i ensures Get(r, TagCell(k, i)) == Get(w, TagCell(k, i)) == Get(same, TagCell(k, i)) {}
  }

  lemma StepKeepsConsistent(s: Step, w: World)
    requires Consistent(w) && Ready(s, w)
    ensures Consistent(Exec(s, w))
  {
    hide Consistent, Put, Upsert, Erase, Get, WayShape, RelationShape, IsRoad, Paired, NavTables.NoCollision;
    match s
    case StoreCoord(n, _) => CoordKeeps(w, n.id, At(n.at));
    case ForgetCoord(id) => CoordKeeps(w, id, Absent);
    case PutNode(n) =>
      var row := NodeRow(n.name, n.at, n.geog);
      UpsertPaired(NodeKind, n.id, row, n.tags);
      PutKeeps(w, Upsert(NodeKind, n.id, row, n.tags), NodeKind, n.id);
    case EraseEntity(kind, id) => EraseKeeps(w, kind, id);
    case ClearOther(way) =>
      CoordKeeps(w, way.id, Absent);
      EraseKeeps(w, WayKind, way.id);
      EraseKeeps(w, AreaKind, way.id);
    case PutWay(way) =>
      CoordKeeps(w, way.id, Absent);
      if WayShape(w, way).Some? {
        var g := WayShape(w, way).value;
        var kind := if g.Polygon? then AreaKind else WayKind;
        UpsertPaired(kind, way.id, GeomRow(way.name, Some(g)), way.tags);
        PutKeeps(w, Upsert(kind, way.id, GeomRow(way.name, Some(g)), way.tags), kind, way.id);
      }
    case PutRelation(r) =>
      var row := GeomRow(r.name, RelationShape(w, r));
      UpsertPaired(RelationKind, r.id, row, r.tags);
      PutKeeps(w, Upsert(RelationKind, r.id, row, r.tags), RelationKind, r.id);
    case PutRoad(r) =>
      var row := GeomRow(r.name, RelationShape(w, r));
      EraseKeeps(w, RoadKind, r.id);
      UpsertPaired(RoadKind, r.id, row, r.tags);
      PutKeeps(w, Upsert(RoadKind, r.id, row, r.tags), RoadKind, r.id);
  }

  /** Clearing the other kind makes the following `PutWay` ready: the shape cannot change between. */
  lemma ClearingMakesReady(way: WayEntry, w: World)
    ensures Ready(PutWay(way), Exec(ClearOther(way), w))
  {
    hide Kept, BuildWay;
    var r := Exec(ClearOther(way), w);
    WritesOwnLevel(ClearOther(way), w);
    assert forall id :: Get(r, CoordCell(id)) == Get(w, CoordCell(id)) by {
      forall id ensures Get(r, CoordCell(id)) == Get(w, CoordCell(id)) {
        ExecCell(ClearOther(way), w, CoordCell(id));
        assert CellLevel(CoordCell(id)) == 0;
      }
    }
    ResolvedAgrees(r, w, way.refs);
    if WayShape(w, way).Some? {
      ExecCell(ClearOther(way), w, RowCell(if WayShape(w, way).value.Polygon? then WayKind else AreaKind, way.id));
    }
  }

  // ---------------------------------------------------------------- steps of a diff

  /** Every `PutWay` of a diff directly follows its own `ClearOther`. */
  lemma {:induction false} PutFollowsClear(d: seq<Change>, i: nat)
    requires i < |StepsOfDiff(d)| && StepsOfDiff(d)[i].PutWay?
    ensures i > 0 && StepsOfDiff(d)[i - 1] == ClearOther(StepsOfDiff(d)[i].way)
  {
    var head, rest := StepsOf(d[0]), StepsOfDiff(d[1..]);
    assert StepsOfDiff(d) == head + rest;
    if i < |head| {
      assert StepsOfDiff(d)[i] == head[i];
      assert StepsOfDiff(d)[0] == head[0];
    } else {
      assert StepsOfDiff(d)[i] == rest[i - |head|];
      PutFollowsClear(d[1..], i - |head|);
      assert StepsOfDiff(d)[i - 1] == rest[i - 1 - |head|];
    }
  }

  /** The next step of the attempt in flight, if any, is ready. */
  ghost predicate NextReady(diffs: int -> seq<Change>, m: Machine) {
    m.phase.Applying? ==>
      var steps := StepsOfDiff(diffs(m.phase.number));
      m.phase.done < |steps| ==> Ready(steps[m.phase.done], m.world)
  }

  /** A torn store write reaches no table. */
  lemma TornTables(diffs: int -> seq<Change>, m: Machine, e: Event)
    requires e.Crash? && Enabled(diffs, m, e)
    ensures forall c: Cell :: !c.CoordCell? ==> Get(Put(m.world, e.torn), c) == Get(m.world, c)
  {
    hide StepsOfDiff, Label, Get, Put;
    forall c: Cell | !c.CoordCell? ensures Get(Put(m.world, e.torn), c) == Get(m.world, c) {
      assert c !in e.torn;
      PatchElsewhere(m.world, e.torn, c);
    }
  }

  lemma LabelReady(s: Step, f: Files, w: World)
    requires Ready(s, w)
    ensures Ready(Label(s, f), w)
  {
    hide WayShape, FindsRoom;
  }

  lemma SameTables(w: World, r: World)
    requires Consistent(w) && forall c: Cell :: !c.CoordCell? ==> Get(r, c) == Get(w, c)
    ensures Consistent(r)
  {
    hide Get;
    forall k, i ensures Has(r, k, i) == Has(w, k, i) {}
  }

  lemma EventKeepsConsistent(diffs: int -> seq<Change>, m: Machine, e: Event)
    requires Consistent(m.world) && NextReady(diffs, m) && Enabled(diffs, m, e)
    ensures Consistent(Next(diffs, m, e).world) && NextReady(diffs, Next(diffs, m, e))
  {
    hide Consistent, Ready, Exec, StepsOfDiff, Put, Label, FilesAfter, FilesAfterCrash, StoreWrites;
    var next := Next(diffs, m, e);
    if e.Commit? {
      var steps, i := StepsOfDiff(diffs(m.phase.number)), m.phase.done;
      LabelReady(steps[i], m.files, m.world);
      StepKeepsConsistent(StepNow(diffs, m), m.world);
      if i + 1 < |steps| { NextIsReady(diffs(m.phase.number), i, m.world, m.files); }
    } else if e.Begin? {
      var steps := StepsOfDiff(diffs(m.recorded + 1));
      if |steps| > 0 { FirstIsReady(diffs(m.recorded + 1), m.world); }
    } else if e.Crash? {
      TornTables(diffs, m, e);
      SameTables(m.world, next.world);
    }
  }

  lemma NextIsReady(d: seq<Change>, i: nat, w: World, f: Files)
    requires i + 1 < |StepsOfDiff(d)|
    ensures Ready(StepsOfDiff(d)[i + 1], Exec(Label(StepsOfDiff(d)[i], f), w))
  {
    hide StepsOfDiff, Exec;
    if StepsOfDiff(d)[i + 1].PutWay? {
      PutFollowsClear(d, i + 1);
      ClearingMakesReady(StepsOfDiff(d)[i + 1].way, w);
    }
  }

  lemma FirstIsReady(d: seq<Change>, w: World)
    requires 0 < |StepsOfDiff(d)|
    ensures Ready(StepsOfDiff(d)[0], w)
  {
    hide StepsOfDiff;
    if StepsOfDiff(d)[0].PutWay? { PutFollowsClear(d, 0); }
  }

  /** Every committed state of every run, interrupted or not, is consistent. */
  lemma {:induction false} RunsStayConsistent(diffs: int -> seq<Change>, ms: seq<Machine>, es: seq<Event>, k: nat)
    requires IsRun(diffs, ms, es) && k < |ms| && Consistent(ms[0].world)
    ensures Consistent(ms[k].world) && NextReady(diffs, ms[k])
  {
    hide Consistent, Next, Enabled, NextReady;
    if k > 0 {
      RunsStayConsistent(diffs, ms, es, k - 1);
      EventKeepsConsistent(diffs, ms[k - 1], es[k - 1]);
    } else {
      IdleIsReady(diffs, ms[0]);
    }
  }

  lemma IdleIsReady(diffs: int -> seq<Change>, m: Machine)
    requires m.phase.Idle?
    ensures NextReady(diffs, m)
  {}

  // ---------------------------------------------------------------- roads and relations

  /** Between the two transactions of a relation change its road may be left alone. */
  lemma RoadGap(r: RelationEntry, w: World)
    requires Has(w, RoadKind, r.id)
    ensures var mid := RunTo(StepsOf(RelationChange(Delete, r)), 1, w);
            Has(mid, RoadKind, r.id) && !Has(mid, RelationKind, r.id)
  {
    var steps := StepsOf(RelationChange(Delete, r));
    assert RunTo(steps, 1, w) == Exec(steps[0], RunTo(steps, 0, w));
    ExecCell(steps[0], w, RowCell(RoadKind, r.id));
    ExecCell(steps[0], w, RowCell(RelationKind, r.id));
  }

  lemma OtherStepsKeepRoads(s: Step, w: World)
    requires RoadsAreRelations(w) && StepLevel(s) < 2
    ensures RoadsAreRelations(Exec(s, w))
  {
    hide Writes, Exec, Get, StepLevel;
    WritesOwnLevel(s, w);
    var r := Exec(s, w);
    forall id ensures Has(r, RoadKind, id) == Has(w, RoadKind, id) && Has(r, RelationKind, id) == Has(w, RelationKind, id) {
      ExecCell(s, w, RowCell(RoadKind, id));
      ExecCell(s, w, RowCell(RelationKind, id));
      assert CellLevel(RowCell(RoadKind, id)) == 2 && CellLevel(RowCell(RelationKind, id)) == 2;
    }
  }

  /** What the two steps of a relation change do to one id. */
  lemma RelationPairAt(c: Change, w: World, id: int)
    requires c.RelationChange?
    ensures var s := StepsOf(c); var r := Exec(s[1], Exec(s[0], w));
            if id == c.relation.id then Has(r, RoadKind, id) ==> Has(r, RelationKind, id)
            else Has(r, RoadKind, id) == Has(w, RoadKind, id) && Has(r, RelationKind, id) == Has(w, RelationKind, id)
  {
    hide Kept, RelationShape, IsRoad, HasSurvivingTag, NavTables.NoCollision, Exec, Get;
    var s := StepsOf(c);
    var mid := Exec(s[0], w);
    var road, relation := RowCell(RoadKind, id), RowCell(RelationKind, id);
    ExecCell(s[0], w, road);
    ExecCell(s[0], w, relation);
    ExecCell(s[1], mid, road);
    ExecCell(s[1], mid, relation);
  }

  lemma ChangeKeepsRoads(c: Change, w: World)
    requires RoadsAreRelations(w)
    ensures RoadsAreRelations(RunTo(StepsOf(c), |StepsOf(c)|, w))
  {
    hide Writes, Exec, Get;
    var s := StepsOf(c);
    assert RunTo(s, 0, w) == w;
    assert RunTo(s, 1, w) == Exec(s[0], w);
    assert |s| == 2 ==> RunTo(s, 2, w) == Exec(s[1], RunTo(s, 1, w));
    if c.RelationChange? {
      var r := Exec(s[1], Exec(s[0], w));
      forall id | Has(r, RoadKind, id) ensures Has(r, RelationKind, id) {
        RelationPairAt(c, w, id);
        assert Has(w, RoadKind, id) ==> Has(w, RelationKind, id);
      }
    } else {
      OtherStepsKeepRoads(s[0], w);
      if |s| == 2 { OtherStepsKeepRoads(s[1], Exec(s[0], w)); }
    }
  }
}
