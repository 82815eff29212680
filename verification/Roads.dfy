/**
 Roads and relations (src/DeltaApplier.cpp, `upsertRelation`, `deleteRelation`): a relation
 change is two transactions, and between them, or after a crash between them, a road may be
 left without its relation.
 */
module Roads {
  import opened Core
  import opened Geometry
  import opened NavTables
  import opened Delta
  import opened StoreSteps
  import opened Replication
  import opened Integrity

  predicate Orphan(w: World, id: int) { Has(w, RoadKind, id) && !Has(w, RelationKind, id) }

  /** The second transaction of a relation change. */
  predicate SettlesRoad(s: Step, id: int) {
    (s.PutRoad? && s.relation.id == id) || s == EraseEntity(RoadKind, id)
  }

  /** The first one. */
  predicate WritesRelation(s: Step, id: int) {
    (s.PutRelation? && s.relation.id == id) || s == EraseEntity(RelationKind, id)
  }

  // ---------------------------------------------------------------- one step, one id

  lemma UpsertRow(kind: Kind, id: int, row: Row, tags: Tags)
    ensures var p := Upsert(kind, id, row, tags)[RowCell(kind, id)];
      (p != Absent <==> HasSurvivingTag(tags, kind.NodeKind?))
  {
    hide HasSurvivingTag, Kept, NavTables.NoCollision;
    assert (Kept(tags, kind.NodeKind?) == map[]) <==> !HasSurvivingTag(tags, kind.NodeKind?);
  }

  /** A step that is neither transaction of the relation leaves both rows alone. */
  lemma OtherCells(s: Step, w: World, id: int)
    ensures !SettlesRoad(s, id) ==> RowCell(RoadKind, id) !in Writes(s, w)
    ensures !WritesRelation(s, id) ==> RowCell(RelationKind, id) !in Writes(s, w)
  {
    hide WayShape, RelationShape, IsRoad, Kept, NavTables.NoCollision, HasSurvivingTag;
  }

  lemma RelationWritten(s: Step, w: World, id: int)
    requires WritesRelation(s, id)
    ensures Has(Exec(s, w), RelationKind, id) <==> s.PutRelation? && HasSurvivingTag(s.relation.tags, false)
  {
    hide WayShape, RelationShape, IsRoad, Upsert, Kept, NavTables.NoCollision, HasSurvivingTag, Get, Exec;
    ExecCell(s, w, RowCell(RelationKind, id));
    if s.PutRelation? {
      UpsertRow(RelationKind, id, GeomRow(s.relation.name, RelationShape(w, s.relation)), s.relation.tags);
    }
  }

  lemma RoadWritten(s: Step, w: World, id: int)
    requires SettlesRoad(s, id) && Has(Exec(s, w), RoadKind, id)
    ensures s.PutRoad? && HasSurvivingTag(s.relation.tags, false)
  {
    hide WayShape, RelationShape, IsRoad, Upsert, Kept, NavTables.NoCollision, HasSurvivingTag, Get, Exec;
    ExecCell(s, w, RowCell(RoadKind, id));
    if s.PutRoad? {
      UpsertRow(RoadKind, id, GeomRow(s.relation.name, RelationShape(w, s.relation)), s.relation.tags);
    }
  }

  lemma Unwritten(s: Step, w: World, id: int)
    ensures !SettlesRoad(s, id) ==> Has(Exec(s, w), RoadKind, id) == Has(w, RoadKind, id)
    ensures !WritesRelation(s, id) ==> Has(Exec(s, w), RelationKind, id) == Has(w, RelationKind, id)
  {
    hide Writes, Exec, Get, SettlesRoad, WritesRelation;
    OtherCells(s, w, id);
    ExecCell(s, w, RowCell(RoadKind, id));
    ExecCell(s, w, RowCell(RelationKind, id));
  }

  /**
   Exactly when the gap between the two transactions opens: the relation has a road, and the
   change deletes it or leaves it no tag that survives the filters.
   */
  lemma RoadGapIff(c: Change, w: World)
    requires c.RelationChange? && RoadsAreRelations(w)
    ensures RoadsAreRelations(Exec(StepsOf(c)[0], w)) <==>
      !(Has(w, RoadKind, c.relation.id) && (c.action.Delete? || !HasSurvivingTag(c.relation.tags, false)))
  {
    hide Exec, HasSurvivingTag, Has, NavTables.NoCollision;
    var s, id := StepsOf(c)[0], c.relation.id;
    assert WritesRelation(s, id) && !SettlesRoad(s, id);
    RelationWritten(s, w, id);
    Unwritten(s, w, id);
    forall other | other != id
      ensures Has(Exec(s, w), RoadKind, other) == Has(w, RoadKind, other)
      ensures Has(Exec(s, w), RelationKind, other) == Has(w, RelationKind, other)
    {
      Unwritten(s, w, other);
    }
  }

  // ---------------------------------------------------------------- steps of a diff

  /** The two transactions of a relation change follow each other. */
  lemma {:induction false} RelationThenRoad(d: seq<Change>, i: nat, id: int)
    requires i < |StepsOfDiff(d)| && WritesRelation(StepsOfDiff(d)[i], id)
    ensures i + 1 < |StepsOfDiff(d)| && SettlesRoad(StepsOfDiff(d)[i + 1], id)
  {
    var head, rest := StepsOf(d[0]), StepsOfDiff(d[1..]);
    assert StepsOfDiff(d) == head + rest;
    if i < |head| {
      assert StepsOfDiff(d)[i] == head[i];
      assert i == 0 && |head| == 2;
      assert StepsOfDiff(d)[1] == head[1];
    } else {
      assert StepsOfDiff(d)[i] == rest[i - |head|];
      RelationThenRoad(d[1..], i - |head|, id);
      assert StepsOfDiff(d)[i + 1] == rest[i + 1 - |head|];
    }
  }

  lemma {:induction false} RoadAfterRelation(d: seq<Change>, i: nat)
    requires i < |StepsOfDiff(d)| && StepsOfDiff(d)[i].PutRoad?
    ensures i > 0 && StepsOfDiff(d)[i - 1] == PutRelation(StepsOfDiff(d)[i].relation)
  {
    var head, rest := StepsOf(d[0]), StepsOfDiff(d[1..]);
    assert StepsOfDiff(d) == head + rest;
    if i < |head| {
      assert StepsOfDiff(d)[i] == head[i];
      assert i == 1 && StepsOfDiff(d)[0] == head[0];
    } else {
      assert StepsOfDiff(d)[i] == rest[i - |head|];
      RoadAfterRelation(d[1..], i - |head|);
      assert StepsOfDiff(d)[i - 1] == rest[i - 1 - |head|];
    }
  }

  lemma {:induction false} RoadStepHasChange(d: seq<Change>, i: nat, id: int)
    requires i < |StepsOfDiff(d)| && SettlesRoad(StepsOfDiff(d)[i], id)
    ensures exists c :: c in d && c.RelationChange? && c.relation.id == id
  {
    var head, rest := StepsOf(d[0]), StepsOfDiff(d[1..]);
    assert StepsOfDiff(d) == head + rest;
    if i < |head| {
      assert StepsOfDiff(d)[i] == head[i];
      assert d[0] in d && d[0].RelationChange? && d[0].relation.id == id;
    } else {
      assert StepsOfDiff(d)[i] == rest[i - |head|];
      RoadStepHasChange(d[1..], i - |head|, id);
      var c :| c in d[1..] && c.RelationChange? && c.relation.id == id;
      assert c in d;
    }
  }

  // ---------------------------------------------------------------- runs

  ghost predicate Due(steps: seq<Step>, i: nat, id: int) {
    exists j :: i <= j < |steps| && SettlesRoad(steps[j], id)
  }

  /** Every orphan's second transaction is still to come in this attempt. */
  ghost predicate OrphansDue(steps: seq<Step>, i: nat, w: World) {
    forall id :: Orphan(w, id) ==> Due(steps, i, id)
  }

  /** A road about to be stored has its relation. */
  predicate RoadReady(steps: seq<Step>, i: nat, w: World) {
    i < |steps| && steps[i].PutRoad? && HasSurvivingTag(steps[i].relation.tags, false) ==> Has(w, RelationKind, steps[i].relation.id)
  }

  lemma StepKeepsDue(d: seq<Change>, i: nat, w: World)
    requires i < |StepsOfDiff(d)| && OrphansDue(StepsOfDiff(d), i, w) && RoadReady(StepsOfDiff(d), i, w)
    ensures OrphansDue(StepsOfDiff(d), i + 1, Exec(StepsOfDiff(d)[i], w))
    ensures RoadReady(StepsOfDiff(d), i + 1, Exec(StepsOfDiff(d)[i], w))
  {
    hide StepsOfDiff, Exec, HasSurvivingTag, Has, NavTables.NoCollision;
    var steps, s := StepsOfDiff(d), StepsOfDiff(d)[i];
    var r := Exec(s, w);
    forall id | Orphan(r, id) ensures Due(steps, i + 1, id) {
      Unwritten(s, w, id);
      if WritesRelation(s, id) {
        RelationThenRoad(d, i, id);
      } else if SettlesRoad(s, id) {
        RoadWritten(s, w, id);
      } else {
        assert Orphan(w, id);
        var j :| i <= j < |steps| && SettlesRoad(steps[j], id);
        assert j != i;
      }
    }
    if i + 1 < |steps| && steps[i + 1].PutRoad? {
      RoadAfterRelation(d, i + 1);
      RelationWritten(s, w, s.relation.id);
    }
  }

  ghost predicate RoadInv(diffs: int -> seq<Change>, m: Machine) {
    var steps := StepsOfDiff(diffs(m.recorded + 1));
    var i := if m.phase.Idle? then 0 else m.phase.done;
    && (m.phase.Applying? ==> m.phase.number == m.recorded + 1 && RoadReady(steps, i, m.world))
    && OrphansDue(steps, i, m.world)
  }

  lemma DueEarlier(steps: seq<Step>, i: nat, w: World, v: World)
    requires OrphansDue(steps, i, w) && forall id :: Orphan(v, id) ==> Orphan(w, id)
    ensures OrphansDue(steps, 0, v)
  {
    forall id | Orphan(v, id) ensures Due(steps, 0, id) {
      assert Due(steps, i, id);
      var j :| i <= j < |steps| && SettlesRoad(steps[j], id);
    }
  }

  lemma NoneDue(steps: seq<Step>, w: World)
    requires OrphansDue(steps, |steps|, w)
    ensures RoadsAreRelations(w)
  {
    hide Has;
    assert forall id :: !Due(steps, |steps|, id);
    forall id | Has(w, RoadKind, id) ensures Has(w, RelationKind, id) { assert !Orphan(w, id); }
  }

  lemma EventKeepsRoads(diffs: int -> seq<Change>, m: Machine, e: Event)
    requires RoadInv(diffs, m) && Enabled(diffs, m, e)
    ensures RoadInv(diffs, Next(diffs, m, e))
    ensures e.Record? ==> RoadsAreRelations(m.world)
  {
    hide StepsOfDiff, Exec, Has, RoadReady, OrphansDue, StoreWrites, Put, Label, FilesAfter, FilesAfterCrash;
    var steps := StepsOfDiff(diffs(m.recorded + 1));
    var next := Next(diffs, m, e);
    match e
    case Begin => FirstReady(diffs(m.recorded + 1), m.world);
    case Commit =>
      var s := steps[m.phase.done];
      StepKeepsDue(diffs(m.recorded + 1), m.phase.done, m.world);
      forall c: Cell | !c.CoordCell? ensures Get(Exec(Label(s, m.files), m.world), c) == Get(Exec(s, m.world), c) {
        LabelTables(s, m.files, m.world, c);
      }
      SameRows(steps, m.phase.done + 1, Exec(s, m.world), next.world);
    case Fail => DueEarlier(steps, if m.phase.Idle? then 0 else m.phase.done, m.world, m.world);
    case Record =>
      NoneDue(steps, m.world);
      NoOrphans(StepsOfDiff(diffs(next.recorded + 1)), m.world);
    case Crash(_, _, _) =>
      TornTables(diffs, m, e);
      SameOrphans(m.world, next.world);
      DueEarlier(steps, if m.phase.Idle? then 0 else m.phase.done, m.world, next.world);
  }

  lemma SameRows(steps: seq<Step>, i: nat, w: World, v: World)
    requires i <= |steps| && OrphansDue(steps, i, w) && RoadReady(steps, i, w)
    requires forall c: Cell :: !c.CoordCell? ==> Get(v, c) == Get(w, c)
    ensures OrphansDue(steps, i, v) && RoadReady(steps, i, v)
  {
    hide Get, HasSurvivingTag;
  }

  lemma SameOrphans(w: World, v: World)
    requires forall c: Cell :: !c.CoordCell? ==> Get(v, c) == Get(w, c)
    ensures forall id :: Orphan(v, id) ==> Orphan(w, id)
  {
    hide Get;
  }

  lemma NoOrphans(steps: seq<Step>, w: World)
    requires RoadsAreRelations(w)
    ensures OrphansDue(steps, 0, w)
  {}

  lemma FirstReady(d: seq<Change>, w: World)
    ensures RoadReady(StepsOfDiff(d), 0, w)
  {
    hide StepsOfDiff, HasSurvivingTag;
    if 0 < |StepsOfDiff(d)| && StepsOfDiff(d)[0].PutRoad? { RoadAfterRelation(d, 0); }
  }

  lemma {:induction false} RunKeepsRoads(diffs: int -> seq<Change>, ms: seq<Machine>, es: seq<Event>, k: nat)
    requires IsRun(diffs, ms, es) && k < |ms| && RoadsAreRelations(ms[0].world)
    ensures RoadInv(diffs, ms[k])
  {
    hide RoadInv, Next, Enabled, RoadsAreRelations;
    if k == 0 {
      StartRoads(diffs, ms[0]);
    } else {
      RunKeepsRoads(diffs, ms, es, k - 1);
      EventKeepsRoads(diffs, ms[k - 1], es[k - 1]);
    }
  }

  lemma StartRoads(diffs: int -> seq<Change>, m: Machine)
    requires m.phase.Idle? && RoadsAreRelations(m.world)
    ensures RoadInv(diffs, m)
  {
    hide StepsOfDiff, RoadsAreRelations, OrphansDue;
    NoOrphans(StepsOfDiff(diffs(m.recorded + 1)), m.world);
  }

  /**
   In every committed state of every run, crashes included, a road without its relation has a
   change of that relation in the diff being applied or, after a crash, due to be applied
   again, and this attempt has not yet reached that change's second transaction.
   */
  lemma OrphanIsDue(diffs: int -> seq<Change>, ms: seq<Machine>, es: seq<Event>, k: nat, id: int)
    requires IsRun(diffs, ms, es) && k < |ms| && RoadsAreRelations(ms[0].world) && Orphan(ms[k].world, id)
    ensures exists c :: c in diffs(ms[k].recorded + 1) && c.RelationChange? && c.relation.id == id
    ensures Due(StepsOfDiff(diffs(ms[k].recorded + 1)), if ms[k].phase.Idle? then 0 else ms[k].phase.done, id)
  {
    hide StepsOfDiff, RoadsAreRelations, Next, Enabled, Has;
    RunKeepsRoads(diffs, ms, es, k);
    var d := diffs(ms[k].recorded + 1);
    var i := if ms[k].phase.Idle? then 0 else ms[k].phase.done;
    assert Due(StepsOfDiff(d), i, id);
    var j :| i <= j < |StepsOfDiff(d)| && SettlesRoad(StepsOfDiff(d)[j], id);
    RoadStepHasChange(d, j, id);
  }

  /** Whenever a sequence number is recorded, every road is also a relation. */
  lemma RoadsAtRecord(diffs: int -> seq<Change>, ms: seq<Machine>, es: seq<Event>, k: nat)
    requires IsRun(diffs, ms, es) && k < |es| && es[k].Record? && RoadsAreRelations(ms[0].world)
    ensures RoadsAreRelations(ms[k + 1].world)
  {
    hide RoadsAreRelations, RoadInv;
    RunKeepsRoads(diffs, ms, es, k);
    EventKeepsRoads(diffs, ms[k], es[k]);
  }
}
