/**
 When re-application is exact for one way or relation. The condition in any world, and for a
 way edited once the condition on the diffs alone, for all worlds.
 */
module ReplayWays {
  import opened Core
  import opened Geometry
  import opened NavTables
  import opened Delta
  import opened StoreSteps
  import opened Replication
  import opened Replay

  // ---------------------------------------------------------------- coordinates

  /** What the last store write among the first `n` steps left at a node, if there was one. */
  function CoordOf(steps: seq<Step>, n: nat, id: int): Option<Content>
    requires n <= |steps|
  {
    if n == 0 then None
    else if StoreWrites(steps[n - 1], CoordCell(id)) then Some(Stores(steps[n - 1]))
    else CoordOf(steps, n - 1, id)
  }

  function Stores(s: Step): Content { match s case StoreCoord(n, _) => At(n.at) case _ => Absent }

  lemma StoreStep(s: Step, w: World, id: int)
    ensures Get(Exec(s, w), CoordCell(id)) == if StoreWrites(s, CoordCell(id)) then Stores(s) else Get(w, CoordCell(id))
  {
    hide Get, Put, Exec;
    ExecCell(s, w, CoordCell(id));
    StoreStepWrites(s, w, id);
  }

  lemma StoreStepWrites(s: Step, w: World, id: int)
    ensures CoordCell(id) in Writes(s, w) <==> StoreWrites(s, CoordCell(id))
    ensures StoreWrites(s, CoordCell(id)) ==> Writes(s, w)[CoordCell(id)] == Stores(s)
  {
    hide Kept, WayShape, RelationShape, IsRoad, NavTables.NoCollision;
  }

  /** The node store after any number of steps, from any world. */
  lemma {:induction false} CoordAfter(steps: seq<Step>, n: nat, w: World, id: int)
    requires n <= |steps|
    ensures Get(RunTo(steps, n, w), CoordCell(id)) ==
      match CoordOf(steps, n, id) case Some(x) => x case None => Get(w, CoordCell(id))
  {
    hide Get, Exec, StoreWrites, Stores;
    if n > 0 {
      CoordAfter(steps, n - 1, w, id);
      StoreStep(steps[n - 1], RunTo(steps, n - 1, w), id);
    }
  }

  // ---------------------------------------------------------------- one way

  predicate WayCell(c: Cell, id: int) {
    !c.CoordCell? && c.id == id && (c.kind.WayKind? || c.kind.AreaKind?)
  }

  predicate EditsWay(s: Step, id: int) {
    match s
    case ClearOther(way) => way.id == id
    case PutWay(way) => way.id == id
    case EraseEntity(k, i) => i == id && (k.WayKind? || k.AreaKind?)
    case _ => false
  }

  /** The way is edited by the steps at `p` and by nothing else. */
  ghost predicate OnlyEdit(steps: seq<Step>, p: nat, way: WayEntry) {
    && p + 1 < |steps| && steps[p] == ClearOther(way) && steps[p + 1] == PutWay(way)
    && forall q :: 0 <= q < |steps| && q != p && q != p + 1 ==> !EditsWay(steps[q], way.id)
  }

  function KindOf(g: Geom): Kind { if g.Polygon? then AreaKind else WayKind }

  function OtherKind(g: Geom): Kind { if g.Polygon? then WayKind else AreaKind }

  /** What the edit leaves in the way's four cells when its geometry is `g`. */
  function WayPatch(way: WayEntry, g: Geom): (m: map<Cell, Content>)
    ensures forall c :: WayCell(c, way.id) ==> c in m
  {
    Erase(OtherKind(g), way.id) + Upsert(KindOf(g), way.id, GeomRow(way.name, Some(g)), way.tags)
  }

  lemma OtherStep(s: Step, w: World, c: Cell, id: int)
    requires WayCell(c, id) && !EditsWay(s, id)
    ensures Get(Exec(s, w), c) == Get(w, c)
  {
    hide Kept, WayShape, RelationShape, IsRoad, NavTables.NoCollision, Get, Put;
    ExecCell(s, w, c);
  }

  lemma EditSteps(way: WayEntry, w: World, c: Cell)
    requires WayCell(c, way.id)
    ensures Get(Exec(PutWay(way), Exec(ClearOther(way), w)), c) ==
      match WayShape(w, way) case Some(g) => WayPatch(way, g)[c] case None => Get(w, c)
  {
    hide Upsert, Erase, Writes, Get, Put, WayShape, NavTables.NoCollision, Exec;
    var mid := Exec(ClearOther(way), w);
    ShapeKept(way, w);
    EditWrites(way, w);
    EditWrites(way, mid);
    ExecCell(ClearOther(way), w, c);
    ExecCell(PutWay(way), mid, c);
  }

  lemma EditWrites(way: WayEntry, w: World)
    ensures match WayShape(w, way)
      case Some(g) =>
        && Writes(ClearOther(way), w) == Erase(OtherKind(g), way.id)
        && Writes(PutWay(way), w) == Upsert(KindOf(g), way.id, GeomRow(way.name, Some(g)), way.tags)
      case None => Writes(ClearOther(way), w) == Writes(PutWay(way), w) == map[]
  {
    hide Upsert, Erase, WayShape, NavTables.NoCollision;
  }

  lemma {:induction false} BeforeEdit(steps: seq<Step>, p: nat, way: WayEntry, n: nat, w: World, c: Cell)
    requires OnlyEdit(steps, p, way) && WayCell(c, way.id) && n <= p
    ensures Get(RunTo(steps, n, w), c) == Get(w, c)
  {
    hide Get, Exec, EditsWay, WayCell;
    if n > 0 {
      BeforeEdit(steps, p, way, n - 1, w, c);
      OtherStep(steps[n - 1], RunTo(steps, n - 1, w), c, way.id);
    }
  }

  /** What the way's cells hold once its edit has run. */
  lemma {:induction false} AfterEdit(steps: seq<Step>, p: nat, way: WayEntry, n: nat, w: World, c: Cell)
    requires OnlyEdit(steps, p, way) && WayCell(c, way.id) && p + 2 <= n <= |steps|
    ensures Get(RunTo(steps, n, w), c) ==
      match WayShape(RunTo(steps, p, w), way) case Some(g) => WayPatch(way, g)[c] case None => Get(w, c)
  {
    hide Get, Exec, EditsWay, WayCell, WayShape, WayPatch;
    if n == p + 2 {
      assert RunTo(steps, n, w) == Exec(steps[p + 1], RunTo(steps, p + 1, w));
      assert RunTo(steps, p + 1, w) == Exec(steps[p], RunTo(steps, p, w));
      EditSteps(way, RunTo(steps, p, w), c);
      BeforeEdit(steps, p, way, p, w, c);
    } else {
      AfterEdit(steps, p, way, n - 1, w, c);
      OtherStep(steps[n - 1], RunTo(steps, n - 1, w), c, way.id);
    }
  }

  // ---------------------------------------------------------------- any world

  /**
   The coordinates a replay finds at the edit when it starts from the world after `at` steps:
   those written before the edit as in the first run, the others as the first run left them.
   */
  function AgainCoords(steps: seq<Step>, p: nat, at: nat, w: World, refs: seq<int>): seq<Coord>
    requires p <= |steps| && at <= |steps|
  {
    if refs == [] then []
    else
      var x := match CoordOf(steps, p, refs[0]) case Some(y) => y case None => Get(RunTo(steps, at, w), CoordCell(refs[0]));
      (match x case At(c) => [c] case _ => []) + AgainCoords(steps, p, at, w, refs[1..])
  }

  lemma {:induction false} AgainIsResolved(steps: seq<Step>, p: nat, at: nat, w: World, refs: seq<int>)
    requires p <= |steps| && at <= |steps|
    ensures Resolved(RunTo(steps, p, RunTo(steps, at, w)), refs) == AgainCoords(steps, p, at, w, refs)
  {
    hide Get, RunTo, CoordOf;
    if refs != [] {
      CoordAfter(steps, p, RunTo(steps, at, w), refs[0]);
      AgainIsResolved(steps, p, at, w, refs[1..]);
    }
  }

  /** Steps of the first run up to the edit leave it the same coordinates. */
  lemma {:induction false} EarlyAgain(steps: seq<Step>, p: nat, at: nat, w: World, refs: seq<int>)
    requires at <= p <= |steps|
    ensures Resolved(RunTo(steps, p, w), refs) == AgainCoords(steps, p, at, w, refs)
  {
    hide Get, RunTo, CoordOf;
    if refs != [] {
      CoordAfter(steps, p, w, refs[0]);
      CoordAfter(steps, at, w, refs[0]);
      if CoordOf(steps, p, refs[0]).None? { NoneBefore(steps, at, p, refs[0]); }
      EarlyAgain(steps, p, at, w, refs[1..]);
    }
  }

  lemma {:induction false} NoneBefore(steps: seq<Step>, n: nat, m: nat, id: int)
    requires n <= m <= |steps| && CoordOf(steps, m, id).None?
    ensures CoordOf(steps, n, id).None?
  {
    if n < m { NoneBefore(steps, n, m - 1, id); }
  }

  ghost predicate SameAgain(steps: seq<Step>, at: nat, w: World, id: int)
    requires at <= |steps|
  {
    forall c :: WayCell(c, id) ==>
      Get(RunTo(steps, |steps|, RunTo(steps, at, w)), c) == Get(RunTo(steps, |steps|, w), c)
  }

  /** The replayed edit builds nothing, or the same geometry, or what it stores is there already. */
  ghost predicate Harmless(way: WayEntry, first: Option<Geom>, again: Option<Geom>, w: World) {
    || again.None?
    || first == again
    || (first.Some? && !HasSurvivingTag(way.tags, false))
    || (first.None? && forall c :: WayCell(c, way.id) ==> WayPatch(way, again.value)[c] == Get(w, c))
  }

  lemma SamePatchIff(way: WayEntry, g: Geom, h: Geom)
    ensures (forall c :: WayCell(c, way.id) ==> WayPatch(way, g)[c] == WayPatch(way, h)[c])
       <==> g == h || !HasSurvivingTag(way.tags, false)
  {
    hide HasSurvivingTag, NavTables.NoCollision, WayPatch;
    if HasSurvivingTag(way.tags, false) {
      assert WayCell(RowCell(KindOf(g), way.id), way.id);
      StoredPatch(way, g);
      StoredPatch(way, h);
    } else {
      forall c | WayCell(c, way.id) ensures WayPatch(way, g)[c] == Absent == WayPatch(way, h)[c] {
        BarePatch(way, g, c);
        BarePatch(way, h, c);
      }
    }
  }

  /** With a surviving tag the row of the geometry's own kind holds it, the other kind's is gone. */
  lemma StoredPatch(way: WayEntry, g: Geom)
    requires HasSurvivingTag(way.tags, false)
    ensures WayCell(RowCell(WayKind, way.id), way.id) && WayCell(RowCell(AreaKind, way.id), way.id)
    ensures WayPatch(way, g)[RowCell(KindOf(g), way.id)] == Stored(GeomRow(way.name, Some(g)))
    ensures WayPatch(way, g)[RowCell(OtherKind(g), way.id)] == Absent
  {
    hide Kept, HasSurvivingTag, NavTables.NoCollision;
    assert (Kept(way.tags, false) == map[]) <==> !HasSurvivingTag(way.tags, false);
  }

  lemma BarePatch(way: WayEntry, g: Geom, c: Cell)
    requires !HasSurvivingTag(way.tags, false) && WayCell(c, way.id)
    ensures WayPatch(way, g)[c] == Absent
  {
    hide Kept, HasSurvivingTag, NavTables.NoCollision;
    assert (Kept(way.tags, false) == map[]) <==> !HasSurvivingTag(way.tags, false);
  }

  /**
   Exactly when a way edited once is the same after its diffs are applied again, from the
   world after any `at` of their steps: the geometry built from the coordinates the replay
   finds is harmless.
   */
  lemma OnceEditedIff(steps: seq<Step>, p: nat, way: WayEntry, at: nat, w: World)
    requires OnlyEdit(steps, p, way) && p < |steps| && at <= |steps| && at != p + 1
    ensures SameAgain(steps, at, w, way.id) <==>
      Harmless(way, WayShape(RunTo(steps, p, w), way), BuildWay(AgainCoords(steps, p, at, w, way.refs)), w)
  {
    hide RunTo, OnlyEdit, WayCell, WayPatch, BuildWay, AgainCoords, HasSurvivingTag, Get, NavTables.NoCollision, Resolved;
    var n, v := |steps|, RunTo(steps, at, w);
    EditInside(steps, p, way);
    AgainIsResolved(steps, p, at, w, way.refs);
    var first, again := WayShape(RunTo(steps, p, w), way), WayShape(RunTo(steps, p, v), way);
    forall c | WayCell(c, way.id)
      ensures Get(RunTo(steps, n, w), c) == match first case Some(g) => WayPatch(way, g)[c] case None => Get(w, c)
      ensures Get(RunTo(steps, n, v), c) == match again case Some(g) => WayPatch(way, g)[c] case None => Get(v, c)
      ensures Get(v, c) == if at <= p then Get(w, c) else Get(RunTo(steps, n, w), c)
    {
      CellsOf(steps, p, way, at, w, c);
    }
    if at <= p {
      EarlyAgain(steps, p, at, w, way.refs);
    } else if first.Some? && again.Some? {
      SamePatchIff(way, first.value, again.value);
    }
  }

  lemma CellsOf(steps: seq<Step>, p: nat, way: WayEntry, at: nat, w: World, c: Cell)
    requires OnlyEdit(steps, p, way) && at <= |steps| && at != p + 1 && WayCell(c, way.id)
    ensures var n, v := |steps|, RunTo(steps, at, w);
      && Get(RunTo(steps, n, w), c) == (match WayShape(RunTo(steps, p, w), way) case Some(g) => WayPatch(way, g)[c] case None => Get(w, c))
      && Get(RunTo(steps, n, v), c) == (match WayShape(RunTo(steps, p, v), way) case Some(g) => WayPatch(way, g)[c] case None => Get(v, c))
      && Get(v, c) == if at <= p then Get(w, c) else Get(RunTo(steps, n, w), c)
  {
    hide RunTo, WayPatch, EditsWay, WayShape, Get;
    var v := RunTo(steps, at, w);
    AfterEdit(steps, p, way, |steps|, w, c);
    AfterEdit(steps, p, way, |steps|, v, c);
    if at <= p { BeforeEdit(steps, p, way, at, w, c); } else { AfterEdit(steps, p, way, at, w, c); }
  }

  /** The last edit of a way that may have been edited before. */
  ghost predicate LastEdit(steps: seq<Step>, p: nat, way: WayEntry) {
    && p + 1 < |steps| && steps[p] == ClearOther(way) && steps[p + 1] == PutWay(way)
    && forall q :: p + 1 < q < |steps| ==> !EditsWay(steps[q], way.id)
  }

  lemma {:induction false} AfterLastEdit(steps: seq<Step>, p: nat, way: WayEntry, n: nat, w: World, c: Cell)
    requires LastEdit(steps, p, way) && WayCell(c, way.id) && p + 2 <= n <= |steps| && WayShape(RunTo(steps, p, w), way).Some?
    ensures Get(RunTo(steps, n, w), c) == WayPatch(way, WayShape(RunTo(steps, p, w), way).value)[c]
  {
    hide Get, Exec, EditsWay, WayCell, WayShape, WayPatch;
    if n == p + 2 {
      assert RunTo(steps, n, w) == Exec(steps[p + 1], RunTo(steps, p + 1, w));
      assert RunTo(steps, p + 1, w) == Exec(steps[p], RunTo(steps, p, w));
      EditSteps(way, RunTo(steps, p, w), c);
    } else {
      AfterLastEdit(steps, p, way, n - 1, w, c);
      OtherStep(steps[n - 1], RunTo(steps, n - 1, w), c, way.id);
    }
  }

  /**
   However often a way is edited: when its last edit builds a geometry in the first run and
   again, the way is the same after a replay exactly when the two geometries are, or when the
   edit keeps no tag.
   */
  lemma LastEditIff(steps: seq<Step>, p: nat, way: WayEntry, at: nat, w: World)
    requires LastEdit(steps, p, way) && p < |steps| && at <= |steps|
    requires WayShape(RunTo(steps, p, w), way).Some? && BuildWay(AgainCoords(steps, p, at, w, way.refs)).Some?
    ensures SameAgain(steps, at, w, way.id) <==>
      WayShape(RunTo(steps, p, w), way) == BuildWay(AgainCoords(steps, p, at, w, way.refs)) || !HasSurvivingTag(way.tags, false)
  {
    hide RunTo, WayCell, WayPatch, BuildWay, AgainCoords, HasSurvivingTag, Get, NavTables.NoCollision, Resolved, EditsWay;
    var v := RunTo(steps, at, w);
    AgainIsResolved(steps, p, at, w, way.refs);
    var first, again := WayShape(RunTo(steps, p, w), way).value, WayShape(RunTo(steps, p, v), way).value;
    forall c | WayCell(c, way.id)
      ensures Get(RunTo(steps, |steps|, w), c) == WayPatch(way, first)[c] && Get(RunTo(steps, |steps|, v), c) == WayPatch(way, again)[c]
    {
      AfterLastEdit(steps, p, way, |steps|, w, c);
      AfterLastEdit(steps, p, way, |steps|, v, c);
    }
    SamePatchIff(way, first, again);
  }

  // ---------------------------------------------------------------- relations

  predicate RelationCell(c: Cell, id: int) {
    !c.CoordCell? && c.id == id && (c.kind.RelationKind? || c.kind.RoadKind?)
  }

  predicate EditsRelation(s: Step, id: int) {
    match s
    case PutRelation(r) => r.id == id
    case PutRoad(r) => r.id == id
    case EraseEntity(k, i) => i == id && (k.RelationKind? || k.RoadKind?)
    case _ => false
  }

  ghost predicate LastRelationEdit(steps: seq<Step>, p: nat, r: RelationEntry) {
    && p + 1 < |steps| && steps[p] == PutRelation(r) && steps[p + 1] == PutRoad(r)
    && forall q :: p + 1 < q < |steps| ==> !EditsRelation(steps[q], r.id)
  }

  /** What a relation change leaves in its four cells. */
  function RelationPatch(r: RelationEntry, shape: Option<Geom>): (m: map<Cell, Content>)
    ensures forall c :: RelationCell(c, r.id) ==> c in m
  {
    Upsert(RelationKind, r.id, GeomRow(r.name, shape), r.tags)
      + (if IsRoad(r.tags) && shape.Some? then Upsert(RoadKind, r.id, GeomRow(r.name, shape), r.tags) else Erase(RoadKind, r.id))
  }

  lemma OtherRelationStep(s: Step, w: World, c: Cell, id: int)
    requires RelationCell(c, id) && !EditsRelation(s, id)
    ensures Get(Exec(s, w), c) == Get(w, c)
  {
    hide Kept, WayShape, RelationShape, IsRoad, NavTables.NoCollision, Get, Put;
    ExecCell(s, w, c);
  }

  lemma RelationWrites(r: RelationEntry, w: World)
    ensures Writes(PutRelation(r), w) == Upsert(RelationKind, r.id, GeomRow(r.name, RelationShape(w, r)), r.tags)
    ensures Writes(PutRoad(r), w) ==
      if IsRoad(r.tags) && RelationShape(w, r).Some? then Upsert(RoadKind, r.id, GeomRow(r.name, RelationShape(w, r)), r.tags)
      else Erase(RoadKind, r.id)
  {
    hide Upsert, Erase, RelationShape, IsRoad, NavTables.NoCollision;
  }

  lemma RelationSteps(r: RelationEntry, w: World, c: Cell)
    requires RelationCell(c, r.id)
    ensures Get(Exec(PutRoad(r), Exec(PutRelation(r), w)), c) == RelationPatch(r, RelationShape(w, r))[c]
  {
    hide Upsert, Erase, Writes, Get, Put, RelationShape, NavTables.NoCollision, Exec, IsRoad;
    var mid := Exec(PutRelation(r), w);
    MembersKept(r, w);
    RelationWrites(r, w);
    RelationWrites(r, mid);
    ExecCell(PutRelation(r), w, c);
    ExecCell(PutRoad(r), mid, c);
  }

  lemma {:induction false} AfterRelation(steps: seq<Step>, p: nat, r: RelationEntry, n: nat, w: World, c: Cell)
    requires LastRelationEdit(steps, p, r) && RelationCell(c, r.id) && p + 2 <= n <= |steps|
    ensures Get(RunTo(steps, n, w), c) == RelationPatch(r, RelationShape(RunTo(steps, p, w), r))[c]
  {
    hide Get, Exec, EditsRelation, RelationCell, RelationShape, RelationPatch;
    if n == p + 2 {
      assert RunTo(steps, n, w) == Exec(steps[p + 1], RunTo(steps, p + 1, w));
      assert RunTo(steps, p + 1, w) == Exec(steps[p], RunTo(steps, p, w));
      RelationSteps(r, RunTo(steps, p, w), c);
    } else {
      AfterRelation(steps, p, r, n - 1, w, c);
      OtherRelationStep(steps[n - 1], RunTo(steps, n - 1, w), c, r.id);
    }
  }

  ghost predicate SameRelationAgain(steps: seq<Step>, at: nat, w: World, id: int)
    requires at <= |steps|
  {
    forall c :: RelationCell(c, id) ==>
      Get(RunTo(steps, |steps|, RunTo(steps, at, w)), c) == Get(RunTo(steps, |steps|, w), c)
  }

  lemma RelationPatchIff(r: RelationEntry, g: Option<Geom>, h: Option<Geom>)
    ensures (forall c :: RelationCell(c, r.id) ==> RelationPatch(r, g)[c] == RelationPatch(r, h)[c])
       <==> g == h || !HasSurvivingTag(r.tags, false)
  {
    hide HasSurvivingTag, NavTables.NoCollision, RelationPatch;
    if HasSurvivingTag(r.tags, false) {
      assert RelationCell(RowCell(RelationKind, r.id), r.id);
      StoredRelation(r, g);
      StoredRelation(r, h);
    } else {
      forall c | RelationCell(c, r.id) ensures RelationPatch(r, g)[c] == Absent == RelationPatch(r, h)[c] {
        BareRelation(r, g, c);
        BareRelation(r, h, c);
      }
    }
  }

  lemma StoredRelation(r: RelationEntry, g: Option<Geom>)
    requires HasSurvivingTag(r.tags, false)
    ensures RelationCell(RowCell(RelationKind, r.id), r.id)
    ensures RelationPatch(r, g)[RowCell(RelationKind, r.id)] == Stored(GeomRow(r.name, g))
  {
    hide Kept, HasSurvivingTag, NavTables.NoCollision, IsRoad;
    assert (Kept(r.tags, false) == map[]) <==> !HasSurvivingTag(r.tags, false);
  }

  lemma BareRelation(r: RelationEntry, g: Option<Geom>, c: Cell)
    requires !HasSurvivingTag(r.tags, false) && RelationCell(c, r.id)
    ensures RelationPatch(r, g)[c] == Absent
  {
    hide Kept, HasSurvivingTag, NavTables.NoCollision, IsRoad;
    assert (Kept(r.tags, false) == map[]) <==> !HasSurvivingTag(r.tags, false);
  }

  /**
   Relations, however often edited, in any world: the relation and its road are the same after
   a replay exactly when the last edit finds the same member geometries, or keeps no tag.
   */
  lemma RelationIff(steps: seq<Step>, p: nat, r: RelationEntry, at: nat, w: World)
    requires LastRelationEdit(steps, p, r) && p < |steps| && at <= |steps|
    ensures SameRelationAgain(steps, at, w, r.id) <==>
      RelationShape(RunTo(steps, p, w), r) == RelationShape(RunTo(steps, p, RunTo(steps, at, w)), r) || !HasSurvivingTag(r.tags, false)
  {
    hide RunTo, RelationCell, RelationPatch, HasSurvivingTag, Get, NavTables.NoCollision, RelationShape, EditsRelation;
    var v := RunTo(steps, at, w);
    forall c | RelationCell(c, r.id)
      ensures Get(RunTo(steps, |steps|, w), c) == RelationPatch(r, RelationShape(RunTo(steps, p, w), r))[c]
      ensures Get(RunTo(steps, |steps|, v), c) == RelationPatch(r, RelationShape(RunTo(steps, p, v), r))[c]
    {
      AfterRelation(steps, p, r, |steps|, w, c);
      AfterRelation(steps, p, r, |steps|, v, c);
    }
    RelationPatchIff(r, RelationShape(RunTo(steps, p, w), r), RelationShape(RunTo(steps, p, v), r));
  }

  // ---------------------------------------------------------------- all worlds

  /** The node is first written after the edit. */
  predicate Late(steps: seq<Step>, p: nat, id: int)
    requires p <= |steps|
  {
    CoordOf(steps, p, id).None? && CoordOf(steps, |steps|, id).Some?
  }

  /** The steps do not take the node away from a replayed edit. */
  predicate Lasts(steps: seq<Step>, p: nat, id: int)
    requires p <= |steps|
  {
    match CoordOf(steps, p, id)
    case Some(x) => x.At?
    case None => CoordOf(steps, |steps|, id).None? || CoordOf(steps, |steps|, id).value.At?
  }

  /** How many references a replayed edit can resolve at most. */
  function Lasting(steps: seq<Step>, p: nat, refs: seq<int>): nat
    requires p <= |steps|
  {
    if refs == [] then 0 else (if Lasts(steps, p, refs[0]) then 1 else 0) + Lasting(steps, p, refs[1..])
  }

  /** The diffs alone: no reference is first written after the edit, or too few last. */
  ghost predicate EditSettled(steps: seq<Step>, p: nat, way: WayEntry)
    requires p <= |steps|
  {
    Lasting(steps, p, way.refs) < 2 || forall id :: id in way.refs ==> !Late(steps, p, id)
  }

  lemma {:induction false} AtMostLasting(steps: seq<Step>, p: nat, w: World, refs: seq<int>)
    requires p <= |steps|
    ensures |AgainCoords(steps, p, |steps|, w, refs)| <= Lasting(steps, p, refs)
  {
    hide Get, RunTo, CoordOf;
    if refs != [] {
      CoordAfter(steps, |steps|, w, refs[0]);
      AtMostLasting(steps, p, w, refs[1..]);
    }
  }

  lemma {:induction false} SettledAgain(steps: seq<Step>, p: nat, w: World, refs: seq<int>)
    requires p <= |steps| && forall id :: id in refs ==> !Late(steps, p, id)
    ensures AgainCoords(steps, p, |steps|, w, refs) == Resolved(RunTo(steps, p, w), refs)
  {
    hide Get, RunTo, CoordOf;
    if refs != [] {
      assert !Late(steps, p, refs[0]);
      CoordAfter(steps, p, w, refs[0]);
      CoordAfter(steps, |steps|, w, refs[0]);
      SettledAgain(steps, p, w, refs[1..]);
    }
  }

  /** A coordinate other than `c`. */
  function Elsewhere(c: Coord): (d: Coord)
    ensures d != c
  {
    if c.x == 0 then Coord(1, c.y) else Coord(0, c.y)
  }

  function Placed(steps: seq<Step>, p: nat, id: int): Coord
    requires p <= |steps|
  {
    if Late(steps, p, id) then
      match CoordOf(steps, |steps|, id).value case At(c) => Elsewhere(c) case _ => Coord(0, 0)
    else Coord(0, 0)
  }

  /** A world in which every late reference stands elsewhere than the steps will put it. */
  function BadWorld(steps: seq<Step>, p: nat, refs: seq<int>): World
    requires p <= |steps|
  {
    map id | id in refs :: CoordCell(id) := At(Placed(steps, p, id))
  }

  lemma BadWorldAt(steps: seq<Step>, p: nat, refs: seq<int>, id: int)
    requires p <= |steps| && id in refs
    ensures Get(BadWorld(steps, p, refs), CoordCell(id)) == At(Placed(steps, p, id))
  {
    hide CoordOf, Placed;
  }

  /** At one reference: present in the first run unless taken away, and elsewhere if late. */
  lemma BadRef(steps: seq<Step>, p: nat, refs: seq<int>, id: int)
    requires p <= |steps| && id in refs
    ensures var w := BadWorld(steps, p, refs);
      var u, v := Get(RunTo(steps, p, w), CoordCell(id)), Get(RunTo(steps, p, RunTo(steps, |steps|, w)), CoordCell(id));
      && (v.At? <==> Lasts(steps, p, id)) && (v.At? ==> u.At?) && (Late(steps, p, id) ==> u.At? && u != v)
  {
    hide Get, RunTo, CoordOf, BadWorld;
    var w := BadWorld(steps, p, refs);
    BadWorldAt(steps, p, refs, id);
    CoordAfter(steps, p, w, id);
    CoordAfter(steps, |steps|, w, id);
    CoordAfter(steps, p, RunTo(steps, |steps|, w), id);
    CoordContent(steps, |steps|, id);
    CoordContent(steps, p, id);
  }

  lemma {:induction false} CoordContent(steps: seq<Step>, n: nat, id: int)
    requires n <= |steps|
    ensures CoordOf(steps, n, id).Some? ==> CoordOf(steps, n, id).value.At? || CoordOf(steps, n, id).value == Absent
  {
    if n > 0 { CoordContent(steps, n - 1, id); }
  }

  /** Losing or moving a reference is seen in the resolved list. */
  lemma {:induction false} ListsDiffer(u: World, v: World, refs: seq<int>)
    requires forall id :: id in refs ==> Get(v, CoordCell(id)).At? ==> Get(u, CoordCell(id)).At?
    ensures |Resolved(v, refs)| <= |Resolved(u, refs)|
    ensures (exists id :: id in refs && Get(u, CoordCell(id)).At? && Get(u, CoordCell(id)) != Get(v, CoordCell(id)))
      ==> Resolved(u, refs) != Resolved(v, refs)
  {
    hide Get;
    if refs != [] {
      var r := refs[0];
      ListsDiffer(u, v, refs[1..]);
      assert r in refs;
      var hu := match Get(u, CoordCell(r)) case At(c) => [c] case _ => [];
      var hv := match Get(v, CoordCell(r)) case At(c) => [c] case _ => [];
      if Resolved(u, refs) == Resolved(v, refs) {
        Cancel(hu, Resolved(u, refs[1..]), hv, Resolved(v, refs[1..]));
        forall id | id in refs && Get(u, CoordCell(id)).At? ensures Get(u, CoordCell(id)) == Get(v, CoordCell(id)) {
          if id != r { assert id in refs[1..]; }
        }
      }
    }
  }

  lemma Cancel(a: seq<Coord>, s: seq<Coord>, b: seq<Coord>, t: seq<Coord>)
    requires |b| <= |a| <= 1 && |t| <= |s| && a + s == b + t
    ensures a == b && s == t
  {
    assert |a| == |b|;
    assert (a + s)[..|a|] == a && (b + t)[..|a|] == b;
    assert (a + s)[|a|..] == s && (b + t)[|a|..] == t;
  }

  lemma {:induction false} BadLength(steps: seq<Step>, p: nat, all: seq<int>, refs: seq<int>)
    requires p <= |steps| && forall id :: id in refs ==> id in all
    ensures var w := BadWorld(steps, p, all);
      |Resolved(RunTo(steps, p, RunTo(steps, |steps|, w)), refs)| == Lasting(steps, p, refs)
  {
    hide Get, RunTo, Lasts, BadWorld;
    if refs != [] {
      assert refs[0] in refs;
      BadRef(steps, p, all, refs[0]);
      BadLength(steps, p, all, refs[1..]);
    }
  }

  lemma BuildInjective(a: seq<Coord>, b: seq<Coord>)
    requires |a| >= 2 && |b| >= 2 && BuildWay(a) == BuildWay(b)
    ensures a == b
  {
    hide BuildWay, Vertices;
    WayVertices(a);
    WayVertices(b);
  }

  /** In the bad world the replayed edit stores another geometry. */
  lemma BadEdit(steps: seq<Step>, p: nat, way: WayEntry)
    requires OnlyEdit(steps, p, way) && HasSurvivingTag(way.tags, false) && !EditSettled(steps, p, way)
    ensures !SameAgain(steps, |steps|, BadWorld(steps, p, way.refs), way.id)
  {
    hide RunTo, OnlyEdit, AgainCoords, HasSurvivingTag, Get, Lasting, Late, BadWorld, SameAgain, NavTables.NoCollision, WayPatch, Resolved;
    EditInside(steps, p, way);
    var w := BadWorld(steps, p, way.refs);
    var u, v := RunTo(steps, p, w), RunTo(steps, p, RunTo(steps, |steps|, w));
    forall id | id in way.refs
      ensures Get(v, CoordCell(id)).At? ==> Get(u, CoordCell(id)).At?
      ensures Late(steps, p, id) ==> Get(u, CoordCell(id)).At? && Get(u, CoordCell(id)) != Get(v, CoordCell(id))
    {
      BadRef(steps, p, way.refs, id);
    }
    var late :| late in way.refs && Late(steps, p, late);
    ListsDiffer(u, v, way.refs);
    BadLength(steps, p, way.refs, way.refs);
    AgainIsResolved(steps, p, |steps|, w, way.refs);
    var a, b := Resolved(u, way.refs), Resolved(v, way.refs);
    assert |a| >= 2 && |b| >= 2 && a != b;
    if BuildWay(a) == BuildWay(b) { BuildInjective(a, b); }
    OnceEditedIff(steps, p, way, |steps|, w);
  }

  lemma EditInside(steps: seq<Step>, p: nat, way: WayEntry)
    requires OnlyEdit(steps, p, way)
    ensures p + 1 < |steps|
  {}

  /**
   Exactly when applying the steps twice is harmless, in every world, for a way they edit once
   and store: no reference is first written after the edit, or fewer than two references last.
   */
  lemma TwiceIff(steps: seq<Step>, p: nat, way: WayEntry)
    requires OnlyEdit(steps, p, way) && HasSurvivingTag(way.tags, false)
    ensures p <= |steps|
    ensures (forall w :: SameAgain(steps, |steps|, w, way.id)) <==> EditSettled(steps, p, way)
  {
    hide OnlyEdit, SameAgain, HasSurvivingTag, NavTables.NoCollision, EditSettled, BadWorld;
    EditInside(steps, p, way);
    if EditSettled(steps, p, way) {
      forall w ensures SameAgain(steps, |steps|, w, way.id) { SettledSame(steps, p, way, w); }
    } else {
      BadEdit(steps, p, way);
    }
  }

  lemma SettledSame(steps: seq<Step>, p: nat, way: WayEntry, w: World)
    requires OnlyEdit(steps, p, way) && p + 1 < |steps| && EditSettled(steps, p, way)
    ensures SameAgain(steps, |steps|, w, way.id)
  {
    hide OnlyEdit, SameAgain, HasSurvivingTag, Late, RunTo, Lasting, AgainCoords, WayPatch, NavTables.NoCollision;
    OnceEditedIff(steps, p, way, |steps|, w);
    if Lasting(steps, p, way.refs) < 2 {
      AtMostLasting(steps, p, w, way.refs);
    } else {
      SettledAgain(steps, p, w, way.refs);
    }
  }

  // ---------------------------------------------------------------- in the crash machine

  /** A restart that leaves files with room for every sane id as they are. */
  const RESTART: Event := Crash(Before, map[], MAX_SANE_ID)

  /** A diff applied in full, a crash before its number is recorded, and the diff again. */
  function TwiceEvents(n: nat): seq<Event> {
    [Begin] + seq(n, i => Commit) + [RESTART, Begin] + seq(n, i => Commit) + [Record]
  }

  function TwiceStates(steps: seq<Step>, w: World): seq<Machine> {
    var n, done := |steps|, RunTo(steps, |steps|, w);
    [Machine(w, FULL, 0, Idle)]
      + seq(n + 1, i requires 0 <= i < n + 1 => Machine(RunTo(steps, i, w), FULL, 0, Applying(1, i, FULL)))
      + [Machine(done, FULL, 0, Idle)]
      + seq(n + 1, i requires 0 <= i < n + 1 => Machine(RunTo(steps, i, done), FULL, 0, Applying(1, i, FULL)))
      + [Machine(RunTo(steps, n, done), FULL, 1, Idle)]
  }

  lemma TwiceState(steps: seq<Step>, w: World, k: nat)
    requires k < 2 * |steps| + 5
    ensures |TwiceStates(steps, w)| == 2 * |steps| + 5 && |TwiceEvents(|steps|)| == 2 * |steps| + 4
    ensures var n, done, ms := |steps|, RunTo(steps, |steps|, w), TwiceStates(steps, w);
      ms[k] == if k == 0 then Machine(w, FULL, 0, Idle)
        else if k <= n + 1 then Machine(RunTo(steps, k - 1, w), FULL, 0, Applying(1, k - 1, FULL))
        else if k == n + 2 then Machine(done, FULL, 0, Idle)
        else if k <= 2 * n + 3 then Machine(RunTo(steps, k - n - 3, done), FULL, 0, Applying(1, k - n - 3, FULL))
        else Machine(RunTo(steps, n, done), FULL, 1, Idle)
  {
    hide RunTo, FULL;
  }

  lemma TwiceEvent(n: nat, k: nat)
    requires k < 2 * n + 4
    ensures |TwiceEvents(n)| == 2 * n + 4
    ensures TwiceEvents(n)[k] == if k == 0 || k == n + 2 then Begin
        else if k == n + 1 then RESTART else if k == 2 * n + 3 then Record else Commit
  {}

  lemma NoTear(w: World)
    ensures Put(w, map[]) == w
  {
    Extensional(Put(w, map[]), w);
  }

  /** On full files every step of a diff does what the plain model says. */
  lemma {:induction false} FullLabels(d: seq<Change>, i: nat)
    requires i < |StepsOfDiff(d)|
    ensures Label(StepsOfDiff(d)[i], FULL) == StepsOfDiff(d)[i] && FilesAfter(StepsOfDiff(d)[i], FULL) == FULL
  {
    hide FULL, Label, FilesAfter;
    var head, rest := StepsOf(d[0]), StepsOfDiff(d[1..]);
    assert StepsOfDiff(d) == head + rest;
    FullStays(StepsOfDiff(d)[i]);
    if i < |head| {
      assert StepsOfDiff(d)[i] == head[i];
      NotAStore(head[i]);
    } else {
      assert StepsOfDiff(d)[i] == rest[i - |head|];
      FullLabels(d[1..], i - |head|);
    }
  }

  lemma NotAStore(s: Step)
    ensures !s.StoreCoord? ==> Label(s, FULL) == s
  {}

  lemma TwiceStep(diffs: int -> seq<Change>, w: World, k: nat)
    requires k < 2 * |StepsOfDiff(diffs(1))| + 4
    ensures var steps := StepsOfDiff(diffs(1)); var ms, es := TwiceStates(steps, w), TwiceEvents(|steps|);
      |ms| == |es| + 1 && k < |es| && Enabled(diffs, ms[k], es[k]) && ms[k + 1] == Next(diffs, ms[k], es[k])
  {
    hide StepsOfDiff, Exec, TwiceStates, TwiceEvents, Put, FULL, Label, FilesAfter;
    var steps := StepsOfDiff(diffs(1));
    var ms, es, n := TwiceStates(steps, w), TwiceEvents(|steps|), |steps|;
    TwiceState(steps, w, k);
    TwiceState(steps, w, k + 1);
    TwiceEvent(n, k);
    if k == n + 1 {
      FullStays(Store(NodeEntry(0, "", map[], Coord(0, 0), Point(Coord(0, 0)))));
      NoTear(ms[k].world);
    } else if es[k].Commit? {
      FullLabels(diffs(1), ms[k].phase.done);
    }
  }

  lemma TwiceIsRun(diffs: int -> seq<Change>, w: World)
    ensures var steps := StepsOfDiff(diffs(1)); IsRun(diffs, TwiceStates(steps, w), TwiceEvents(|steps|))
  {
    hide StepsOfDiff, Exec, TwiceStates, TwiceEvents, Put, Next, Enabled;
    var steps := StepsOfDiff(diffs(1));
    var ms, es := TwiceStates(steps, w), TwiceEvents(|steps|);
    TwiceState(steps, w, 0);
    forall k | 0 <= k < |es| ensures Enabled(diffs, ms[k], es[k]) && ms[k + 1] == Next(diffs, ms[k], es[k]) {
      TwiceStep(diffs, w, k);
    }
  }

  /**
   The condition on the diffs is needed for crash-exactness too: when it fails for a way that
   a diff edits once and stores, some world and one crash between steps, with files that have
   all the room there is, make the recorded state differ.
   */
  lemma CrashNeedsSettledEdits(diffs: int -> seq<Change>, p: nat, way: WayEntry)
      returns (ms: seq<Machine>, es: seq<Event>, k: nat)
    requires OnlyEdit(StepsOfDiff(diffs(1)), p, way) && HasSurvivingTag(way.tags, false)
    requires p <= |StepsOfDiff(diffs(1))| && !EditSettled(StepsOfDiff(diffs(1)), p, way)
    ensures IsRun(diffs, ms, es) && k < |es| && es[k].Record? && ms[0].recorded == 0 && ms[0].files == FULL
    ensures ms[k + 1].world != Canonical(diffs, 0, ms[0].world, 1)
  {
    hide StepsOfDiff, OnlyEdit, HasSurvivingTag, EditSettled, BadWorld, TwiceStates, TwiceEvents, IsRun, NavTables.NoCollision, RunTo, Get, FULL;
    var steps := StepsOfDiff(diffs(1));
    var w := BadWorld(steps, p, way.refs);
    BadEdit(steps, p, way);
    TwiceIsRun(diffs, w);
    ms, es, k := TwiceStates(steps, w), TwiceEvents(|steps|), 2 * |steps| + 3;
    TwiceState(steps, w, k + 1);
    TwiceState(steps, w, 0);
    TwiceEvent(|steps|, k);
    assert Canonical(diffs, 0, w, 1) == ApplyDiff(diffs(1), w) by { assert Canonical(diffs, 0, w, 0) == w; }
  }
}
