/**
 What one change leaves in the node store and the tables (src/DeltaApplier.cpp with the
 transactions of src/NavDB.cpp), cell by cell, from the cells before it.
 */
module ChangeRows {
  import opened Core
  import opened Geometry
  import opened Lists
  import opened NavTables
  import opened Delta
  import opened Replication
  import TagFilters

  /** The row and tag cells of an entity with these tags: both stored, or neither. */
  ghost predicate Holds(w: World, kind: Kind, id: int, row: Row, tags: Tags) {
    var kept := Kept(tags, kind.NodeKind?);
    if kept == map[] then Gone(w, kind, id)
    else Get(w, RowCell(kind, id)) == Stored(row) && Get(w, TagCell(kind, id)) == Tagged(kept)
  }

  ghost predicate Gone(w: World, kind: Kind, id: int) {
    Get(w, RowCell(kind, id)) == Absent && Get(w, TagCell(kind, id)) == Absent
  }

  predicate CellOf(c: Cell, kind: Kind, id: int) { c == RowCell(kind, id) || c == TagCell(kind, id) }

  lemma AfterOne(c: Change, w: World)
    ensures ApplyDiff([c], w) == RunTo(StepsOf(c), |StepsOf(c)|, w)
    ensures |StepsOf(c)| == 1 ==> ApplyDiff([c], w) == Exec(StepsOf(c)[0], w)
    ensures |StepsOf(c)| == 2 ==> ApplyDiff([c], w) == Exec(StepsOf(c)[1], Exec(StepsOf(c)[0], w))
  {
    hide Exec, StepsOf;
    assert [c][1..] == [];
    assert StepsOfDiff([c]) == StepsOf(c) + [] == StepsOf(c);
    var steps := StepsOf(c);
    assert RunTo(steps, 0, w) == w;
    if |steps| > 0 { assert RunTo(steps, 1, w) == Exec(steps[0], w); }
    if |steps| == 2 { assert RunTo(steps, 2, w) == Exec(steps[1], RunTo(steps, 1, w)); }
  }

  lemma AfterUpsert(s: Step, w: World, kind: Kind, id: int, row: Row, tags: Tags)
    requires Writes(s, w) == Upsert(kind, id, row, tags)
    ensures Holds(Exec(s, w), kind, id, row, tags)
    ensures forall c :: !CellOf(c, kind, id) ==> Get(Exec(s, w), c) == Get(w, c)
  {
    hide Writes, Kept, Get, Exec, NavTables.NoCollision;
    ExecCell(s, w, RowCell(kind, id));
    ExecCell(s, w, TagCell(kind, id));
    forall c | !CellOf(c, kind, id) ensures Get(Exec(s, w), c) == Get(w, c) { ExecCell(s, w, c); }
  }

  lemma AfterErase(s: Step, w: World, kind: Kind, id: int)
    requires Writes(s, w) == Erase(kind, id)
    ensures Gone(Exec(s, w), kind, id)
    ensures forall c :: !CellOf(c, kind, id) ==> Get(Exec(s, w), c) == Get(w, c)
  {
    hide Writes, Get, Exec;
    ExecCell(s, w, RowCell(kind, id));
    ExecCell(s, w, TagCell(kind, id));
    forall c | !CellOf(c, kind, id) ensures Get(Exec(s, w), c) == Get(w, c) { ExecCell(s, w, c); }
  }

  // ---------------------------------------------------------------- nodes

  /** Ids from 0 to the ceiling are stored, whatever the tags; a create without tags writes no row. */
  lemma NodeEdited(a: Action, n: NodeEntry, w: World)
    requires !a.Delete?
    ensures var r := ApplyDiff([NodeChange(a, n)], w);
      && Get(r, CoordCell(n.id)) == (if 0 <= n.id <= 100_000_000_000 then At(n.at) else Get(w, CoordCell(n.id)))
      && (if a.Create? && n.tags == map[] then forall c :: CellOf(c, NodeKind, n.id) ==> Get(r, c) == Get(w, c)
          else Holds(r, NodeKind, n.id, NodeRow(n.name, n.at, n.geog), n.tags))
      && forall c :: c != CoordCell(n.id) && !CellOf(c, NodeKind, n.id) ==> Get(r, c) == Get(w, c)
  {
    hide Exec, Get, Upsert, Holds, NavTables.NoCollision;
    AfterOne(NodeChange(a, n), w);
    AfterStore(n, w);
    if !(a.Create? && n.tags == map[]) {
      AfterUpsert(PutNode(n), Exec(Store(n), w), NodeKind, n.id, NodeRow(n.name, n.at, n.geog), n.tags);
    }
  }

  lemma AfterStore(n: NodeEntry, w: World)
    ensures var r := Exec(Store(n), w);
      && Get(r, CoordCell(n.id)) == (if 0 <= n.id <= 100_000_000_000 then At(n.at) else Get(w, CoordCell(n.id)))
      && forall c :: c != CoordCell(n.id) ==> Get(r, c) == Get(w, c)
  {
    hide Exec, Get;
    forall c ensures Get(Exec(Store(n), w), c) == if 0 <= n.id <= 100_000_000_000 && c == CoordCell(n.id) then At(n.at) else Get(w, c) {
      ExecCell(Store(n), w, c);
    }
  }

  lemma NodeDeleted(n: NodeEntry, w: World)
    ensures var r := ApplyDiff([NodeChange(Delete, n)], w);
      && Get(r, CoordCell(n.id)) == (if n.id >= 0 then Absent else Get(w, CoordCell(n.id))) && Gone(r, NodeKind, n.id)
      && forall c :: c != CoordCell(n.id) && !CellOf(c, NodeKind, n.id) ==> Get(r, c) == Get(w, c)
  {
    hide Exec, Get, Erase, Gone;
    AfterOne(NodeChange(Delete, n), w);
    var s := ForgetCoord(n.id);
    forall c ensures Get(Exec(s, w), c) == if n.id >= 0 && c == CoordCell(n.id) then Absent else Get(w, c) { ExecCell(s, w, c); }
    AfterErase(EraseEntity(NodeKind, n.id), Exec(s, w), NodeKind, n.id);
  }

  // ---------------------------------------------------------------- ways

  /** `coords` are the references found in the store, in order: those at the positions `ks`. */
  ghost predicate FoundIn(w: World, refs: seq<int>, ks: seq<nat>, coords: seq<Coord>) {
    && Ascends(ks, |refs|) && |coords| == |ks|
    && (forall i :: 0 <= i < |refs| ==> (i in ks <==> Get(w, CoordCell(refs[i])).At?))
    && (forall j :: 0 <= j < |ks| ==> Get(w, CoordCell(refs[ks[j]])) == At(coords[j]))
  }

  lemma {:induction false} ResolvedFound(w: World, refs: seq<int>) returns (ks: seq<nat>)
    ensures FoundIn(w, refs, ks, Resolved(w, refs))
  {
    hide Get, Resolved, FoundIn;
    if refs == [] {
      ks := [];
      NothingFound(w);
    } else {
      var n := |refs| - 1;
      var init := ResolvedFound(w, refs[..n]);
      assert refs == refs[..n] + [refs[n]];
      ResolvedSnoc(w, refs[..n], refs[n]);
      ks := if Get(w, CoordCell(refs[n])).At? then init + [n] else init;
      OneMoreFound(w, refs, init, Resolved(w, refs[..n]));
      assert Resolved(w, refs[..n]) + [] == Resolved(w, refs[..n]);
    }
  }

  lemma NothingFound(w: World)
    ensures FoundIn(w, [], [], Resolved(w, []))
  {}

  lemma OneMoreFound(w: World, refs: seq<int>, ks: seq<nat>, coords: seq<Coord>)
    requires refs != [] && FoundIn(w, refs[..|refs| - 1], ks, coords)
    ensures match Get(w, CoordCell(refs[|refs| - 1]))
      case At(c) => FoundIn(w, refs, ks + [|refs| - 1], coords + [c])
      case _ => FoundIn(w, refs, ks, coords)
  {
    hide Get, Ascends;
    var n := |refs| - 1;
    AscendsMore(ks, n);
    assert forall i :: 0 <= i < n ==> refs[..n][i] == refs[i];
    assert forall j :: 0 <= j < |ks| ==> ks[j] in ks;
  }

  /** A closed way goes to the areas and leaves the ways, any other the other way round. */
  lemma WayEdited(a: Action, way: WayEntry, w: World) returns (ks: seq<nat>, coords: seq<Coord>, g: Option<Geom>)
    requires !a.Delete?
    ensures FoundIn(w, way.refs, ks, coords) && Shaped(coords, g)
    ensures var r := ApplyDiff([WayChange(a, way)], w);
      match g
      case None => forall c :: Get(r, c) == Get(w, c)
      case Some(shape) =>
        && Holds(r, if shape.Polygon? then AreaKind else WayKind, way.id, GeomRow(way.name, Some(shape)), way.tags)
        && Gone(r, if shape.Polygon? then WayKind else AreaKind, way.id)
        && forall c :: !CellOf(c, WayKind, way.id) && !CellOf(c, AreaKind, way.id) ==> Get(r, c) == Get(w, c)
  {
    hide Exec, Get, Upsert, Erase, Holds, Resolved, FoundIn, NavTables.NoCollision, WayShape, Writes;
    AfterOne(WayChange(a, way), w);
    ks := ResolvedFound(w, way.refs);
    coords := Resolved(w, way.refs);
    WayShapeIs(coords);
    g := WayShape(w, way);
    assert g == BuildWay(coords) by { ShapeOf(w, way); }
    var mid := Exec(ClearOther(way), w);
    EditedWrites(way, w, mid);
    if g.Some? {
      var other, kind := if g.value.Polygon? then WayKind else AreaKind, if g.value.Polygon? then AreaKind else WayKind;
      AfterErase(ClearOther(way), w, other, way.id);
      AfterUpsert(PutWay(way), mid, kind, way.id, GeomRow(way.name, g), way.tags);
      StillGone(mid, Exec(PutWay(way), mid), other, way.id, kind);
    } else {
      forall c ensures Get(Exec(PutWay(way), mid), c) == Get(w, c) {
        ExecCell(ClearOther(way), w, c);
        ExecCell(PutWay(way), mid, c);
      }
    }
  }

  lemma ShapeOf(w: World, way: WayEntry)
    ensures WayShape(w, way) == BuildWay(Resolved(w, way.refs))
  {}

  lemma StillGone(v: World, w: World, kind: Kind, id: int, other: Kind)
    requires Gone(v, kind, id) && kind != other && forall c :: !CellOf(c, other, id) ==> Get(w, c) == Get(v, c)
    ensures Gone(w, kind, id)
  {
    hide Get;
  }

  lemma EditedWrites(way: WayEntry, w: World, mid: World)
    requires mid == Exec(ClearOther(way), w)
    ensures match WayShape(w, way)
      case None => Writes(ClearOther(way), w) == map[] == Writes(PutWay(way), mid)
      case Some(g) =>
        && Writes(ClearOther(way), w) == Erase(if g.Polygon? then WayKind else AreaKind, way.id)
        && Writes(PutWay(way), mid) == Upsert(if g.Polygon? then AreaKind else WayKind, way.id, GeomRow(way.name, Some(g)), way.tags)
  {
    hide Upsert, Erase, WayShape, Exec, NavTables.NoCollision;
    ShapeKept(way, w);
  }

  lemma WayDeleted(way: WayEntry, w: World)
    ensures var r := ApplyDiff([WayChange(Delete, way)], w);
      && Gone(r, WayKind, way.id) && Gone(r, AreaKind, way.id)
      && forall c :: !CellOf(c, WayKind, way.id) && !CellOf(c, AreaKind, way.id) ==> Get(r, c) == Get(w, c)
  {
    TwoErased(WayChange(Delete, way), w, WayKind, AreaKind, way.id);
  }

  lemma TwoErased(c: Change, w: World, first: Kind, second: Kind, id: int)
    requires StepsOf(c) == [EraseEntity(first, id), EraseEntity(second, id)] && first != second
    ensures var r := ApplyDiff([c], w);
      && Gone(r, first, id) && Gone(r, second, id)
      && forall x :: !CellOf(x, first, id) && !CellOf(x, second, id) ==> Get(r, x) == Get(w, x)
  {
    hide Exec, Get, Erase, Gone, StepsOf;
    AfterOne(c, w);
    var mid := Exec(EraseEntity(first, id), w);
    AfterErase(EraseEntity(first, id), w, first, id);
    AfterErase(EraseEntity(second, id), mid, second, id);
    StillGone(mid, Exec(EraseEntity(second, id), mid), first, id, second);
  }

  // ---------------------------------------------------------------- relations

  /** The geometry a member has: its way's, or its area's when there is no such way. */
  ghost predicate MemberHas(w: World, id: int, g: Option<Geom>) {
    || (exists name :: Get(w, RowCell(WayKind, id)) == Stored(GeomRow(name, g)))
    || (Get(w, RowCell(WayKind, id)) == Absent && exists name :: Get(w, RowCell(AreaKind, id)) == Stored(GeomRow(name, g)))
    || (Get(w, RowCell(WayKind, id)) == Absent && Get(w, RowCell(AreaKind, id)) == Absent && g == None)
  }

  ghost predicate MembersHave(w: World, members: seq<int>, geoms: seq<Option<Geom>>) {
    |geoms| == |members| && forall i :: 0 <= i < |members| ==> MemberHas(w, members[i], geoms[i])
  }

  lemma MemberIs(w: World, id: int, g: Option<Geom>)
    requires MemberHas(w, id, g)
    ensures GetWay(w, id) == g
  {}

  lemma {:induction false} MembersAre(w: World, members: seq<int>, geoms: seq<Option<Geom>>)
    requires MembersHave(w, members, geoms)
    ensures MemberShapes(w, members) == Present(geoms)
  {
    hide GetWay, MemberHas, MemberShapes;
    if members == [] {
      NoMembers(w);
    } else {
      var n := |members| - 1;
      MembersAre(w, members[..n], geoms[..n]);
      MemberIs(w, members[n], geoms[n]);
      MemberSnoc(w, members[..n], members[n]);
      assert members == members[..n] + [members[n]];
    }
  }

  /** The multi-line of the members' lines, in member order; none without lines. */
  ghost predicate Joins(geoms: seq<Option<Geom>>, ks: seq<nat>, g: Option<Geom>) {
    if ks == [] then LinesAt(geoms, ks, []) && g == None
    else g.Some? && g.value.MultiLine? && LinesAt(geoms, ks, g.value.parts)
  }

  lemma RelationShapeIs(w: World, r: RelationEntry, geoms: seq<Option<Geom>>) returns (ks: seq<nat>)
    requires MembersHave(w, r.members, geoms)
    ensures Joins(geoms, ks, RelationShape(w, r))
  {
    hide MemberShapes, LinearParts, Present, MembersHave, LinesAt;
    MembersAre(w, r.members, geoms);
    ks := LinesPicked(geoms);
    LinesCount(geoms, ks, LinearParts(Present(geoms)));
  }

  lemma LinesCount(geoms: seq<Option<Geom>>, ks: seq<nat>, parts: seq<Geom>)
    requires LinesAt(geoms, ks, parts)
    ensures ks == [] <==> parts == []
  {}

  /**
   The relation row holds the members' lines joined in member order, and a road row the same
   when it is tagged `route=road` or has a `highway` tag and there is a line.
   */
  lemma RelationEdited(a: Action, r: RelationEntry, w: World, geoms: seq<Option<Geom>>) returns (ks: seq<nat>, g: Option<Geom>)
    requires !a.Delete? && MembersHave(w, r.members, geoms)
    ensures Joins(geoms, ks, g)
    ensures var v := ApplyDiff([RelationChange(a, r)], w);
      && Holds(v, RelationKind, r.id, GeomRow(r.name, g), r.tags)
      && (if (("route" in r.tags && r.tags["route"] == "road") || "highway" in r.tags) && ks != []
          then Holds(v, RoadKind, r.id, GeomRow(r.name, g), r.tags) else Gone(v, RoadKind, r.id))
      && forall c :: !CellOf(c, RelationKind, r.id) && !CellOf(c, RoadKind, r.id) ==> Get(v, c) == Get(w, c)
  {
    hide Exec, Get, Upsert, Erase, Holds, Gone, NavTables.NoCollision, RelationShape, Writes, MembersHave, LinesAt;
    AfterOne(RelationChange(a, r), w);
    ks := RelationShapeIs(w, r, geoms);
    g := RelationShape(w, r);
    var mid := Exec(PutRelation(r), w);
    var v := Exec(PutRoad(r), mid);
    EditedRelation(r, w, mid);
    AfterUpsert(PutRelation(r), w, RelationKind, r.id, GeomRow(r.name, g), r.tags);
    if IsRoad(r.tags) && g.Some? {
      AfterUpsert(PutRoad(r), mid, RoadKind, r.id, GeomRow(r.name, g), r.tags);
    } else {
      AfterErase(PutRoad(r), mid, RoadKind, r.id);
    }
    StillHolds(mid, v, RelationKind, r.id, GeomRow(r.name, g), r.tags, RoadKind);
  }

  lemma StillHolds(v: World, w: World, kind: Kind, id: int, row: Row, tags: Tags, other: Kind)
    requires Holds(v, kind, id, row, tags) && kind != other && forall c :: !CellOf(c, other, id) ==> Get(w, c) == Get(v, c)
    ensures Holds(w, kind, id, row, tags)
  {
    hide Get, Kept, NavTables.NoCollision;
  }

  lemma EditedRelation(r: RelationEntry, w: World, mid: World)
    requires mid == Exec(PutRelation(r), w)
    ensures var g := RelationShape(w, r); var row := GeomRow(r.name, g);
      && Writes(PutRelation(r), w) == Upsert(RelationKind, r.id, row, r.tags)
      && Writes(PutRoad(r), mid)
         == if IsRoad(r.tags) && g.Some? then Upsert(RoadKind, r.id, row, r.tags) else Erase(RoadKind, r.id)
  {
    hide Upsert, Erase, RelationShape, Exec, IsRoad, NavTables.NoCollision;
    MembersKept(r, w);
  }

  /** A road route whose members are all lines is stored with exactly these lines, and so is its road. */
  lemma RouteOfLines(a: Action, r: RelationEntry, w: World, names: seq<string>, lines: seq<seq<Coord>>)
    requires !a.Delete? && r.members != [] && |lines| == |names| == |r.members|
    requires forall i :: 0 <= i < |r.members| ==> Get(w, RowCell(WayKind, r.members[i])) == Stored(GeomRow(names[i], Some(Line(lines[i]))))
    requires "route" in r.tags && r.tags["route"] == "road"
    ensures var v := ApplyDiff([RelationChange(a, r)], w);
      var row := GeomRow(r.name, Some(MultiLine(seq(|lines|, i requires 0 <= i < |lines| => Line(lines[i])))));
      Get(v, RowCell(RelationKind, r.id)) == Stored(row) && Get(v, RowCell(RoadKind, r.id)) == Stored(row)
  {
    hide Get, Kept, NavTables.NoCollision, StepsOfDiff, RunTo;
    var geoms := seq(|lines|, i requires 0 <= i < |lines| => Some(Line(lines[i])));
    var ks, g := RelationEdited(a, r, w, geoms);
    TagFilters.RouteKept(r.tags, false);
    AllPicked(ks, |lines|);
    assert LinesAt(geoms, ks, g.value.parts);
    assert g.value.parts == seq(|lines|, i requires 0 <= i < |lines| => Line(lines[i]));
  }

  lemma {:induction false} PickedAt(ks: seq<nat>, n: nat, j: nat)
    requires Ascends(ks, n) && (forall i :: 0 <= i < n ==> i in ks) && j < n
    ensures j < |ks| && ks[j] == j
  {
    assert j in ks;
    var p :| 0 <= p < |ks| && ks[p] == j;
    if j > 0 { PickedAt(ks, n, j - 1); }
  }

  lemma {:induction false} PickLow(ks: seq<nat>, n: nat, j: nat)
    requires Ascends(ks, n) && j < |ks|
    ensures j <= ks[j] < n
  {
    if j > 0 { PickLow(ks, n, j - 1); }
  }

  lemma AllPicked(ks: seq<nat>, n: nat)
    requires Ascends(ks, n) && forall i :: 0 <= i < n ==> i in ks
    ensures |ks| == n
    ensures forall j :: 0 <= j < n ==> ks[j] == j
  {
    forall j | 0 <= j < n ensures j < |ks| && ks[j] == j { PickedAt(ks, n, j); }
    if |ks| > n { PickLow(ks, n, n); }
    if n > 0 { PickedAt(ks, n, n - 1); }
  }

  lemma RelationDeleted(r: RelationEntry, w: World)
    ensures var v := ApplyDiff([RelationChange(Delete, r)], w);
      && Gone(v, RelationKind, r.id) && Gone(v, RoadKind, r.id)
      && forall c :: !CellOf(c, RelationKind, r.id) && !CellOf(c, RoadKind, r.id) ==> Get(v, c) == Get(w, c)
  {
    TwoErased(RelationChange(Delete, r), w, RelationKind, RoadKind, r.id);
  }
}
