/**
 What one change leaves in a region's tables and its remembered nodes
 (src/RegionalDeltaApplier.cpp), from what they held before it.
 */
module RegionalRows {
  import opened Core
  import opened Geometry
  import opened Lists
  import opened NavTables
  import opened Delta
  import opened RegionalDelta
  import ChangeRows

  /** Some installed region matches. */
  ghost predicate Inside(g: Regions, shape: Geom) { exists r: nat :: r < g.count && g.matches(r, shape) }

  lemma AfterUpsert(w: World, kind: Kind, id: int, row: Row, tags: Tags)
    ensures var v := Put(w, Upsert(kind, id, row, tags));
      ChangeRows.Holds(v, kind, id, row, tags) && forall c :: !ChangeRows.CellOf(c, kind, id) ==> Get(v, c) == Get(w, c)
  {
    hide Kept, Get, Put, NavTables.NoCollision;
    var p := Upsert(kind, id, row, tags);
    PutAt(w, p, RowCell(kind, id));
    PutAt(w, p, TagCell(kind, id));
    forall c | !ChangeRows.CellOf(c, kind, id) ensures Get(Put(w, p), c) == Get(w, c) { PutAt(w, p, c); }
  }

  lemma AfterErase(w: World, kind: Kind, id: int)
    ensures var v := Put(w, Erase(kind, id));
      ChangeRows.Gone(v, kind, id) && forall c :: !ChangeRows.CellOf(c, kind, id) ==> Get(v, c) == Get(w, c)
  {
    hide Get, Put;
    var p := Erase(kind, id);
    PutAt(w, p, RowCell(kind, id));
    PutAt(w, p, TagCell(kind, id));
    forall c | !ChangeRows.CellOf(c, kind, id) ensures Get(Put(w, p), c) == Get(w, c) { PutAt(w, p, c); }
  }

  lemma TwoErased(w: World, first: Kind, second: Kind, id: int)
    requires first != second
    ensures var v := PutAll(w, [Erase(first, id), Erase(second, id)]);
      && ChangeRows.Gone(v, first, id) && ChangeRows.Gone(v, second, id)
      && forall c :: !ChangeRows.CellOf(c, first, id) && !ChangeRows.CellOf(c, second, id) ==> Get(v, c) == Get(w, c)
  {
    hide Get, Put, Erase, ChangeRows.Gone;
    PutTwo(w, [Erase(first, id), Erase(second, id)]);
    AfterErase(w, first, id);
    AfterErase(Put(w, Erase(first, id)), second, id);
    ChangeRows.StillGone(Put(w, Erase(first, id)), PutAll(w, [Erase(first, id), Erase(second, id)]), first, id, second);
  }

  // ---------------------------------------------------------------- nodes

  /** Every written node is remembered until the diff ends; a row only inside a region. */
  lemma NodeEdited(g: Regions, a: Action, n: NodeEntry, s: Site)
    requires !a.Delete?
    ensures var r := ApplyChange(g, NodeChange(a, n), s);
      && r.base == s.base && r.overlay == s.overlay && r.pending == s.pending[n.id := n.at]
      && (forall c :: !ChangeRows.CellOf(c, NodeKind, n.id) ==> Get(r.tables, c) == Get(s.tables, c))
      && if a.Create? && (n.tags == map[] || !Inside(g, Point(n.at)))
         then forall c :: ChangeRows.CellOf(c, NodeKind, n.id) ==> Get(r.tables, c) == Get(s.tables, c)
         else if Inside(g, Point(n.at)) then ChangeRows.Holds(r.tables, NodeKind, n.id, NodeRow(n.name, n.at, n.geog), n.tags)
         else ChangeRows.Gone(r.tables, NodeKind, n.id)
  {
    hide Get, Put, Upsert, Erase, ChangeRows.Holds, ChangeRows.Gone, NavTables.NoCollision, InAny, Inside;
    var ps := Patches(g, NodeChange(a, n), s);
    assert InAny(g, Point(n.at)) == Inside(g, Point(n.at)) by { InsideIs(g, Point(n.at)); }
    PutTwo(s.tables, ps);
    if ps != [] {
      AfterUpsert(s.tables, NodeKind, n.id, NodeRow(n.name, n.at, n.geog), n.tags);
      AfterErase(s.tables, NodeKind, n.id);
    }
  }

  lemma InsideIs(g: Regions, shape: Geom)
    ensures InAny(g, shape) <==> Inside(g, shape)
  {}

  lemma NodeDeleted(g: Regions, n: NodeEntry, s: Site)
    ensures var r := ApplyChange(g, NodeChange(Delete, n), s);
      && r.base == s.base && r.overlay == s.overlay - {n.id} && r.pending == s.pending - {n.id}
      && ChangeRows.Gone(r.tables, NodeKind, n.id)
      && forall c :: !ChangeRows.CellOf(c, NodeKind, n.id) ==> Get(r.tables, c) == Get(s.tables, c)
  {
    hide Get, Put, Erase, ChangeRows.Gone;
    PutTwo(s.tables, Patches(g, NodeChange(Delete, n), s));
    AfterErase(s.tables, NodeKind, n.id);
  }

  // ---------------------------------------------------------------- ways

  predicate Known(s: Site, id: int) { id in s.base || id in s.overlay || id in s.pending }

  /** `coords` are the known references, in order: those at the positions `ks`. */
  ghost predicate KnownAt(s: Site, refs: seq<int>, ks: seq<nat>, coords: seq<Coord>) {
    && Ascends(ks, |refs|) && |coords| == |ks|
    && (forall i :: 0 <= i < |refs| ==> (i in ks <==> Known(s, refs[i])))
    && (forall j :: 0 <= j < |ks| ==> KnownTo(s, refs[ks[j]], coords[j]))
  }

  /** The base file wins over the overlay, the overlay over the nodes of this diff. */
  predicate KnownTo(s: Site, id: int, at: Coord) {
    if id in s.base then s.base[id] == at
    else if id in s.overlay then s.overlay[id] == at
    else id in s.pending && s.pending[id] == at
  }

  lemma {:induction false} CoordsKnown(s: Site, refs: seq<int>) returns (ks: seq<nat>)
    ensures KnownAt(s, refs, ks, Coords(s, refs))
  {
    hide KnownAt, Resolve;
    if refs == [] {
      ks := [];
      NoneKnown(s);
    } else {
      var n := |refs| - 1;
      var init := CoordsKnown(s, refs[..n]);
      ResolveIs(s, refs[n]);
      ks := if Known(s, refs[n]) then init + [n] else init;
      OneMoreKnown(s, refs, init, Coords(s, refs[..n]));
      assert Coords(s, refs[..n]) + [] == Coords(s, refs[..n]);
    }
  }

  lemma NoneKnown(s: Site)
    ensures KnownAt(s, [], [], Coords(s, []))
  {}

  lemma ResolveIs(s: Site, id: int)
    ensures Resolve(s, id).Some? <==> Known(s, id)
    ensures Resolve(s, id).Some? ==> KnownTo(s, id, Resolve(s, id).value)
  {}

  lemma OneMoreKnown(s: Site, refs: seq<int>, ks: seq<nat>, coords: seq<Coord>)
    requires refs != [] && KnownAt(s, refs[..|refs| - 1], ks, coords)
    ensures var n := |refs| - 1;
      if Known(s, refs[n]) then forall at :: KnownTo(s, refs[n], at) ==> KnownAt(s, refs, ks + [n], coords + [at])
      else KnownAt(s, refs, ks, coords)
  {
    hide Known, KnownTo, Ascends;
    var n := |refs| - 1;
    AscendsMore(ks, n);
    assert forall i :: 0 <= i < n ==> refs[..n][i] == refs[i];
    assert forall j :: 0 <= j < |ks| ==> ks[j] in ks;
  }

  /** Used nodes known only from this diff move to the overlay. */
  ghost predicate Promoted(s: Site, r: Site, refs: seq<int>) {
    && r.base == s.base
    && (forall id :: id in refs && id in s.pending && id !in s.base && id !in s.overlay ==>
          id in r.overlay && r.overlay[id] == s.pending[id] && id !in r.pending)
    && (forall id :: !(id in refs && id in s.pending && id !in s.base && id !in s.overlay) ==>
          && (id in r.overlay <==> id in s.overlay) && (id in s.overlay ==> r.overlay[id] == s.overlay[id])
          && (id in r.pending <==> id in s.pending) && (id in s.pending ==> r.pending[id] == s.pending[id]))
  }

  lemma PromoteIs(s: Site, refs: seq<int>, t: World)
    ensures Promoted(s, Promote(s, refs).(tables := t), refs)
  {}

  /**
   A way without a geometry changes nothing; one outside the regions is cleared; one inside is
   stored under the kind its closure decides, and its nodes are promoted.
   */
  lemma WayEdited(g: Regions, a: Action, way: WayEntry, s: Site) returns (ks: seq<nat>, coords: seq<Coord>, shape: Option<Geom>)
    requires !a.Delete?
    ensures KnownAt(s, way.refs, ks, coords) && Shaped(coords, shape)
    ensures var r := ApplyChange(g, WayChange(a, way), s);
      && (shape.None? ==> r == s)
      && (shape.Some? && !Inside(g, shape.value) ==>
            r == s.(tables := r.tables) && ChangeRows.Gone(r.tables, WayKind, way.id) && ChangeRows.Gone(r.tables, AreaKind, way.id))
      && (shape.Some? && Inside(g, shape.value) ==>
            && Promoted(s, r, way.refs)
            && ChangeRows.Holds(r.tables, if shape.value.Polygon? then AreaKind else WayKind, way.id, GeomRow(way.name, shape), way.tags)
            && ChangeRows.Gone(r.tables, if shape.value.Polygon? then WayKind else AreaKind, way.id))
      && forall c :: !ChangeRows.CellOf(c, WayKind, way.id) && !ChangeRows.CellOf(c, AreaKind, way.id) ==> Get(r.tables, c) == Get(s.tables, c)
  {
    hide Get, PutAll, InAny, Inside, Promote, Promoted, ChangeRows.Holds, ChangeRows.Gone, NavTables.NoCollision, KnownAt, Shaped, Shape, WayPatches;
    ks := CoordsKnown(s, way.refs);
    coords := Coords(s, way.refs);
    WayShapeIs(coords);
    shape := Shape(s, way);
    assert shape == BuildWay(coords) by { ShapeIs(s, way); }
    if shape.Some? { InsideIs(g, shape.value); }
    PromoteIs(s, way.refs, PutAll(s.tables, WayPatches(g, way, shape)));
    PatchedWay(g, way, shape, s.tables);
  }

  lemma ShapeIs(s: Site, way: WayEntry)
    ensures Shape(s, way) == BuildWay(Coords(s, way.refs))
  {}

  lemma PatchedWay(g: Regions, way: WayEntry, shape: Option<Geom>, w: World)
    ensures var v := PutAll(w, WayPatches(g, way, shape));
      && (shape.None? ==> v == w)
      && (shape.Some? && !InAny(g, shape.value) ==> ChangeRows.Gone(v, WayKind, way.id) && ChangeRows.Gone(v, AreaKind, way.id))
      && (shape.Some? && InAny(g, shape.value) ==>
            && ChangeRows.Holds(v, if shape.value.Polygon? then AreaKind else WayKind, way.id, GeomRow(way.name, shape), way.tags)
            && ChangeRows.Gone(v, if shape.value.Polygon? then WayKind else AreaKind, way.id))
      && forall c :: !ChangeRows.CellOf(c, WayKind, way.id) && !ChangeRows.CellOf(c, AreaKind, way.id) ==> Get(v, c) == Get(w, c)
  {
    hide Get, Put, Upsert, Erase, InAny, ChangeRows.Holds, ChangeRows.Gone, NavTables.NoCollision, PutAll;
    var ps := WayPatches(g, way, shape);
    PutTwo(w, ps);
    if shape.Some? {
      if InAny(g, shape.value) {
        var kind, other := if shape.value.Polygon? then AreaKind else WayKind, if shape.value.Polygon? then WayKind else AreaKind;
        var mid := Put(w, Erase(other, way.id));
        AfterErase(w, other, way.id);
        AfterUpsert(mid, kind, way.id, GeomRow(way.name, shape), way.tags);
        ChangeRows.StillGone(mid, PutAll(w, ps), other, way.id, kind);
      } else {
        TwoErased(w, WayKind, AreaKind, way.id);
      }
    }
  }

  lemma WayDeleted(g: Regions, way: WayEntry, s: Site)
    ensures var r := ApplyChange(g, WayChange(Delete, way), s);
      && r == s.(tables := r.tables)
      && ChangeRows.Gone(r.tables, WayKind, way.id) && ChangeRows.Gone(r.tables, AreaKind, way.id)
      && forall c :: !ChangeRows.CellOf(c, WayKind, way.id) && !ChangeRows.CellOf(c, AreaKind, way.id) ==> Get(r.tables, c) == Get(s.tables, c)
  {
    hide Get, PutAll, Erase, ChangeRows.Gone;
    TwoErased(s.tables, WayKind, AreaKind, way.id);
  }

  // ---------------------------------------------------------------- relations

  /** Inside a region the members' lines are stored, and a road when tagged so; outside both are cleared. */
  lemma RelationEdited(g: Regions, a: Action, r: RelationEntry, s: Site, geoms: seq<Option<Geom>>) returns (ks: seq<nat>, shape: Option<Geom>)
    requires !a.Delete? && ChangeRows.MembersHave(s.tables, r.members, geoms)
    ensures ChangeRows.Joins(geoms, ks, shape)
    ensures var v := ApplyChange(g, RelationChange(a, r), s);
      var here := shape.Some? && Inside(g, shape.value);
      && v == s.(tables := v.tables)
      && (if here then ChangeRows.Holds(v.tables, RelationKind, r.id, GeomRow(r.name, shape), r.tags)
          else ChangeRows.Gone(v.tables, RelationKind, r.id))
      && (if here && (("route" in r.tags && r.tags["route"] == "road") || "highway" in r.tags)
          then ChangeRows.Holds(v.tables, RoadKind, r.id, GeomRow(r.name, shape), r.tags)
          else ChangeRows.Gone(v.tables, RoadKind, r.id))
      && forall c :: !ChangeRows.CellOf(c, RelationKind, r.id) && !ChangeRows.CellOf(c, RoadKind, r.id) ==> Get(v.tables, c) == Get(s.tables, c)
  {
    hide Get, PutAll, InAny, Inside, ChangeRows.Holds, ChangeRows.Gone, NavTables.NoCollision, RelationShape, RelationPatches,
         ChangeRows.MembersHave, ChangeRows.Joins;
    ks := ChangeRows.RelationShapeIs(s.tables, r, geoms);
    shape := RelationShape(s.tables, r);
    if shape.Some? { InsideIs(g, shape.value); }
    PatchedRelation(g, r, shape, s.tables);
  }

  lemma PatchedRelation(g: Regions, r: RelationEntry, shape: Option<Geom>, w: World)
    ensures var v := PutAll(w, RelationPatches(g, r, shape));
      var here := shape.Some? && InAny(g, shape.value);
      && (if here then ChangeRows.Holds(v, RelationKind, r.id, GeomRow(r.name, shape), r.tags) else ChangeRows.Gone(v, RelationKind, r.id))
      && (if here && (("route" in r.tags && r.tags["route"] == "road") || "highway" in r.tags)
          then ChangeRows.Holds(v, RoadKind, r.id, GeomRow(r.name, shape), r.tags) else ChangeRows.Gone(v, RoadKind, r.id))
      && forall c :: !ChangeRows.CellOf(c, RelationKind, r.id) && !ChangeRows.CellOf(c, RoadKind, r.id) ==> Get(v, c) == Get(w, c)
  {
    hide Get, Put, Upsert, Erase, InAny, ChangeRows.Holds, ChangeRows.Gone, NavTables.NoCollision, PutAll;
    var ps := RelationPatches(g, r, shape);
    PutTwo(w, ps);
    if shape.Some? && InAny(g, shape.value) {
      var row := GeomRow(r.name, shape);
      var mid := Put(w, Upsert(RelationKind, r.id, row, r.tags));
      AfterUpsert(w, RelationKind, r.id, row, r.tags);
      AfterUpsert(mid, RoadKind, r.id, row, r.tags);
      AfterErase(mid, RoadKind, r.id);
      ChangeRows.StillHolds(mid, PutAll(w, ps), RelationKind, r.id, row, r.tags, RoadKind);
    } else {
      TwoErased(w, RelationKind, RoadKind, r.id);
    }
  }

  lemma RelationDeleted(g: Regions, r: RelationEntry, s: Site)
    ensures var v := ApplyChange(g, RelationChange(Delete, r), s);
      && v == s.(tables := v.tables)
      && ChangeRows.Gone(v.tables, RelationKind, r.id) && ChangeRows.Gone(v.tables, RoadKind, r.id)
      && forall c :: !ChangeRows.CellOf(c, RelationKind, r.id) && !ChangeRows.CellOf(c, RoadKind, r.id) ==> Get(v.tables, c) == Get(s.tables, c)
  {
    hide Get, PutAll, Erase, ChangeRows.Gone;
    TwoErased(s.tables, RelationKind, RoadKind, r.id);
  }

  /** The end of a diff forgets its nodes; a restart also the overlay. */
  lemma EndOfDiff(g: Regions, s: Site)
    ensures RegionalDelta.Next(g, Flush, s) == s.(pending := map[])
    ensures forall c :: RegionalDelta.Next(g, Crash(c, 0), s) == s.(pending := map[], overlay := map[])
  {}
}
