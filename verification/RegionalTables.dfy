/**
 The way and area tables of a region against the planet's (src/RegionalDeltaApplier.cpp,
 `upsertWay`, `deleteWay`): after any run of harmless diffs whose ways resolve as fully as on
 the planet, the region holds exactly the planet's rows that match one of its regions.
 */
module RegionalTables {
  import opened Core
  import opened Geometry
  import opened NavTables
  import opened Delta
  import opened RegionalDelta
  import ReplayWays

  predicate RowMatchesHere(g: Regions, x: Content) { x.Stored? && RowIn(g, x.row) }

  /** One cell of an entity as the region should have it. */
  function Expected(g: Regions, w: World, kind: Kind, id: int, c: Cell): Content {
    if RowMatchesHere(g, Get(w, RowCell(kind, id))) then Get(w, c) else Absent
  }

  ghost predicate KindAgrees(g: Regions, t: World, w: World, kind: Kind, id: int) {
    && Get(t, RowCell(kind, id)) == Expected(g, w, kind, id, RowCell(kind, id))
    && Get(t, TagCell(kind, id)) == Expected(g, w, kind, id, TagCell(kind, id))
  }

  ghost predicate WayAgrees(g: Regions, t: World, w: World, id: int) {
    KindAgrees(g, t, w, WayKind, id) && KindAgrees(g, t, w, AreaKind, id)
  }

  ghost predicate TablesAgree(g: Regions, s: Site, w: World) {
    forall id :: WayAgrees(g, s.tables, w, id)
  }

  /** Every reference the planet resolves, the region resolves. */
  ghost predicate FullyResolved(c: Change, s: Site, w: World) {
    c.WayChange? && !c.action.Delete? ==>
      forall id :: id in c.way.refs && Get(w, CoordCell(id)).At? ==> Resolve(s, id).Some?
  }

  lemma {:induction false} SameResolved(s: Site, w: World, refs: seq<int>)
    requires Agrees(s, w) && forall id :: id in refs && Get(w, CoordCell(id)).At? ==> Resolve(s, id).Some?
    ensures Coords(s, refs) == Resolved(w, refs)
  {
    hide Get, Resolve;
    if refs != [] {
      var init, last := refs[..|refs| - 1], refs[|refs| - 1];
      SameResolved(s, w, init);
      assert last in refs;
      ResolvedLast(w, init, last);
      assert refs == init + [last];
      assert Resolved(w, [last]) == (match Get(w, CoordCell(last)) case At(c) => [c] case _ => []) + Resolved(w, []);
    }
  }

  // ---------------------------------------------------------------- one way change

  /** The region's four cells after an edit, or as they were when it has no geometry. */
  lemma SiteCells(g: Regions, way: WayEntry, shape: Option<Geom>, t: World, c: Cell)
    requires ReplayWays.WayCell(c, way.id)
    ensures Get(PutAll(t, WayPatches(g, way, shape)), c) ==
      if shape.None? then Get(t, c)
      else if InAny(g, shape.value) then ReplayWays.WayPatch(way, shape.value)[c]
      else Absent
  {
    hide Upsert, Erase, Get, Put, InAny, NavTables.NoCollision, PutAll;
    var ps := WayPatches(g, way, shape);
    PutTwo(t, ps);
    if shape.Some? {
      ErasedCells(way.id, c);
      PutAt(t, ps[0], c);
      PutAt(Put(t, ps[0]), ps[1], c);
    }
  }

  lemma ErasedCells(id: int, c: Cell)
    requires ReplayWays.WayCell(c, id)
    ensures c in Erase(WayKind, id) <==> c !in Erase(AreaKind, id)
    ensures forall k :: c in Erase(k, id) ==> Erase(k, id)[c] == Absent
    ensures forall k, row, tags :: c in Upsert(k, id, row, tags) <==> c in Erase(k, id)
  {}

  lemma ErasedElsewhere(other: int, id: int, c: Cell)
    requires ReplayWays.WayCell(c, id) && other != id
    ensures forall k :: c !in Erase(k, other)
  {}

  /** A stored edit agrees: kept when its geometry is in the region, gone when not. */
  lemma EditAgrees(g: Regions, way: WayEntry, shape: Geom, t: World, w: World)
    requires forall c :: ReplayWays.WayCell(c, way.id) ==>
      Get(w, c) == ReplayWays.WayPatch(way, shape)[c]
      && Get(t, c) == if InAny(g, shape) then ReplayWays.WayPatch(way, shape)[c] else Absent
    ensures WayAgrees(g, t, w, way.id)
  {
    hide Get, InAny, NavTables.NoCollision, ReplayWays.WayPatch, HasSurvivingTag;
    OneKindAgrees(g, way, shape, t, w, WayKind);
    OneKindAgrees(g, way, shape, t, w, AreaKind);
  }

  lemma OneKindAgrees(g: Regions, way: WayEntry, shape: Geom, t: World, w: World, kind: Kind)
    requires kind.WayKind? || kind.AreaKind?
    requires forall c :: ReplayWays.WayCell(c, way.id) ==>
      Get(w, c) == ReplayWays.WayPatch(way, shape)[c]
      && Get(t, c) == if InAny(g, shape) then ReplayWays.WayPatch(way, shape)[c] else Absent
    ensures KindAgrees(g, t, w, kind, way.id)
  {
    hide Get, InAny, NavTables.NoCollision, ReplayWays.WayPatch, HasSurvivingTag;
    var row, tag := RowCell(kind, way.id), TagCell(kind, way.id);
    assert ReplayWays.WayCell(row, way.id) && ReplayWays.WayCell(tag, way.id);
    PatchCells(way, shape, kind);
  }

  /** Either the row carries the geometry, or both the row and its tags are gone. */
  lemma PatchCells(way: WayEntry, shape: Geom, kind: Kind)
    requires kind.WayKind? || kind.AreaKind?
    ensures var p := ReplayWays.WayPatch(way, shape); var row, tag := RowCell(kind, way.id), TagCell(kind, way.id);
      && row in p && tag in p
      && (p[row] == Stored(GeomRow(way.name, Some(shape))) || (p[row] == Absent && p[tag] == Absent))
  {
    hide Kept, NavTables.NoCollision, HasSurvivingTag;
  }

  lemma UpsertKeepsAgreement(g: Regions, way: WayEntry, a: Action, s: Site, w: World, id: int)
    requires !a.Delete? && Agrees(s, w) && FullyResolved(WayChange(a, way), s, w) && WayAgrees(g, s.tables, w, id)
    ensures WayAgrees(g, ApplyChange(g, WayChange(a, way), s).tables, PlanetApply(WayChange(a, way), w), id)
  {
    hide Get, Exec, Patches, PutAll, InAny, Agrees, NavTables.NoCollision, Remember, WayPatches, BuildWay, Resolved, ReplayWays.WayPatch;
    var c := WayChange(a, way);
    SameResolved(s, w, way.refs);
    var shape := Shape(s, way);
    var t, v := ApplyChange(g, c, s).tables, PlanetApply(c, w);
    assert t == PutAll(s.tables, WayPatches(g, way, shape)) by { UpsertPatches(g, way, a, s); }
    assert v == Exec(PutWay(way), Exec(ClearOther(way), w)) by { UpsertSteps(way, a, w); }
    if id == way.id {
      forall x | ReplayWays.WayCell(x, id)
        ensures Get(v, x) == match shape case Some(h) => ReplayWays.WayPatch(way, h)[x] case None => Get(w, x)
        ensures Get(t, x) == if shape.None? then Get(s.tables, x)
          else if InAny(g, shape.value) then ReplayWays.WayPatch(way, shape.value)[x] else Absent
      {
        ReplayWays.EditSteps(way, w, x);
        SiteCells(g, way, shape, s.tables, x);
      }
      if shape.Some? {
        EditAgrees(g, way, shape.value, t, v);
      } else {
        SameCellsAgree(g, s.tables, w, t, v, id);
      }
    } else {
      forall x | ReplayWays.WayCell(x, id) ensures Get(v, x) == Get(w, x) && Get(t, x) == Get(s.tables, x) {
        ReplayWays.OtherStep(ClearOther(way), w, x, id);
        ReplayWays.OtherStep(PutWay(way), Exec(ClearOther(way), w), x, id);
        OtherPatches(g, way, shape, s.tables, x, id);
      }
      SameCellsAgree(g, s.tables, w, t, v, id);
    }
  }

  lemma UpsertPatches(g: Regions, way: WayEntry, a: Action, s: Site)
    requires !a.Delete?
    ensures Patches(g, WayChange(a, way), s) == WayPatches(g, way, Shape(s, way))
  {
    hide WayPatches, Shape, NavTables.NoCollision;
  }

  lemma UpsertSteps(way: WayEntry, a: Action, w: World)
    requires !a.Delete?
    ensures PlanetApply(WayChange(a, way), w) == Exec(PutWay(way), Exec(ClearOther(way), w))
  {
    hide Exec, NavTables.NoCollision;
    var steps := StepsOf(WayChange(a, way));
    assert RunTo(steps, 0, w) == w;
    assert RunTo(steps, 1, w) == Exec(steps[0], w);
    assert RunTo(steps, 2, w) == Exec(steps[1], RunTo(steps, 1, w));
  }

  lemma OtherPatches(g: Regions, way: WayEntry, shape: Option<Geom>, t: World, c: Cell, id: int)
    requires ReplayWays.WayCell(c, id) && id != way.id
    ensures Get(PutAll(t, WayPatches(g, way, shape)), c) == Get(t, c)
  {
    hide Get, Put, InAny, Kept, NavTables.NoCollision, PutAll;
    var ps := WayPatches(g, way, shape);
    PutTwo(t, ps);
    if shape.Some? {
      PutAt(t, ps[0], c);
      PutAt(Put(t, ps[0]), ps[1], c);
    }
  }

  /** Where neither side's cells change, agreement stays. */
  lemma SameCellsAgree(g: Regions, s: World, w: World, t: World, v: World, id: int)
    requires WayAgrees(g, s, w, id)
    requires forall c :: ReplayWays.WayCell(c, id) ==> Get(v, c) == Get(w, c) && Get(t, c) == Get(s, c)
    ensures WayAgrees(g, t, v, id)
  {
    hide Get, RowMatchesHere;
    assert ReplayWays.WayCell(RowCell(WayKind, id), id) && ReplayWays.WayCell(TagCell(WayKind, id), id);
    assert ReplayWays.WayCell(RowCell(AreaKind, id), id) && ReplayWays.WayCell(TagCell(AreaKind, id), id);
  }

  // ---------------------------------------------------------------- the other changes

  /** Neither side's patches of another change reach a way's cells, unless it deletes that way. */
  lemma OtherChange(g: Regions, c: Change, s: Site, w: World, id: int, x: Cell)
    requires ReplayWays.WayCell(x, id) && (c.WayChange? ==> c.action.Delete?)
    ensures var gone := c.WayChange? && c.way.id == id;
      && Get(ApplyChange(g, c, s).tables, x) == (if gone then Absent else Get(s.tables, x))
      && Get(PlanetApply(c, w), x) == (if gone then Absent else Get(w, x))
  {
    hide Get, Put, PutAll, Exec, InAny, Patches, Remember, NavTables.NoCollision;
    OtherTables(g, c, s, id, x);
    OtherPlanet(c, w, id, x);
  }

  lemma OtherTables(g: Regions, c: Change, s: Site, id: int, x: Cell)
    requires ReplayWays.WayCell(x, id) && (c.WayChange? ==> c.action.Delete?)
    ensures Get(PutAll(s.tables, Patches(g, c, s)), x) == if c.WayChange? && c.way.id == id then Absent else Get(s.tables, x)
  {
    hide Get, Put, PutAll, Patches, NavTables.NoCollision, Erase;
    var ps := Patches(g, c, s);
    PutTwo(s.tables, ps);
    if c.WayChange? {
      DeletePatches(g, c, s);
      PutAt(s.tables, ps[0], x);
      PutAt(Put(s.tables, ps[0]), ps[1], x);
      if c.way.id == id { ErasedCells(id, x); } else { ErasedElsewhere(c.way.id, id, x); }
    } else {
      PatchesElsewhere(g, c, s, id, x);
      if |ps| > 0 {
        PutAt(s.tables, ps[0], x);
        if |ps| > 1 { PutAt(Put(s.tables, ps[0]), ps[1], x); }
      }
    }
  }

  lemma DeletePatches(g: Regions, c: Change, s: Site)
    requires c.WayChange? && c.action.Delete?
    ensures Patches(g, c, s) == [Erase(WayKind, c.way.id), Erase(AreaKind, c.way.id)]
  {
    hide Erase;
  }

  /** Node and relation changes write no way or area. */
  lemma PatchesElsewhere(g: Regions, c: Change, s: Site, id: int, x: Cell)
    requires ReplayWays.WayCell(x, id) && !c.WayChange?
    ensures |Patches(g, c, s)| <= 2 && forall p :: p in Patches(g, c, s) ==> x !in p
  {
    hide InAny, Kept, RelationShape, NavTables.NoCollision, IsRoad, HasSurvivingTag;
  }

  lemma OtherPlanet(c: Change, w: World, id: int, x: Cell)
    requires ReplayWays.WayCell(x, id) && (c.WayChange? ==> c.action.Delete?)
    ensures Get(PlanetApply(c, w), x) == if c.WayChange? && c.way.id == id then Absent else Get(w, x)
  {
    hide Get, Exec, NavTables.NoCollision, IsRoad;
    var steps := StepsOf(c);
    assert RunTo(steps, 0, w) == w;
    assert RunTo(steps, 1, w) == Exec(steps[0], w);
    assert |steps| == 2 ==> RunTo(steps, 2, w) == Exec(steps[1], RunTo(steps, 1, w));
    if c.WayChange? && c.way.id == id {
      Erased(WayKind, id, w, x);
      Erased(AreaKind, id, Exec(steps[0], w), x);
    } else {
      ReplayWays.OtherStep(steps[0], w, x, id);
      if |steps| == 2 { ReplayWays.OtherStep(steps[1], Exec(steps[0], w), x, id); }
    }
  }

  lemma Erased(kind: Kind, id: int, w: World, x: Cell)
    requires ReplayWays.WayCell(x, id)
    ensures Get(Exec(EraseEntity(kind, id), w), x) == if x.kind == kind then Absent else Get(w, x)
  {
    hide Get, Put;
    PutAt(w, Erase(kind, id), x);
  }

  lemma ChangeKeepsAgreement(g: Regions, c: Change, s: Site, w: World)
    requires TablesAgree(g, s, w) && Agrees(s, w) && FullyResolved(c, s, w)
    ensures TablesAgree(g, ApplyChange(g, c, s), PlanetApply(c, w))
  {
    hide Get, ApplyChange, PlanetApply, Agrees, FullyResolved, NavTables.NoCollision, RowMatchesHere;
    var r, v := ApplyChange(g, c, s), PlanetApply(c, w);
    forall id ensures WayAgrees(g, r.tables, v, id) {
      assert WayAgrees(g, s.tables, w, id);
      if c.WayChange? && !c.action.Delete? {
        UpsertKeepsAgreement(g, c.way, c.action, s, w, id);
      } else {
        forall x | ReplayWays.WayCell(x, id)
          ensures var gone := c.WayChange? && c.way.id == id;
            Get(r.tables, x) == (if gone then Absent else Get(s.tables, x)) && Get(v, x) == (if gone then Absent else Get(w, x))
        {
          OtherChange(g, c, s, w, id, x);
        }
        if c.WayChange? && c.way.id == id { GoneAgrees(g, r.tables, v, id); } else { SameCellsAgree(g, s.tables, w, r.tables, v, id); }
      }
    }
  }

  lemma GoneAgrees(g: Regions, t: World, v: World, id: int)
    requires forall c :: ReplayWays.WayCell(c, id) ==> Get(t, c) == Absent && Get(v, c) == Absent
    ensures WayAgrees(g, t, v, id)
  {
    hide Get, RowMatchesHere;
    assert ReplayWays.WayCell(RowCell(WayKind, id), id) && ReplayWays.WayCell(TagCell(WayKind, id), id);
    assert ReplayWays.WayCell(RowCell(AreaKind, id), id) && ReplayWays.WayCell(TagCell(AreaKind, id), id);
  }

  // ---------------------------------------------------------------- runs

  /** Ways resolve as fully as on the planet, and no crash falls between a way's two transactions. */
  ghost predicate ResolvedAt(g: Regions, e: Event, s: Site, w: World) {
    match e
    case Do(c) => FullyResolved(c, s, w)
    case Flush => true
    case Crash(c, k) => c.WayChange? ==> k == 0
  }

  ghost predicate ResolvedRun(g: Regions, es: seq<Event>, s: Site, w: World) {
    forall i :: 0 <= i < |es| ==> ResolvedAt(g, es[i], Run(g, es[..i], s), PlanetRun(es[..i], w))
  }

  lemma CrashKeepsWays(g: Regions, c: Change, k: nat, s: Site, w: World)
    requires TablesAgree(g, s, w) && (c.WayChange? ==> k == 0)
    ensures TablesAgree(g, RegionalDelta.Next(g, Crash(c, k), s), w)
  {
    hide Get, Put, PutAll, Patches, WayAgrees;
    var ps := Patches(g, c, s);
    var part := if k <= |ps| then ps[..k] else ps;
    forall id ensures WayAgrees(g, PutAll(s.tables, part), w, id) {
      forall x | ReplayWays.WayCell(x, id) ensures Get(PutAll(s.tables, part), x) == Get(s.tables, x) {
        PutTwo(s.tables, part);
        if !c.WayChange? {
          PatchesElsewhere(g, c, s, id, x);
          if |part| > 0 {
            assert part[0] in ps;
            PutAt(s.tables, part[0], x);
            if |part| > 1 { assert part[1] in ps; PutAt(Put(s.tables, part[0]), part[1], x); }
          }
        }
      }
      SameCellsAgree(g, s.tables, w, PutAll(s.tables, part), w, id);
    }
  }

  /**
   After any run of harmless diffs, restarts included, whose ways resolve as fully as on the
   planet, the region's ways and areas, with their tags, are exactly the planet's that match an
   installed region.
   */
  lemma {:induction false} RunTablesAgree(g: Regions, es: seq<Event>, s: Site, w: World)
    requires Agrees(s, w) && TablesAgree(g, s, w) && HarmlessRun(g, es, s, w) && ResolvedRun(g, es, s, w)
    ensures TablesAgree(g, Run(g, es, s), PlanetRun(es, w))
  {
    hide Agrees, PlanetApply, Harmless, FullyResolved, ApplyChange, TablesAgree;
    if es != [] {
      var n := |es| - 1;
      var before, e := es[..n], es[n];
      PrefixHarmless(g, es, s, w);
      PrefixResolved(g, es, s, w);
      RunTablesAgree(g, before, s, w);
      RunAgrees(g, before, s, w);
      var was, ref := Run(g, before, s), PlanetRun(before, w);
      match e
      case Do(c) => ChangeKeepsAgreement(g, c, was, ref);
      case Flush => SameTables(g, was, RegionalDelta.Next(g, e, was), ref);
      case Crash(c, k) => CrashKeepsWays(g, c, k, was, ref);
    }
  }

  lemma SameTables(g: Regions, s: Site, t: Site, w: World)
    requires TablesAgree(g, s, w) && t.tables == s.tables
    ensures TablesAgree(g, t, w)
  {
    hide WayAgrees;
  }

  lemma PrefixResolved(g: Regions, es: seq<Event>, s: Site, w: World)
    requires es != [] && ResolvedRun(g, es, s, w)
    ensures ResolvedRun(g, es[..|es| - 1], s, w)
    ensures ResolvedAt(g, es[|es| - 1], Run(g, es[..|es| - 1], s), PlanetRun(es[..|es| - 1], w))
  {
    hide Run, PlanetRun, ResolvedAt;
    var before := es[..|es| - 1];
    forall i | 0 <= i < |before| ensures ResolvedAt(g, before[i], Run(g, before[..i], s), PlanetRun(before[..i], w)) {
      assert before[..i] == es[..i] && before[i] == es[i];
    }
  }
}
