/**
 The regional applier as it runs (`RegionalDeltaApplier`): each method is proved to do
 exactly what the state model of the region says.
 */
module RegionalApplier {
  import opened Core
  import opened Geometry
  import opened NavTables
  import opened Delta
  import opened RegionalDelta
  import opened Applier

  class RegionalDeltaApplier {
    const db: Database
    const base: map<int, Coord>
    const regions: Regions
    var overlay: map<int, Coord>
    var pending: map<int, Coord>
    var hits: seq<int>
    var created: nat
    var modified: nat
    var deleted: nat

    constructor (nodeMap: map<int, Coord>, database: Database, installed: Regions)
      requires database.Valid()
      ensures db == database && base == nodeMap && regions == installed
      ensures Here() == Site(nodeMap, map[], map[], database.tables) && Fresh(Here())
      ensures created == modified == deleted == 0
    {
      db, base, regions := database, nodeMap, installed;
      overlay, pending, hits := map[], map[], [];
      created, modified, deleted := 0, 0, 0;
    }

    ghost function Here(): Site
      reads this, db
    {
      Site(base, overlay, pending, db.tables)
    }

    method ResolveNode(id: int) returns (at: Option<Coord>)
      modifies this`hits
      ensures at == Resolve(Here(), id)
      ensures hits == old(hits) + (if ServedFromPending(Here(), id) then [id] else [])
    {
      if id in base { return Some(base[id]); }
      if id in overlay { return Some(overlay[id]); }
      if id in pending {
        hits := hits + [id];
        return Some(pending[id]);
      }
      return None;
    }

    method InRegion(shape: Option<Geom>) returns (b: bool)
      ensures b == ShapeIn(regions, shape)
    {
      if shape.None? { return false; }
      for r := 0 to regions.count
        invariant forall q: nat :: q < r ==> !regions.matches(q, shape.value)
      {
        if regions.matches(r, shape.value) { return true; }
      }
      return false;
    }

    /** `hits` lists exactly the ids that came from the pending nodes. */
    method BuildWayGeom(way: WayEntry) returns (shape: Option<Geom>)
      modifies this`hits
      ensures shape == Shape(Here(), way)
      ensures forall id :: id in hits <==> id in way.refs && ServedFromPending(Here(), id)
    {
      hide BuildWay;
      hits := [];
      var points: seq<Coord> := [];
      assert way.refs[..0] == [];
      for i := 0 to |way.refs|
        invariant points == Coords(Here(), way.refs[..i])
        invariant forall id :: id in hits <==> id in way.refs[..i] && ServedFromPending(Here(), id)
      {
        assert way.refs[..i + 1][..i] == way.refs[..i];
        assert way.refs[..i + 1] == way.refs[..i] + [way.refs[i]];
        var at := ResolveNode(way.refs[i]);
        if at.Some? { points := points + [at.value]; }
      }
      assert way.refs[..|way.refs|] == way.refs;
      shape := BuildWay(points);
    }

    method PromoteHits(refs: seq<int>)
      requires forall id :: id in hits <==> id in refs && ServedFromPending(Here(), id)
      modifies this`overlay, this`pending
      ensures Here() == Promote(old(Here()), refs)
    {
      hide Promote;
      ghost var s := Here();
      PromoteNone(s);
      assert hits[..0] == [];
      for i := 0 to |hits|
        invariant hits == old(hits) && Here() == Promote(s, hits[..i])
      {
        var id := hits[i];
        assert hits[..i + 1] == hits[..i] + [id];
        PromoteOne(s, hits[..i], id);
        if id in pending {
          if id !in overlay { overlay := overlay[id := pending[id]]; }
          pending := pending - {id};
        }
      }
      assert hits[..|hits|] == hits;
      PromoteSame(s, hits, refs);
    }

    method UpsertWay(way: WayEntry, ghost a: Action)
      requires db.Valid() && !a.Delete?
      modifies this`overlay, this`pending, this`hits, db
      ensures db.Valid() && Here() == ApplyChange(regions, WayChange(a, way), old(Here()))
    {
      hide Database.Valid, Promote, Shape, InAny, Put, Upsert, Erase, PutAll, NavTables.NoCollision;
      ghost var s := Here();
      ghost var ps := WayPatches(regions, way, Shape(s, way));
      PutTwo(s.tables, ps);
      var shape := BuildWayGeom(way);
      if shape.None? { return; }
      var inside := InRegion(shape);
      if !inside {
        db.DeleteEntity(WayKind, way.id);
        db.DeleteEntity(AreaKind, way.id);
        return;
      }
      PromoteBase(s, way.refs);
      PromoteHits(way.refs);
      if shape.value.Polygon? {
        db.DeleteEntity(WayKind, way.id);
        db.UpdateEntity(AreaKind, way.id, GeomRow(way.name, shape), way.tags);
      } else {
        db.DeleteEntity(AreaKind, way.id);
        db.UpdateEntity(WayKind, way.id, GeomRow(way.name, shape), way.tags);
      }
    }

    method BuildRelationGeom(r: RelationEntry) returns (shape: Option<Geom>)
      requires db.Valid()
      ensures shape == RelationShape(db.tables, r)
    {
      hide MergeLines, NavTables.GetWay;
      var geoms: seq<Geom> := [];
      assert r.members[..0] == [];
      for i := 0 to |r.members|
        invariant geoms == MemberShapes(db.tables, r.members[..i])
      {
        MemberSnoc(db.tables, r.members[..i], r.members[i]);
        assert r.members[..i + 1] == r.members[..i] + [r.members[i]];
        var g := db.GetWay(r.members[i]);
        if g.Some? { geoms := geoms + [g.value]; }
      }
      assert r.members[..|r.members|] == r.members;
      shape := MergeLines(geoms);
    }

    method UpsertRelation(r: RelationEntry, ghost a: Action)
      requires db.Valid() && !a.Delete?
      modifies db
      ensures db.Valid() && Here() == ApplyChange(regions, RelationChange(a, r), old(Here()))
    {
      hide Database.Valid, RelationShape, ShapeIn, Put, Upsert, Erase, PutAll, IsRoad, NavTables.NoCollision;
      ghost var s := Here();
      PutTwo(s.tables, RelationPatches(regions, r, RelationShape(s.tables, r)));
      var shape := BuildRelationGeom(r);
      var inside := InRegion(shape);
      if !inside {
        db.DeleteEntity(RelationKind, r.id);
        db.DeleteEntity(RoadKind, r.id);
        return;
      }
      db.UpdateEntity(RelationKind, r.id, GeomRow(r.name, shape), r.tags);
      if IsRoad(r.tags) {
        db.UpdateEntity(RoadKind, r.id, GeomRow(r.name, shape), r.tags);
      } else {
        db.DeleteEntity(RoadKind, r.id);
      }
    }

    method ApplyNode(a: Action, n: NodeEntry)
      requires db.Valid()
      modifies this`overlay, this`pending, db
      ensures db.Valid() && Here() == ApplyChange(regions, NodeChange(a, n), old(Here()))
    {
      hide InAny, Upsert, Erase, PutAll, NavTables.NoCollision;
      ghost var s := Here();
      PutTwo(s.tables, Patches(regions, NodeChange(a, n), s));
      if a.Delete? {
        pending := pending - {n.id};
        overlay := overlay - {n.id};
        db.DeleteEntity(NodeKind, n.id);
        return;
      }
      pending := pending[n.id := n.at];
      if a.Create? && n.tags == map[] { return; }
      var inside := InRegion(Some(Point(n.at)));
      if inside {
        db.UpdateEntity(NodeKind, n.id, NodeRow(n.name, n.at, n.geog), n.tags);
      } else if a.Modify? {
        db.DeleteEntity(NodeKind, n.id);
      }
    }

    method DeletePair(first: Kind, second: Kind, id: int)
      requires db.Valid()
      modifies db
      ensures db.Valid() && db.tables == PutAll(old(db.tables), [Erase(first, id), Erase(second, id)])
    {
      hide Erase, PutAll;
      PutTwo(db.tables, [Erase(first, id), Erase(second, id)]);
      db.DeleteEntity(first, id);
      db.DeleteEntity(second, id);
    }

    /** The dispatcher: one change does exactly what the region's state model says. */
    method Apply(c: Change)
      requires db.Valid()
      modifies this, db
      ensures db.Valid() && Here() == ApplyChange(regions, c, old(Here()))
      ensures created == old(created) + (if c.action.Create? then 1 else 0)
      ensures modified == old(modified) + (if c.action.Modify? then 1 else 0)
      ensures deleted == old(deleted) + (if c.action.Delete? then 1 else 0)
    {
      hide Promote, PutAll, WayPatches, RelationPatches, InAny, Shape, RelationShape, Erase, Upsert, NavTables.NoCollision;
      match c {
        case NodeChange(a, n) => ApplyNode(a, n);
        case WayChange(a, way) =>
          if a.Delete? { DeletePair(WayKind, AreaKind, way.id); } else { UpsertWay(way, a); }
        case RelationChange(a, r) =>
          if a.Delete? { DeletePair(RelationKind, RoadKind, r.id); } else { UpsertRelation(r, a); }
      }
      match c.action
      case Create => created := created + 1;
      case Modify => modified := modified + 1;
      case Delete => deleted := deleted + 1;
    }

    method FlushDiff()
      modifies this`pending
      ensures Here() == Next(regions, Flush, old(Here()))
    {
      pending := map[];
    }
  }

  lemma PromoteNone(s: Site)
    ensures Promote(s, []) == s
  {}

  /** `emplace`, then `erase`. */
  lemma PromoteOne(s: Site, refs: seq<int>, id: int)
    requires ServedFromPending(s, id)
    ensures var p, q := Promote(s, refs), Promote(s, refs + [id]);
      if id in p.pending
      then q == p.(overlay := if id in p.overlay then p.overlay else p.overlay[id := p.pending[id]], pending := p.pending - {id})
      else q == p
  {
    hide Promote, ServedFromPending;
    OverlayOne(s, refs, id);
    PendingOne(s, refs, id);
    PromoteBase(s, refs);
    PromoteBase(s, refs + [id]);
  }

  lemma OverlayOne(s: Site, refs: seq<int>, id: int)
    requires ServedFromPending(s, id)
    ensures var p, q := Promote(s, refs), Promote(s, refs + [id]);
      && (id in p.overlay <==> id !in p.pending)
      && q.overlay == if id in p.pending then p.overlay[id := p.pending[id]] else p.overlay
  {}

  lemma PendingOne(s: Site, refs: seq<int>, id: int)
    requires ServedFromPending(s, id)
    ensures var p, q := Promote(s, refs), Promote(s, refs + [id]);
      q.pending == if id in p.pending then p.pending - {id} else p.pending
  {}

  lemma PromoteSame(s: Site, a: seq<int>, b: seq<int>)
    requires forall id :: id in a <==> id in b && ServedFromPending(s, id)
    ensures Promote(s, a) == Promote(s, b)
  {}
}
