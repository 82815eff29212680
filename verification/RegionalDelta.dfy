/**
 The regional delta applier as a state (src/RegionalDeltaApplier.cpp): node coordinates in a
 read-only base file, an overlay of promoted nodes and the pending nodes of the current
 diff; tables limited to what matches an installed region. The region test is arbitrary.
 */
module RegionalDelta {
  import opened Core
  import opened Geometry
  import opened NavTables
  import opened Delta
  import opened Integrity

  datatype Site = Site(base: map<int, Coord>, overlay: map<int, Coord>, pending: map<int, Coord>, tables: World)

  /** Installed regions and the test against each. */
  datatype Regions = Regions(count: nat, matches: (nat, Geom) -> bool)

  predicate InAny(g: Regions, shape: Geom) { exists r: nat :: r < g.count && g.matches(r, shape) }

  predicate ShapeIn(g: Regions, shape: Option<Geom>) { shape.Some? && InAny(g, shape.value) }

  // ---------------------------------------------------------------- coordinates

  /** The base file first, then the overlay, then the pending nodes. */
  function Resolve(s: Site, id: int): Option<Coord> {
    if id in s.base then Some(s.base[id])
    else if id in s.overlay then Some(s.overlay[id])
    else if id in s.pending then Some(s.pending[id])
    else None
  }

  predicate ServedFromPending(s: Site, id: int) { id !in s.base && id !in s.overlay && id in s.pending }

  function Coords(s: Site, refs: seq<int>): seq<Coord> {
    if refs == [] then []
    else Coords(s, refs[..|refs| - 1]) + Found(Resolve(s, refs[|refs| - 1]))
  }

  function Found(at: Option<Coord>): seq<Coord> { if at.Some? then [at.value] else [] }

  function Shape(s: Site, way: WayEntry): Option<Geom> { BuildWay(Coords(s, way.refs)) }

  /** Ids a way needed from the pending nodes move to the overlay. */
  function Promote(s: Site, refs: seq<int>): Site {
    s.(overlay := map id | id in s.overlay.Keys + s.pending.Keys && (id in s.overlay || (id in refs && ServedFromPending(s, id)))
                    :: if id in s.overlay then s.overlay[id] else s.pending[id],
       pending := map id | id in s.pending && !(id in refs && ServedFromPending(s, id)) :: s.pending[id])
  }

  // ---------------------------------------------------------------- one change

  /** The transactions of a change, in order; all decided before the first one runs. */
  function Patches(g: Regions, c: Change, s: Site): seq<map<Cell, Content>> {
    match c
    case NodeChange(Create, n) =>
      if n.tags != map[] && InAny(g, Point(n.at)) then [Upsert(NodeKind, n.id, NodeRow(n.name, n.at, n.geog), n.tags)] else []
    case NodeChange(Modify, n) =>
      [if InAny(g, Point(n.at)) then Upsert(NodeKind, n.id, NodeRow(n.name, n.at, n.geog), n.tags) else Erase(NodeKind, n.id)]
    case NodeChange(Delete, n) => [Erase(NodeKind, n.id)]
    case WayChange(Delete, way) => [Erase(WayKind, way.id), Erase(AreaKind, way.id)]
    case WayChange(_, way) => WayPatches(g, way, Shape(s, way))
    case RelationChange(Delete, r) => [Erase(RelationKind, r.id), Erase(RoadKind, r.id)]
    case RelationChange(_, r) => RelationPatches(g, r, RelationShape(s.tables, r))
  }

  function WayPatches(g: Regions, way: WayEntry, shape: Option<Geom>): seq<map<Cell, Content>> {
    if shape.None? then []
    else if !InAny(g, shape.value) then [Erase(WayKind, way.id), Erase(AreaKind, way.id)]
    else if shape.value.Polygon? then [Erase(WayKind, way.id), Upsert(AreaKind, way.id, GeomRow(way.name, shape), way.tags)]
    else [Erase(AreaKind, way.id), Upsert(WayKind, way.id, GeomRow(way.name, shape), way.tags)]
  }

  function RelationPatches(g: Regions, r: RelationEntry, shape: Option<Geom>): seq<map<Cell, Content>> {
    if !ShapeIn(g, shape) then [Erase(RelationKind, r.id), Erase(RoadKind, r.id)]
    else [Upsert(RelationKind, r.id, GeomRow(r.name, shape), r.tags),
          if IsRoad(r.tags) then Upsert(RoadKind, r.id, GeomRow(r.name, shape), r.tags) else Erase(RoadKind, r.id)]
  }

  /** The in-memory side of a change. */
  function Remember(g: Regions, c: Change, s: Site): Site {
    match c
    case NodeChange(Delete, n) => s.(pending := s.pending - {n.id}, overlay := s.overlay - {n.id})
    case NodeChange(_, n) => s.(pending := s.pending[n.id := n.at])
    case WayChange(Delete, way) => s
    case WayChange(_, way) => if ShapeIn(g, Shape(s, way)) then Promote(s, way.refs) else s
    case RelationChange(_, _) => s
  }

  function PutAll(w: World, patches: seq<map<Cell, Content>>): World {
    if patches == [] then w else Put(PutAll(w, patches[..|patches| - 1]), patches[|patches| - 1])
  }

  function ApplyChange(g: Regions, c: Change, s: Site): Site {
    Remember(g, c, s).(tables := PutAll(s.tables, Patches(g, c, s)))
  }

  // ---------------------------------------------------------------- runs

  /** A change, the end of a diff, or a crash after `k` transactions of a change and a restart. */
  datatype Event = Do(change: Change) | Flush | Crash(change: Change, k: nat)

  function Next(g: Regions, e: Event, s: Site): Site {
    match e
    case Do(c) => ApplyChange(g, c, s)
    case Flush => s.(pending := map[])
    case Crash(c, k) =>
      var patches := Patches(g, c, s);
      s.(pending := map[], overlay := map[], tables := PutAll(s.tables, if k <= |patches| then patches[..k] else patches))
  }

  function Run(g: Regions, es: seq<Event>, s: Site): Site {
    if es == [] then s else Next(g, es[|es| - 1], Run(g, es[..|es| - 1], s))
  }

  /** What an export leaves: nothing promoted, nothing pending. */
  predicate Fresh(s: Site) { s.overlay == map[] && s.pending == map[] }

  // ---------------------------------------------------------------- rows stay in the regions

  predicate RowIn(g: Regions, row: Row) {
    match row
    case NodeRow(_, at, _) => InAny(g, Point(at))
    case GeomRow(_, shape) => ShapeIn(g, shape)
  }

  predicate ContentIn(g: Regions, x: Content) { x.Stored? ==> RowIn(g, x.row) }

  /** Every stored row matches some installed region. */
  ghost predicate RowsIn(g: Regions, w: World) { forall c :: ContentIn(g, Get(w, c)) }

  ghost predicate PatchIn(g: Regions, patch: map<Cell, Content>) { forall c :: c in patch ==> ContentIn(g, patch[c]) }

  lemma PutIn(g: Regions, w: World, patch: map<Cell, Content>)
    requires RowsIn(g, w) && PatchIn(g, patch)
    ensures RowsIn(g, Put(w, patch))
  {
    hide ContentIn, Get, Put;
    forall c ensures ContentIn(g, Get(Put(w, patch), c)) {
      assert Get(Put(w, patch), c) == if c in patch then patch[c] else Get(w, c) by { PutAt(w, patch, c); }
      assert ContentIn(g, Get(w, c));
    }
  }

  lemma PutAt(w: World, patch: map<Cell, Content>, c: Cell)
    ensures Get(Put(w, patch), c) == if c in patch then patch[c] else Get(w, c)
  {}

  lemma UpsertIn(g: Regions, kind: Kind, id: int, row: Row, tags: Tags)
    requires RowIn(g, row)
    ensures PatchIn(g, Upsert(kind, id, row, tags))
  {
    hide Kept, RowIn, NavTables.NoCollision;
  }

  lemma EraseIn(g: Regions, kind: Kind, id: int)
    ensures PatchIn(g, Erase(kind, id))
  {
    hide RowIn;
  }

  lemma WayPatchesIn(g: Regions, way: WayEntry, shape: Option<Geom>)
    ensures forall p :: p in WayPatches(g, way, shape) ==> PatchIn(g, p)
  {
    hide Upsert, Erase, PatchIn, InAny, NavTables.NoCollision;
    EraseIn(g, WayKind, way.id);
    EraseIn(g, AreaKind, way.id);
    if ShapeIn(g, shape) {
      UpsertIn(g, AreaKind, way.id, GeomRow(way.name, shape), way.tags);
      UpsertIn(g, WayKind, way.id, GeomRow(way.name, shape), way.tags);
    }
  }

  lemma RelationPatchesIn(g: Regions, r: RelationEntry, shape: Option<Geom>)
    ensures forall p :: p in RelationPatches(g, r, shape) ==> PatchIn(g, p)
  {
    hide Upsert, Erase, PatchIn, InAny, IsRoad, NavTables.NoCollision;
    EraseIn(g, RelationKind, r.id);
    EraseIn(g, RoadKind, r.id);
    if ShapeIn(g, shape) {
      UpsertIn(g, RelationKind, r.id, GeomRow(r.name, shape), r.tags);
      UpsertIn(g, RoadKind, r.id, GeomRow(r.name, shape), r.tags);
    }
  }

  lemma PatchesIn(g: Regions, c: Change, s: Site)
    ensures forall p :: p in Patches(g, c, s) ==> PatchIn(g, p)
  {
    hide Upsert, Erase, PatchIn, InAny, WayPatches, RelationPatches, Shape, RelationShape, NavTables.NoCollision;
    match c
    case NodeChange(_, n) =>
      EraseIn(g, NodeKind, n.id);
      if InAny(g, Point(n.at)) { UpsertIn(g, NodeKind, n.id, NodeRow(n.name, n.at, n.geog), n.tags); }
    case WayChange(_, way) =>
      EraseIn(g, WayKind, way.id);
      EraseIn(g, AreaKind, way.id);
      WayPatchesIn(g, way, Shape(s, way));
    case RelationChange(_, r) =>
      EraseIn(g, RelationKind, r.id);
      EraseIn(g, RoadKind, r.id);
      RelationPatchesIn(g, r, RelationShape(s.tables, r));
  }

  lemma {:induction false} PutAllIn(g: Regions, w: World, patches: seq<map<Cell, Content>>)
    requires RowsIn(g, w) && forall p :: p in patches ==> PatchIn(g, p)
    ensures RowsIn(g, PutAll(w, patches))
  {
    hide RowsIn, PatchIn, Put;
    if patches != [] {
      PutAllIn(g, w, patches[..|patches| - 1]);
      PutIn(g, PutAll(w, patches[..|patches| - 1]), patches[|patches| - 1]);
    }
  }

  lemma NextIn(g: Regions, e: Event, s: Site)
    requires RowsIn(g, s.tables)
    ensures RowsIn(g, Next(g, e, s).tables)
  {
    hide RowsIn, Patches, PatchIn, PutAll, Remember;
    match e
    case Do(c) =>
      PatchesIn(g, c, s);
      PutAllIn(g, s.tables, Patches(g, c, s));
    case Flush =>
    case Crash(c, k) =>
      PatchesIn(g, c, s);
      var patches := Patches(g, c, s);
      PutAllIn(g, s.tables, if k <= |patches| then patches[..k] else patches);
  }

  /** Over every run, crashes in the middle of a change included, every row stays in some region. */
  lemma {:induction false} RunStaysIn(g: Regions, es: seq<Event>, s: Site)
    requires RowsIn(g, s.tables)
    ensures RowsIn(g, Run(g, es, s).tables)
  {
    hide RowsIn, Next;
    if es != [] {
      RunStaysIn(g, es[..|es| - 1], s);
      NextIn(g, es[|es| - 1], Run(g, es[..|es| - 1], s));
    }
  }

  // ---------------------------------------------------------------- tables stay consistent

  lemma PutTwo(w: World, ps: seq<map<Cell, Content>>)
    ensures |ps| == 0 ==> PutAll(w, ps) == w
    ensures |ps| == 1 ==> PutAll(w, ps) == Put(w, ps[0])
    ensures |ps| == 2 ==> PutAll(w, ps) == Put(Put(w, ps[0]), ps[1])
  {
    hide Put;
    if |ps| > 0 {
      assert PutAll(w, ps) == Put(PutAll(w, ps[..|ps| - 1]), ps[|ps| - 1]);
      if |ps| == 2 { assert PutAll(w, ps[..1]) == Put(PutAll(w, ps[..1][..0]), ps[0]); }
    }
  }

  lemma UpsertKeeps(w: World, kind: Kind, id: int, row: Row, tags: Tags)
    requires Consistent(w) && (kind == WayKind ==> !Has(w, AreaKind, id)) && (kind == AreaKind ==> !Has(w, WayKind, id))
    ensures Consistent(Put(w, Upsert(kind, id, row, tags)))
  {
    hide Consistent, Put, Upsert, Get, NavTables.NoCollision;
    UpsertPaired(kind, id, row, tags);
    PutKeeps(w, Upsert(kind, id, row, tags), kind, id);
  }

  lemma ErasedGone(w: World, kind: Kind, id: int)
    ensures !Has(Put(w, Erase(kind, id)), kind, id)
  {
    hide Put;
    PutAt(w, Erase(kind, id), RowCell(kind, id));
  }

  lemma WayPatchesConsistent(g: Regions, way: WayEntry, shape: Option<Geom>, w: World)
    requires Consistent(w)
    ensures var ps := WayPatches(g, way, shape);
      && |ps| <= 2
      && (|ps| > 0 ==> Consistent(Put(w, ps[0])))
      && (|ps| > 1 ==> Consistent(Put(Put(w, ps[0]), ps[1])))
  {
    hide Consistent, Put, Upsert, Erase, Has, InAny, NavTables.NoCollision;
    EraseKeeps(w, WayKind, way.id);
    EraseKeeps(w, AreaKind, way.id);
    var noWay, noArea := Put(w, Erase(WayKind, way.id)), Put(w, Erase(AreaKind, way.id));
    ErasedGone(w, WayKind, way.id);
    ErasedGone(w, AreaKind, way.id);
    EraseKeeps(noWay, AreaKind, way.id);
    UpsertKeeps(noWay, AreaKind, way.id, GeomRow(way.name, shape), way.tags);
    UpsertKeeps(noArea, WayKind, way.id, GeomRow(way.name, shape), way.tags);
  }

  lemma RelationPatchesConsistent(g: Regions, r: RelationEntry, shape: Option<Geom>, w: World)
    requires Consistent(w)
    ensures var ps := RelationPatches(g, r, shape);
      && |ps| == 2
      && Consistent(Put(w, ps[0])) && Consistent(Put(Put(w, ps[0]), ps[1]))
  {
    hide Consistent, Put, Upsert, Erase, Has, ShapeIn, IsRoad, NavTables.NoCollision;
    var row := GeomRow(r.name, shape);
    EraseKeeps(w, RelationKind, r.id);
    EraseKeeps(Put(w, Erase(RelationKind, r.id)), RoadKind, r.id);
    UpsertKeeps(w, RelationKind, r.id, row, r.tags);
    var mid := Put(w, Upsert(RelationKind, r.id, row, r.tags));
    EraseKeeps(mid, RoadKind, r.id);
    UpsertKeeps(mid, RoadKind, r.id, row, r.tags);
  }

  lemma PatchesConsistent(g: Regions, c: Change, s: Site)
    requires Consistent(s.tables)
    ensures var ps := Patches(g, c, s);
      && |ps| <= 2
      && (|ps| > 0 ==> Consistent(Put(s.tables, ps[0])))
      && (|ps| > 1 ==> Consistent(Put(Put(s.tables, ps[0]), ps[1])))
  {
    hide Consistent, Put, Upsert, Erase, Has, InAny, Shape, RelationShape, WayPatches, RelationPatches, NavTables.NoCollision;
    match c
    case NodeChange(_, n) =>
      EraseKeeps(s.tables, NodeKind, n.id);
      UpsertKeeps(s.tables, NodeKind, n.id, NodeRow(n.name, n.at, n.geog), n.tags);
    case WayChange(Delete, way) =>
      EraseKeeps(s.tables, WayKind, way.id);
      EraseKeeps(Put(s.tables, Erase(WayKind, way.id)), AreaKind, way.id);
    case WayChange(_, way) => WayPatchesConsistent(g, way, Shape(s, way), s.tables);
    case RelationChange(Delete, r) =>
      EraseKeeps(s.tables, RelationKind, r.id);
      EraseKeeps(Put(s.tables, Erase(RelationKind, r.id)), RoadKind, r.id);
    case RelationChange(_, r) => RelationPatchesConsistent(g, r, RelationShape(s.tables, r), s.tables);
  }

  lemma NextConsistent(g: Regions, e: Event, s: Site)
    requires Consistent(s.tables)
    ensures Consistent(Next(g, e, s).tables)
  {
    hide Consistent, Patches, PutAll, Remember, Put;
    if !e.Flush? {
      var ps := Patches(g, e.change, s);
      PatchesConsistent(g, e.change, s);
      PutTwo(s.tables, ps);
      if e.Crash? && e.k <= |ps| { PutTwo(s.tables, ps[..e.k]); }
    }
  }

  /** Over every run, crashes included, tag rows have parents and no id is both way and area. */
  lemma {:induction false} RunStaysConsistent(g: Regions, es: seq<Event>, s: Site)
    requires Consistent(s.tables)
    ensures Consistent(Run(g, es, s).tables)
  {
    hide Consistent, Next;
    if es != [] {
      RunStaysConsistent(g, es[..|es| - 1], s);
      NextConsistent(g, es[|es| - 1], Run(g, es[..|es| - 1], s));
    }
  }

  // ---------------------------------------------------------------- overlay

  /** Nodes are promoted only when the base file lacks them, and leave the pending nodes. */
  ghost predicate OverlayApart(s: Site) { forall id :: id in s.overlay ==> id !in s.base }

  lemma PromoteResolves(s: Site, refs: seq<int>, id: int)
    ensures Resolve(Promote(s, refs), id) == Resolve(s, id)
    ensures id in s.overlay ==> id in Promote(s, refs).overlay && Promote(s, refs).overlay[id] == s.overlay[id]
    ensures id in refs && ServedFromPending(s, id) ==> id in Promote(s, refs).overlay
  {}

  lemma PromoteApart(s: Site, refs: seq<int>)
    requires OverlayApart(s)
    ensures OverlayApart(Promote(s, refs))
  {}

  /** The overlay keeps an id, with its coordinate, through every event but its deletion and a restart. */
  predicate Forgets(e: Event, id: int) {
    e.Crash? || (e.Do? && e.change.NodeChange? && e.change.action.Delete? && e.change.node.id == id)
  }

  lemma NextOverlay(g: Regions, e: Event, s: Site, id: int)
    requires OverlayApart(s)
    ensures OverlayApart(Next(g, e, s)) && Next(g, e, s).base == s.base
    ensures id in s.overlay && !Forgets(e, id) ==> id in Next(g, e, s).overlay && Next(g, e, s).overlay[id] == s.overlay[id]
  {
    hide Patches, PutAll, Promote, Shape, InAny;
    if e.Do? && e.change.WayChange? {
      PromoteApart(s, e.change.way.refs);
      PromoteResolves(s, e.change.way.refs, id);
      PromoteBase(s, e.change.way.refs);
    }
  }

  lemma PromoteBase(s: Site, refs: seq<int>)
    ensures Promote(s, refs).base == s.base && Promote(s, refs).tables == s.tables
  {}

  /** A promoted node resolves, to the coordinate it was promoted with, until deleted or restarted. */
  lemma {:induction false} PromotedResolves(g: Regions, es: seq<Event>, s: Site, id: int)
    requires OverlayApart(s) && id in s.overlay
    requires forall i :: 0 <= i < |es| ==> !Forgets(es[i], id)
    ensures var r := Run(g, es, s);
      OverlayApart(r) && r.base == s.base && id in r.overlay && Resolve(r, id) == Some(s.overlay[id]) == Resolve(s, id)
  {
    hide Next, Forgets;
    if es != [] {
      var before := es[..|es| - 1];
      PromotedResolves(g, before, s, id);
      NextOverlay(g, es[|es| - 1], Run(g, before, s), id);
    }
  }

  lemma {:induction false} RunApart(g: Regions, es: seq<Event>, s: Site)
    requires OverlayApart(s)
    ensures OverlayApart(Run(g, es, s)) && Run(g, es, s).base == s.base
  {
    hide Next;
    if es != [] {
      RunApart(g, es[..|es| - 1], s);
      NextOverlay(g, es[|es| - 1], Run(g, es[..|es| - 1], s), 0);
    }
  }

  /** Every node an in-region way resolved survives the end of its diff. */
  lemma UsedNodesSurvive(g: Regions, way: WayEntry, action: Action, s: Site, id: int)
    requires !action.Delete? && ShapeIn(g, Shape(s, way)) && id in way.refs
    ensures Resolve(Next(g, Flush, ApplyChange(g, WayChange(action, way), s)), id) == Resolve(s, id)
  {
    hide Patches, PutAll, Shape, InAny, Promote;
    PromoteResolves(s, way.refs, id);
    PromotedOrKnown(s, way.refs, id);
  }

  lemma PromotedOrKnown(s: Site, refs: seq<int>, id: int)
    requires id in refs
    ensures id !in Promote(s, refs).pending || id in s.base || id in s.overlay
    ensures Promote(s, refs).base == s.base
    ensures id in s.overlay ==> id in Promote(s, refs).overlay
  {}

  // ---------------------------------------------------------------- agreement with the planet

  /** What the region resolves, the planet's node store holds. */
  ghost predicate Agrees(s: Site, w: World) {
    forall id :: Resolve(s, id).Some? ==> Get(w, CoordCell(id)) == At(Resolve(s, id).value)
  }

  function PlanetApply(c: Change, w: World): World { RunTo(StepsOf(c), |StepsOf(c)|, w) }

  /**
   A change that leaves the two in agreement. Known nodes must not move or, in the base,
   be deleted; a new node must have an id the planet store accepts.
   */
  predicate Harmless(c: Change, s: Site, w: World) {
    c.NodeChange? ==>
      var n := c.node;
      if c.action.Delete? then n.id !in s.base || n.id < 0
      else if n.id in s.base then !Sane(n.id) || n.at == s.base[n.id]
      else if n.id in s.overlay then !Sane(n.id) || n.at == s.overlay[n.id]
      else Sane(n.id) || Get(w, CoordCell(n.id)) == At(n.at)
  }

  /** The planet's coordinate of one node after a change. */
  function CoordAfter(c: Change, w: World, id: int): Content {
    if !c.NodeChange? || c.node.id != id then Get(w, CoordCell(id))
    else if c.action.Delete? then (if id < 0 then Get(w, CoordCell(id)) else Absent)
    else if Sane(id) then At(c.node.at) else Get(w, CoordCell(id))
  }

  lemma StepCoord(s: Step, w: World, id: int)
    ensures Get(Exec(s, w), CoordCell(id)) ==
      match s
      case StoreCoord(n, lands) => if n.id == id && lands then At(n.at) else Get(w, CoordCell(id))
      case ForgetCoord(i) => if i == id && id >= 0 then Absent else Get(w, CoordCell(id))
      case _ => Get(w, CoordCell(id))
  {
    hide Kept, WayShape, RelationShape, IsRoad, NavTables.NoCollision, Get, Put;
    PutAt(w, Writes(s, w), CoordCell(id));
    if !s.StoreCoord? && !s.ForgetCoord? { NoCoordWrites(s, w, id); }
  }

  lemma NoCoordWrites(s: Step, w: World, id: int)
    requires !s.StoreCoord? && !s.ForgetCoord?
    ensures CoordCell(id) !in Writes(s, w)
  {
    hide Kept, WayShape, RelationShape, IsRoad, NavTables.NoCollision, Get, Put;
  }

  lemma PlanetCoord(c: Change, w: World, id: int)
    ensures Get(PlanetApply(c, w), CoordCell(id)) == CoordAfter(c, w, id)
  {
    hide Exec, Get;
    var steps := StepsOf(c);
    assert RunTo(steps, 0, w) == w;
    assert RunTo(steps, 1, w) == Exec(steps[0], w);
    assert |steps| == 2 ==> RunTo(steps, 2, w) == Exec(steps[1], RunTo(steps, 1, w));
    StepCoord(steps[0], w, id);
    if |steps| == 2 { StepCoord(steps[1], Exec(steps[0], w), id); }
  }

  /** The region's coordinate of one node after a change. */
  function ResolvedAfter(c: Change, s: Site, id: int): Option<Coord> {
    if !c.NodeChange? || c.node.id != id then Resolve(s, id)
    else if c.action.Delete? then (if id in s.base then Some(s.base[id]) else None)
    else if id in s.base || id in s.overlay then Resolve(s, id)
    else Some(c.node.at)
  }

  lemma SiteCoord(g: Regions, c: Change, s: Site, id: int)
    ensures Resolve(ApplyChange(g, c, s), id) == ResolvedAfter(c, s, id)
  {
    hide Patches, PutAll, Shape, InAny, Promote;
    if c.WayChange? { PromoteResolves(s, c.way.refs, id); }
  }

  /** One change keeps the agreement exactly when it is harmless. */
  lemma AgreesIff(g: Regions, c: Change, s: Site, w: World)
    requires Agrees(s, w)
    ensures Agrees(ApplyChange(g, c, s), PlanetApply(c, w)) <==> Harmless(c, s, w)
  {
    hide ApplyChange, PlanetApply, Get;
    var r, v := ApplyChange(g, c, s), PlanetApply(c, w);
    if c.NodeChange? {
      var id := c.node.id;
      SiteCoord(g, c, s, id);
      PlanetCoord(c, w, id);
      assert Resolve(s, id).Some? ==> Get(w, CoordCell(id)) == At(Resolve(s, id).value);
    }
    if Harmless(c, s, w) {
      forall id | Resolve(r, id).Some? ensures Get(v, CoordCell(id)) == At(Resolve(r, id).value) {
        SiteCoord(g, c, s, id);
        PlanetCoord(c, w, id);
      }
    }
  }

  /** The region and the planet through the same diffs, without a restart in between. */
  function PlanetRun(es: seq<Event>, w: World): World {
    if es == [] then w
    else
      var v := PlanetRun(es[..|es| - 1], w);
      match es[|es| - 1] case Do(c) => PlanetApply(c, v) case _ => v
  }

  ghost predicate HarmlessRun(g: Regions, es: seq<Event>, s: Site, w: World) {
    forall i :: 0 <= i < |es| ==> es[i].Do? ==> Harmless(es[i].change, Run(g, es[..i], s), PlanetRun(es[..i], w))
  }

  /** As long as no change touches a known node, the region never resolves a stale coordinate. */
  lemma {:induction false} RunAgrees(g: Regions, es: seq<Event>, s: Site, w: World)
    requires Agrees(s, w) && HarmlessRun(g, es, s, w)
    ensures Agrees(Run(g, es, s), PlanetRun(es, w))
  {
    hide Agrees, Next, PlanetApply, Harmless;
    if es != [] {
      var before, e := es[..|es| - 1], es[|es| - 1];
      PrefixHarmless(g, es, s, w);
      RunAgrees(g, before, s, w);
      NextAgrees(g, e, Run(g, before, s), PlanetRun(before, w));
    }
  }

  lemma PrefixHarmless(g: Regions, es: seq<Event>, s: Site, w: World)
    requires es != [] && HarmlessRun(g, es, s, w)
    ensures HarmlessRun(g, es[..|es| - 1], s, w)
    ensures es[|es| - 1].Do? ==> Harmless(es[|es| - 1].change, Run(g, es[..|es| - 1], s), PlanetRun(es[..|es| - 1], w))
  {
    hide Run, PlanetRun, Harmless;
    var before := es[..|es| - 1];
    forall i | 0 <= i < |before| && before[i].Do?
      ensures Harmless(before[i].change, Run(g, before[..i], s), PlanetRun(before[..i], w))
    {
      assert before[..i] == es[..i];
    }
  }

  lemma NextAgrees(g: Regions, e: Event, s: Site, w: World)
    requires Agrees(s, w) && (e.Do? ==> Harmless(e.change, s, w))
    ensures Agrees(Next(g, e, s), match e case Do(c) => PlanetApply(c, w) case _ => w)
  {
    hide ApplyChange, PlanetApply, Harmless, Patches, PutAll, Get;
    if e.Do? {
      AgreesIff(g, e.change, s, w);
    } else {
      forall id | Resolve(Next(g, e, s), id).Some? ensures Get(w, CoordCell(id)) == At(Resolve(Next(g, e, s), id).value) {
        assert Resolve(Next(g, e, s), id) == Resolve(s, id);
      }
    }
  }

  /** A way all of whose nodes the region resolves gets the planet's geometry. */
  lemma {:induction false} SameCoords(s: Site, w: World, refs: seq<int>)
    requires Agrees(s, w) && forall id :: id in refs ==> Resolve(s, id).Some?
    ensures Coords(s, refs) == Resolved(w, refs)
  {
    hide Get, Resolve;
    if refs != [] {
      var init, last := refs[..|refs| - 1], refs[|refs| - 1];
      SameCoords(s, w, init);
      assert last in refs;
      ResolvedLast(w, init, last);
      assert refs == init + [last];
    }
  }

  lemma {:induction false} ResolvedLast(w: World, refs: seq<int>, id: int)
    ensures Resolved(w, refs + [id]) == Resolved(w, refs) + Resolved(w, [id])
  {
    hide Get;
    if refs == [] {
      assert refs + [id] == [id];
    } else {
      assert (refs + [id])[1..] == refs[1..] + [id];
      ResolvedLast(w, refs[1..], id);
    }
  }

  /** A node of the base file that moves keeps its old coordinate in the region. */
  lemma StaleBase(g: Regions, s: Site, n: NodeEntry)
    requires n.id in s.base && n.at != s.base[n.id]
    ensures Resolve(ApplyChange(g, NodeChange(Modify, n), s), n.id) == Some(s.base[n.id]) != Some(n.at)
  {
    hide Patches, PutAll, InAny;
  }
}
