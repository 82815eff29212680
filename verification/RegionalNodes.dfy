/**
 The node table of a region against the planet's (src/RegionalDeltaApplier.cpp, `createNode`,
 `modifyNode`, `deleteNode`). A modified node that leaves the region loses its row; a created
 one that lies outside leaves whatever row its id has.
 */
module RegionalNodes {
  import opened Core
  import opened Geometry
  import opened NavTables
  import opened Delta
  import opened RegionalDelta
  import opened RegionalTables

  ghost predicate NodeAgrees(g: Regions, t: World, w: World, id: int) { KindAgrees(g, t, w, NodeKind, id) }

  predicate NodeCell(c: Cell, id: int) { c == RowCell(NodeKind, id) || c == TagCell(NodeKind, id) }

  /** A tagged node outside every region is created while its id has a row. */
  predicate StaleCreate(g: Regions, c: Change, t: World) {
    && c.NodeChange? && c.action.Create? && c.node.tags != map[]
    && !InAny(g, Point(c.node.at))
    && Get(t, RowCell(NodeKind, c.node.id)).Stored?
  }

  // ---------------------------------------------------------------- one change

  function NodeUpsert(n: NodeEntry): map<Cell, Content> { Upsert(NodeKind, n.id, NodeRow(n.name, n.at, n.geog), n.tags) }

  /** The transaction the region runs for a node change, if it runs one. */
  function SitePatch(g: Regions, c: Change): map<Cell, Content>
    requires c.NodeChange?
  {
    if c.action.Delete? then Erase(NodeKind, c.node.id)
    else if c.action.Create? && c.node.tags == map[] then map[]
    else if InAny(g, Point(c.node.at)) then NodeUpsert(c.node)
    else if c.action.Create? then map[]
    else Erase(NodeKind, c.node.id)
  }

  function PlanetPatch(c: Change): map<Cell, Content>
    requires c.NodeChange?
  {
    if c.action.Delete? then Erase(NodeKind, c.node.id)
    else if c.action.Create? && c.node.tags == map[] then map[]
    else NodeUpsert(c.node)
  }

  lemma SiteNode(g: Regions, c: Change, s: Site, x: Cell)
    requires c.NodeChange?
    ensures Get(PutAll(s.tables, Patches(g, c, s)), x) == Get(Put(s.tables, SitePatch(g, c)), x)
  {
    hide Put, Get, InAny, Upsert, Erase, NavTables.NoCollision;
    PutTwo(s.tables, Patches(g, c, s));
    PutAt(s.tables, map[], x);
  }

  lemma PlanetNode(c: Change, w: World, x: Cell)
    requires c.NodeChange? && !x.CoordCell?
    ensures Get(PlanetApply(c, w), x) == Get(Put(w, PlanetPatch(c)), x)
  {
    hide Put, Get, Exec, Upsert, Erase, NavTables.NoCollision;
    var steps := StepsOf(c);
    assert RunTo(steps, 0, w) == w;
    assert RunTo(steps, 1, w) == Exec(steps[0], w);
    assert |steps| == 2 ==> RunTo(steps, 2, w) == Exec(steps[1], RunTo(steps, 1, w));
    StoreOnly(steps[0], w, x);
    PutAt(w, PlanetPatch(c), x);
    if |steps| == 2 { LastPatch(c, Exec(steps[0], w), x); }
  }

  lemma StoreOnly(s: Step, w: World, x: Cell)
    requires (s.StoreCoord? || s.ForgetCoord?) && !x.CoordCell?
    ensures Get(Exec(s, w), x) == Get(w, x)
  {
    hide Put, Get;
    PutAt(w, Writes(s, w), x);
  }

  lemma LastPatch(c: Change, w: World, x: Cell)
    requires c.NodeChange? && |StepsOf(c)| == 2
    ensures Get(Exec(StepsOf(c)[1], w), x) == if x in PlanetPatch(c) then PlanetPatch(c)[x] else Get(w, x)
  {
    hide Put, Get, Upsert, Erase, NavTables.NoCollision;
    PutAt(w, PlanetPatch(c), x);
  }

  /** The other changes leave the node tables alone. */
  lemma OtherSite(g: Regions, c: Change, s: Site, ps: seq<map<Cell, Content>>, id: int, x: Cell)
    requires !c.NodeChange? && NodeCell(x, id) && ps <= Patches(g, c, s)
    ensures Get(PutAll(s.tables, ps), x) == Get(s.tables, x)
  {
    hide Get, Put, PutAll, Patches;
    NoNodePatch(g, c, s, id, x);
    PutTwo(s.tables, ps);
    if |ps| > 0 {
      assert ps[0] in Patches(g, c, s);
      PutAt(s.tables, ps[0], x);
      if |ps| > 1 {
        assert ps[1] in Patches(g, c, s);
        PutAt(Put(s.tables, ps[0]), ps[1], x);
      }
    }
  }

  lemma NoNodePatch(g: Regions, c: Change, s: Site, id: int, x: Cell)
    requires !c.NodeChange? && NodeCell(x, id)
    ensures |Patches(g, c, s)| <= 2 && forall p :: p in Patches(g, c, s) ==> x !in p
  {
    hide InAny, Kept, RelationShape, Shape, ShapeIn, NavTables.NoCollision, IsRoad;
  }

  lemma OtherPlanetNode(c: Change, w: World, id: int, x: Cell)
    requires !c.NodeChange? && NodeCell(x, id)
    ensures Get(PlanetApply(c, w), x) == Get(w, x)
  {
    hide Get, Exec, NavTables.NoCollision;
    var steps := StepsOf(c);
    assert |steps| == 2;
    assert RunTo(steps, 0, w) == w;
    assert RunTo(steps, 1, w) == Exec(steps[0], w);
    assert RunTo(steps, 2, w) == Exec(steps[1], RunTo(steps, 1, w));
    NotANode(steps[0], w, id, x);
    NotANode(steps[1], Exec(steps[0], w), id, x);
  }

  lemma NotANode(s: Step, w: World, id: int, x: Cell)
    requires NodeCell(x, id) && !s.PutNode? && (s.EraseEntity? ==> !s.kind.NodeKind?)
    ensures Get(Exec(s, w), x) == Get(w, x)
  {
    hide Get, Put, Kept, WayShape, RelationShape, IsRoad, NavTables.NoCollision;
    PutAt(w, Writes(s, w), x);
  }

  /** Both cells as the two sides' patches leave them. */
  ghost predicate Patched(t: World, w: World, p: map<Cell, Content>, id: int) {
    forall x :: NodeCell(x, id) ==> Get(t, x) == if x in p then p[x] else Get(w, x)
  }

  lemma UpsertIs(n: NodeEntry)
    ensures var p, row, tag := NodeUpsert(n), RowCell(NodeKind, n.id), TagCell(NodeKind, n.id);
      && p.Keys == {row, tag}
      && (p[row] == Absent == p[tag] || p[row] == Stored(NodeRow(n.name, n.at, n.geog)))
  {
    hide Kept, NavTables.NoCollision;
  }

  /** An edit both sides run, or one the region answers by erasing. */
  lemma SamePatches(g: Regions, c: Change, t: World, w: World, u: World, v: World)
    requires c.NodeChange? && NodeAgrees(g, t, w, c.node.id) && !(c.action.Create? && c.node.tags != map[] && !InAny(g, Point(c.node.at)))
    requires Patched(u, t, SitePatch(g, c), c.node.id) && Patched(v, w, PlanetPatch(c), c.node.id)
    ensures NodeAgrees(g, u, v, c.node.id)
  {
    hide Get, NodeUpsert, InAny, NavTables.NoCollision;
    var id := c.node.id;
    assert NodeCell(RowCell(NodeKind, id), id) && NodeCell(TagCell(NodeKind, id), id);
    UpsertIs(c.node);
  }

  /** A create outside the regions: the region's row stays, the planet's is none of its own. */
  lemma OutsideCreate(g: Regions, c: Change, t: World, w: World, u: World, v: World)
    requires c.NodeChange? && NodeAgrees(g, t, w, c.node.id) && c.action.Create? && c.node.tags != map[] && !InAny(g, Point(c.node.at))
    requires Patched(u, t, SitePatch(g, c), c.node.id) && Patched(v, w, PlanetPatch(c), c.node.id)
    ensures NodeAgrees(g, u, v, c.node.id) <==> !Get(t, RowCell(NodeKind, c.node.id)).Stored?
  {
    hide Get, NodeUpsert, InAny, NavTables.NoCollision;
    var id := c.node.id;
    assert NodeCell(RowCell(NodeKind, id), id) && NodeCell(TagCell(NodeKind, id), id);
    UpsertIs(c.node);
  }

  /**
   Exactly when a change keeps a node's row and tags those of the planet, if in a region: it is
   not a create, outside the regions, of an id that has a row.
   */
  lemma NodeKeptIff(g: Regions, c: Change, s: Site, w: World, id: int)
    requires NodeAgrees(g, s.tables, w, id)
    ensures NodeAgrees(g, ApplyChange(g, c, s).tables, PlanetApply(c, w), id) <==>
      !(StaleCreate(g, c, s.tables) && c.node.id == id)
  {
    hide Get, Put, PutAll, Patches, InAny, Remember, PlanetApply, SitePatch, PlanetPatch, NavTables.NoCollision;
    var u, v := ApplyChange(g, c, s).tables, PlanetApply(c, w);
    if c.NodeChange? {
      forall x | NodeCell(x, id)
        ensures Get(u, x) == if x in SitePatch(g, c) then SitePatch(g, c)[x] else Get(s.tables, x)
        ensures Get(v, x) == if x in PlanetPatch(c) then PlanetPatch(c)[x] else Get(w, x)
      {
        SiteNode(g, c, s, x);
        PutAt(s.tables, SitePatch(g, c), x);
        PlanetNode(c, w, x);
        PutAt(w, PlanetPatch(c), x);
      }
      if c.node.id != id {
        OwnPatches(g, c);
        Unmoved(g, s.tables, w, u, v, id);
      } else if c.action.Create? && c.node.tags != map[] && !InAny(g, Point(c.node.at)) {
        OutsideCreate(g, c, s.tables, w, u, v);
      } else {
        SamePatches(g, c, s.tables, w, u, v);
      }
    } else {
      forall x | NodeCell(x, id) ensures Get(u, x) == Get(s.tables, x) && Get(v, x) == Get(w, x) {
        OtherSite(g, c, s, Patches(g, c, s), id, x);
        OtherPlanetNode(c, w, id, x);
      }
      Unmoved(g, s.tables, w, u, v, id);
    }
  }

  lemma OwnPatches(g: Regions, c: Change)
    requires c.NodeChange?
    ensures forall x, id :: NodeCell(x, id) && id != c.node.id ==> x !in SitePatch(g, c) && x !in PlanetPatch(c)
  {
    hide Upsert, Erase, InAny, NavTables.NoCollision;
  }

  lemma Unmoved(g: Regions, t: World, w: World, u: World, v: World, id: int)
    requires NodeAgrees(g, t, w, id)
    requires forall x :: NodeCell(x, id) ==> Get(u, x) == Get(t, x) && Get(v, x) == Get(w, x)
    ensures NodeAgrees(g, u, v, id)
  {
    hide Get, RowMatchesHere;
    assert NodeCell(RowCell(NodeKind, id), id) && NodeCell(TagCell(NodeKind, id), id);
  }

  // ---------------------------------------------------------------- runs

  /** The region's node rows and tags are exactly the planet's that lie in an installed region. */
  ghost predicate NodesAgree(g: Regions, s: Site, w: World) { forall id :: NodeAgrees(g, s.tables, w, id) }

  /** No stale create, and no crash after a node transaction. */
  ghost predicate TrackedRun(g: Regions, es: seq<Event>, s: Site) {
    forall i :: 0 <= i < |es| ==>
      match es[i]
      case Do(c) => !StaleCreate(g, c, Run(g, es[..i], s).tables)
      case Flush => true
      case Crash(c, k) => c.NodeChange? ==> k == 0
  }

  lemma CrashKeepsNodes(g: Regions, c: Change, k: nat, s: Site, w: World, id: int)
    requires NodeAgrees(g, s.tables, w, id) && (c.NodeChange? ==> k == 0)
    ensures NodeAgrees(g, RegionalDelta.Next(g, Crash(c, k), s).tables, w, id)
  {
    hide Get, PutAll, Patches, NodeAgrees;
    var ps := Patches(g, c, s);
    var part := if k <= |ps| then ps[..k] else ps;
    forall x | NodeCell(x, id) ensures Get(PutAll(s.tables, part), x) == Get(s.tables, x) {
      if c.NodeChange? { PutTwo(s.tables, part); } else { OtherSite(g, c, s, part, id, x); }
    }
    Unmoved(g, s.tables, w, PutAll(s.tables, part), w, id);
  }

  /** After any such run, crashes included, the node tables agree. */
  lemma {:induction false} RunNodesAgree(g: Regions, es: seq<Event>, s: Site, w: World)
    requires NodesAgree(g, s, w) && TrackedRun(g, es, s)
    ensures NodesAgree(g, Run(g, es, s), PlanetRun(es, w))
  {
    hide PlanetApply, ApplyChange, NodeAgrees, StaleCreate;
    if es != [] {
      var n := |es| - 1;
      var before, e := es[..n], es[n];
      assert TrackedRun(g, before, s) by { PrefixTracked(g, es, s); }
      RunNodesAgree(g, before, s, w);
      var was, ref := Run(g, before, s), PlanetRun(before, w);
      forall id ensures NodeAgrees(g, Run(g, es, s).tables, PlanetRun(es, w), id) {
        assert NodeAgrees(g, was.tables, ref, id);
        match e
        case Do(c) => NodeKeptIff(g, c, was, ref, id);
        case Flush =>
        case Crash(c, k) => CrashKeepsNodes(g, c, k, was, ref, id);
      }
    }
  }

  lemma PrefixTracked(g: Regions, es: seq<Event>, s: Site)
    requires es != [] && TrackedRun(g, es, s)
    ensures TrackedRun(g, es[..|es| - 1], s)
  {
    hide Run, StaleCreate;
    var before := es[..|es| - 1];
    forall i | 0 <= i < |before| ensures before[i] == es[i] && before[..i] == es[..i] {}
  }
}
