/**
 OSC changes as the full-planet applier executes them (src/DeltaApplier.cpp).
 Every change is a short list of committed steps: a write to the node store or one
 database transaction. A step may read what earlier steps committed.
 */
module Delta {
  import opened Core
  import opened Geometry
  import opened NavTables

  datatype Action = Create | Modify | Delete

  datatype NodeEntry = NodeEntry(id: int, name: string, tags: Tags, at: Coord, geog: Geom)
  datatype WayEntry = WayEntry(id: int, name: string, tags: Tags, refs: seq<int>)
  datatype RelationEntry = RelationEntry(id: int, name: string, tags: Tags, members: seq<int>)

  datatype Change =
    | NodeChange(action: Action, node: NodeEntry)
    | WayChange(action: Action, way: WayEntry)
    | RelationChange(action: Action, relation: RelationEntry)

  /** Node ids above this are never grown for (src/OSMMMap.cpp). */
  const MAX_SANE_ID := 100_000_000_000

  /** An id that a store with a covering bitmap always accepts. */
  predicate Sane(id: int) { 0 <= id <= MAX_SANE_ID }

  /** `lands`: the node store has room for the id. */
  datatype Step =
    | StoreCoord(node: NodeEntry, lands: bool)
    | ForgetCoord(id: int)
    | PutNode(node: NodeEntry)
    | EraseEntity(kind: Kind, id: int)
    | ClearOther(way: WayEntry)
    | PutWay(way: WayEntry)
    | PutRelation(relation: RelationEntry)
    | PutRoad(relation: RelationEntry)

  // ---------------------------------------------------------------- reads

  function Resolved(w: World, refs: seq<int>): seq<Coord> {
    if refs == [] then []
    else
      (match Get(w, CoordCell(refs[0])) case At(c) => [c] case _ => []) + Resolved(w, refs[1..])
  }

  function WayShape(w: World, way: WayEntry): Option<Geom> {
    BuildWay(Resolved(w, way.refs))
  }

  function MemberShapes(w: World, members: seq<int>): seq<Geom> {
    if members == [] then []
    else
      (match GetWay(w, members[0]) case Some(g) => [g] case None => []) + MemberShapes(w, members[1..])
  }

  function RelationShape(w: World, r: RelationEntry): Option<Geom> {
    MergeLines(MemberShapes(w, r.members))
  }

  predicate IsRoad(tags: map<string, string>) {
    ("route" in tags && tags["route"] == "road") || "highway" in tags
  }

  lemma {:induction false} ResolvedSnoc(w: World, refs: seq<int>, id: int)
    ensures Resolved(w, refs + [id]) == Resolved(w, refs) + (match Get(w, CoordCell(id)) case At(c) => [c] case _ => [])
  {
    if refs == [] {
      assert refs + [id] == [id];
      assert [id][1..] == [];
    } else {
      assert (refs + [id])[1..] == refs[1..] + [id];
      ResolvedSnoc(w, refs[1..], id);
    }
  }

  lemma NoMembers(w: World)
    ensures MemberShapes(w, []) == []
  {}

  lemma MemberHead(w: World, members: seq<int>)
    requires members != []
    ensures MemberShapes(w, members)
         == (match GetWay(w, members[0]) case Some(g) => [g] case None => []) + MemberShapes(w, members[1..])
  {
    hide GetWay;
  }

  lemma {:induction false} MemberSnoc(w: World, members: seq<int>, id: int)
    ensures MemberShapes(w, members + [id]) == MemberShapes(w, members) + (match GetWay(w, id) case Some(g) => [g] case None => [])
  {
    hide GetWay, MemberShapes;
    var own := match GetWay(w, id) case Some(g) => [g] case None => [];
    if members == [] {
      assert members + [id] == [id];
      assert [id][1..] == [];
      MemberHead(w, [id]);
      NoMembers(w);
    } else {
      assert (members + [id])[1..] == members[1..] + [id];
      MemberSnoc(w, members[1..], id);
      MemberHead(w, members + [id]);
      MemberHead(w, members);
      var head := match GetWay(w, members[0]) case Some(g) => [g] case None => [];
      assert head + (MemberShapes(w, members[1..]) + own) == (head + MemberShapes(w, members[1..])) + own;
    }
  }

  // ---------------------------------------------------------------- steps

  /** The cells a step writes, and what it writes there. */
  function Writes(s: Step, w: World): map<Cell, Content> {
    match s
    case StoreCoord(n, lands) =>
      if lands then map[CoordCell(n.id) := At(n.at)] else map[]
    case ForgetCoord(id) =>
      if id < 0 then map[] else map[CoordCell(id) := Absent]
    case PutNode(n) => Upsert(NodeKind, n.id, NodeRow(n.name, n.at, n.geog), n.tags)
    case EraseEntity(kind, id) => Erase(kind, id)
    case ClearOther(way) =>
      (match WayShape(w, way)
       case None => map[]
       case Some(g) => Erase(if g.Polygon? then WayKind else AreaKind, way.id))
    case PutWay(way) =>
      (match WayShape(w, way)
       case None => map[]
       case Some(g) =>
         Upsert(if g.Polygon? then AreaKind else WayKind, way.id, GeomRow(way.name, Some(g)), way.tags))
    case PutRelation(r) =>
      Upsert(RelationKind, r.id, GeomRow(r.name, RelationShape(w, r)), r.tags)
    case PutRoad(r) =>
      if IsRoad(r.tags) && RelationShape(w, r).Some?
      then Upsert(RoadKind, r.id, GeomRow(r.name, RelationShape(w, r)), r.tags)
      else Erase(RoadKind, r.id)
  }

  function Exec(s: Step, w: World): World { Put(w, Writes(s, w)) }

  /** A store write as a covering store takes it; `StoreSteps` gives the exact room. */
  function Store(n: NodeEntry): (s: Step)
    ensures s.StoreCoord? && s.node == n
  {
    StoreCoord(n, Sane(n.id))
  }

  /** The committed steps of one change, in order (`DeltaApplier::apply`). */
  function StepsOf(c: Change): seq<Step> {
    match c
    case NodeChange(Create, n) => if n.tags == map[] then [Store(n)] else [Store(n), PutNode(n)]
    case NodeChange(Modify, n) => [Store(n), PutNode(n)]
    case NodeChange(Delete, n) => [ForgetCoord(n.id), EraseEntity(NodeKind, n.id)]
    case WayChange(Delete, way) => [EraseEntity(WayKind, way.id), EraseEntity(AreaKind, way.id)]
    case WayChange(_, way) => [ClearOther(way), PutWay(way)]
    case RelationChange(Delete, r) => [EraseEntity(RelationKind, r.id), EraseEntity(RoadKind, r.id)]
    case RelationChange(_, r) => [PutRelation(r), PutRoad(r)]
  }

  function StepsOfDiff(d: seq<Change>): seq<Step> {
    if d == [] then [] else StepsOf(d[0]) + StepsOfDiff(d[1..])
  }

  /** The world after the first `i` steps. */
  function RunTo(steps: seq<Step>, i: nat, w: World): World
    requires i <= |steps|
  {
    if i == 0 then w else Exec(steps[i - 1], RunTo(steps, i - 1, w))
  }

  lemma {:induction false} RunPrefix(a: seq<Step>, b: seq<Step>, i: nat, w: World)
    requires i <= |a|
    ensures RunTo(a + b, i, w) == RunTo(a, i, w)
  {
    hide Exec;
    if i > 0 {
      RunPrefix(a, b, i - 1, w);
      assert (a + b)[i - 1] == a[i - 1];
    }
  }

  lemma {:induction false} RunConcat(a: seq<Step>, b: seq<Step>, i: nat, w: World)
    requires i <= |b|
    ensures RunTo(a + b, |a| + i, w) == RunTo(b, i, RunTo(a, |a|, w))
  {
    hide Exec;
    if i == 0 {
      RunPrefix(a, b, |a|, w);
    } else {
      RunConcat(a, b, i - 1, w);
      assert (a + b)[|a| + i - 1] == b[i - 1];
    }
  }

  function ApplyDiff(d: seq<Change>, w: World): World {
    RunTo(StepsOfDiff(d), |StepsOfDiff(d)|, w)
  }

  // ---------------------------------------------------------------- levels

  function KindLevel(k: Kind): nat {
    match k
    case NodeKind => 0
    case WayKind => 1
    case AreaKind => 1
    case RoadKind => 2
    case RelationKind => 2
  }

  function CellLevel(c: Cell): nat {
    match c
    case CoordCell(_) => 0
    case RowCell(k, _) => KindLevel(k)
    case TagCell(k, _) => KindLevel(k)
  }

  function StepLevel(s: Step): nat {
    match s
    case StoreCoord(_, _) => 0
    case ForgetCoord(_) => 0
    case PutNode(_) => 0
    case EraseEntity(k, _) => KindLevel(k)
    case ClearOther(_) => 1
    case PutWay(_) => 1
    case PutRelation(_) => 2
    case PutRoad(_) => 2
  }

  function ChangeLevel(c: Change): nat {
    match c
    case NodeChange(_, _) => 0
    case WayChange(_, _) => 1
    case RelationChange(_, _) => 2
  }

  /** Node changes before way changes before relation changes. */
  predicate Ordered(d: seq<Change>) {
    forall i, j :: 0 <= i < j < |d| ==> ChangeLevel(d[i]) <= ChangeLevel(d[j])
  }

  predicate Sorted(steps: seq<Step>) {
    forall i, j :: 0 <= i < j < |steps| ==> StepLevel(steps[i]) <= StepLevel(steps[j])
  }

  ghost predicate AgreeBelow(v: World, w: World, level: nat) {
    forall c :: CellLevel(c) < level ==> Get(v, c) == Get(w, c)
  }

  lemma WritesOwnLevel(s: Step, w: World)
    ensures forall c :: c in Writes(s, w) ==> CellLevel(c) == StepLevel(s)
  {
    hide NavTables.Kept, Resolved, RelationShape, BuildWay;
  }

  lemma {:induction false} ResolvedAgrees(v: World, w: World, refs: seq<int>)
    requires forall id :: Get(v, CoordCell(id)) == Get(w, CoordCell(id))
    ensures Resolved(v, refs) == Resolved(w, refs)
  {
    if refs != [] {
      assert Get(v, CoordCell(refs[0])) == Get(w, CoordCell(refs[0]));
      ResolvedAgrees(v, w, refs[1..]);
    }
  }

  lemma {:induction false} MembersAgree(v: World, w: World, members: seq<int>)
    requires AgreeBelow(v, w, 2)
    ensures MemberShapes(v, members) == MemberShapes(w, members)
  {
    if members != [] {
      var id := members[0];
      assert Get(v, RowCell(WayKind, id)) == Get(w, RowCell(WayKind, id));
      assert Get(v, RowCell(AreaKind, id)) == Get(w, RowCell(AreaKind, id));
      MembersAgree(v, w, members[1..]);
    }
  }

  // ---------------------------------------------------------------- what a step looks at

  predicate IsWayRow(c: Cell) { c.RowCell? && (c.kind.WayKind? || c.kind.AreaKind?) }

  /** The cells a geometry is built from. */
  predicate Reads(s: Step, c: Cell) {
    match s
    case ClearOther(way) => c.CoordCell? && c.id in way.refs
    case PutWay(way) => c.CoordCell? && c.id in way.refs
    case PutRelation(r) => IsWayRow(c) && c.id in r.members
    case PutRoad(r) => IsWayRow(c) && c.id in r.members
    case _ => false
  }

  ghost predicate SameReads(s: Step, v: World, w: World) {
    forall c :: Reads(s, c) ==> Get(v, c) == Get(w, c)
  }

  lemma {:induction false} ResolvedSame(v: World, w: World, refs: seq<int>)
    requires forall id :: id in refs ==> Get(v, CoordCell(id)) == Get(w, CoordCell(id))
    ensures Resolved(v, refs) == Resolved(w, refs)
  {
    hide Get;
    if refs != [] {
      assert refs[0] in refs;
      ResolvedSame(v, w, refs[1..]);
    }
  }

  lemma {:induction false} MembersSame(v: World, w: World, members: seq<int>)
    requires forall c :: IsWayRow(c) && c.id in members ==> Get(v, c) == Get(w, c)
    ensures MemberShapes(v, members) == MemberShapes(w, members)
  {
    if members != [] {
      var id := members[0];
      assert id in members;
      assert IsWayRow(RowCell(WayKind, id)) && IsWayRow(RowCell(AreaKind, id));
      MembersSame(v, w, members[1..]);
    }
  }

  /** What a step writes depends on nothing but the cells it reads. */
  lemma ReadsOnly(s: Step, v: World, w: World)
    requires SameReads(s, v, w)
    ensures Writes(s, v) == Writes(s, w)
  {
    hide NavTables.Kept, NavTables.Upsert, NavTables.Erase, BuildWay, MergeLines, Get, IsWayRow, NavTables.NoCollision;
    match s
    case ClearOther(way) => WayReads(s, way, v, w);
    case PutWay(way) => WayReads(s, way, v, w);
    case PutRelation(r) => RelationReads(s, r, v, w);
    case PutRoad(r) => RelationReads(s, r, v, w);
    case _ =>
  }

  lemma WayReads(s: Step, way: WayEntry, v: World, w: World)
    requires (s == ClearOther(way) || s == PutWay(way)) && SameReads(s, v, w)
    ensures WayShape(v, way) == WayShape(w, way)
  {
    hide Get, BuildWay, NavTables.NoCollision;
    forall id | id in way.refs ensures Get(v, CoordCell(id)) == Get(w, CoordCell(id)) {
      assert Reads(s, CoordCell(id));
    }
    ResolvedSame(v, w, way.refs);
  }

  lemma RelationReads(s: Step, r: RelationEntry, v: World, w: World)
    requires (s == PutRelation(r) || s == PutRoad(r)) && SameReads(s, v, w)
    ensures RelationShape(v, r) == RelationShape(w, r)
  {
    hide Get, MergeLines, IsWayRow, NavTables.NoCollision;
    forall c | IsWayRow(c) && c.id in r.members ensures Get(v, c) == Get(w, c) {
      assert Reads(s, c);
    }
    MembersSame(v, w, r.members);
  }

  lemma ReadsLower(s: Step, c: Cell)
    requires Reads(s, c)
    ensures CellLevel(c) < StepLevel(s)
  {}

  /** A step reads only cells of lower levels. */
  lemma ReadsBelow(s: Step, v: World, w: World)
    requires AgreeBelow(v, w, StepLevel(s))
    ensures Writes(s, v) == Writes(s, w)
  {
    hide Reads, CellLevel, StepLevel, Get, Writes;
    forall c | Reads(s, c) ensures Get(v, c) == Get(w, c) { ReadsLower(s, c); }
    ReadsOnly(s, v, w);
  }

  lemma {:induction false} StepsKeepLevels(d: seq<Change>, i: nat) returns (k: nat)
    requires i < |StepsOfDiff(d)|
    ensures k < |d| && StepLevel(StepsOfDiff(d)[i]) == ChangeLevel(d[k])
  {
    var head := StepsOf(d[0]);
    if i < |head| {
      assert StepsOfDiff(d)[i] == head[i];
      k := 0;
    } else {
      assert StepsOfDiff(d)[i] == StepsOfDiff(d[1..])[i - |head|];
      k := StepsKeepLevels(d[1..], i - |head|);
      k := k + 1;
    }
  }

  /** Any nodes, then any ways, then any relations. */
  lemma ByTypeIsOrdered(nodes: seq<Change>, ways: seq<Change>, relations: seq<Change>)
    requires forall i :: 0 <= i < |nodes| ==> nodes[i].NodeChange?
    requires forall i :: 0 <= i < |ways| ==> ways[i].WayChange?
    requires forall i :: 0 <= i < |relations| ==> relations[i].RelationChange?
    ensures Ordered(nodes + ways + relations)
  {
    var d := nodes + ways + relations;
    forall i | 0 <= i < |d|
      ensures d[i] == if i < |nodes| then nodes[i] else if i < |nodes| + |ways| then ways[i - |nodes|] else relations[i - |nodes| - |ways|]
    {}
  }

  lemma {:induction false} OrderedIsSorted(d: seq<Change>)
    requires Ordered(d)
    ensures Sorted(StepsOfDiff(d))
  {
    if d != [] {
      OrderedIsSorted(d[1..]);
      var head, all := StepsOf(d[0]), StepsOfDiff(d);
      forall i, j | 0 <= i < j < |all| ensures StepLevel(all[i]) <= StepLevel(all[j]) {
        if j < |head| {
          assert all[i] == head[i] && all[j] == head[j];
        } else if i < |head| {
          var k := StepsKeepLevels(d[1..], j - |head|);
          assert all[j] == StepsOfDiff(d[1..])[j - |head|];
        } else {
          var rest := StepsOfDiff(d[1..]);
          assert all[i] == rest[i - |head|] && all[j] == rest[j - |head|];
        }
      }
    }
  }
}
