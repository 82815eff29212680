/**
 When the recorded state is exact although crashes may come half-way through growing the node
 store (src/OSMMMap.cpp, `growMergedIfNeeded`): over whole runs of many diffs, exactly when
 every last node update of every diff finds its room.
 */
module RecordedExact {
  import opened Core
  import opened Geometry
  import opened NavTables
  import opened Delta
  import opened StoreSteps
  import opened Replication
  import NodeStore
  import NodeStoreRuns
  import Integrity
  import ReplayWays

  // ---------------------------------------------------------------- last store writes

  predicate SetsNode(s: Step, id: int) {
    id >= 0 && ((s.StoreCoord? && s.node.id == id) || s == ForgetCoord(id))
  }

  ghost predicate LastStore(steps: seq<Step>, p: nat, id: int) {
    p < |steps| && SetsNode(steps[p], id) && forall q :: p < q < |steps| ==> !SetsNode(steps[q], id)
  }

  /** The last update of its node in the diff. */
  ghost predicate LastUpdate(steps: seq<Step>, p: nat) {
    p < |steps| && steps[p].StoreCoord? && LastStore(steps, p, steps[p].node.id)
  }

  predicate RoomAt(steps: seq<Step>, from: Files, p: nat)
    requires p < |steps| && steps[p].StoreCoord?
  {
    FindsRoom(FilesTo(steps, p, from), steps[p].node.id)
  }

  /** Every last node update among the first `i` steps finds room in an attempt from `from`. */
  ghost predicate LastUpdatesLand(steps: seq<Step>, from: Files, i: nat) {
    forall p :: 0 <= p < i && LastUpdate(steps, p) ==> RoomAt(steps, from, p)
  }

  function Wanted(s: Step): Content { match s case StoreCoord(n, _) => At(n.at) case _ => Absent }

  lemma {:induction false} FindLastStore(steps: seq<Step>, n: nat, id: int, k: nat) returns (p: nat)
    requires k < n <= |steps| && SetsNode(steps[k], id) && forall q :: n <= q < |steps| ==> !SetsNode(steps[q], id)
    ensures LastStore(steps, p, id)
  {
    if SetsNode(steps[n - 1], id) { p := n - 1; } else { p := FindLastStore(steps, n - 1, id, k); }
  }

  /** A step that does not set a node leaves its coordinate, however it is labelled. */
  lemma OtherCoord(s: Step, w: World, id: int)
    requires !SetsNode(s, id) && (s.StoreCoord? && s.lands ==> s.node.id >= 0)
    ensures Get(Exec(s, w), CoordCell(id)) == Get(w, CoordCell(id))
  {
    hide Get, Put;
    ReplayWays.StoreStep(s, w, id);
  }

  lemma SetCoord(s: Step, w: World, id: int)
    requires SetsNode(s, id) && (s.StoreCoord? ==> s.lands)
    ensures Get(Exec(s, w), CoordCell(id)) == Wanted(s)
  {
    hide Get, Put;
    ReplayWays.StoreStep(s, w, id);
  }

  lemma {:induction false} RefCoord(steps: seq<Step>, p: nat, id: int, n: nat, w: World)
    requires SaneSteps(steps) && LastStore(steps, p, id) && p < n <= |steps|
    ensures Get(RunTo(steps, n, w), CoordCell(id)) == Wanted(steps[p])
  {
    hide Get, Exec, Wanted;
    if n == p + 1 {
      SetCoord(steps[p], RunTo(steps, p, w), id);
    } else {
      RefCoord(steps, p, id, n - 1, w);
      OtherCoord(steps[n - 1], RunTo(steps, n - 1, w), id);
    }
  }

  lemma TouchedIsSet(steps: seq<Step>, n: nat, w: World, id: int) returns (p: nat)
    requires SaneSteps(steps) && n <= |steps| && Touched(steps, n, w, CoordCell(id))
    ensures LastStore(steps, p, id)
  {
    hide Get, RunTo, Writes;
    var j :| 0 <= j < n && WrittenAt(steps, j, w, CoordCell(id));
    ReplayWays.StoreStepWrites(steps[j], RunTo(steps, j, w), id);
    p := FindLastStore(steps, |steps|, id, j);
  }

  // ---------------------------------------------------------------- what is tracked in an attempt

  /** What the store holds has room. */
  ghost predicate BitsOk(w: World, f: Files) {
    forall id :: Get(w, CoordCell(id)) != Absent ==> NodeStoreRuns.HasRoom(f, id)
  }

  /** After its last write in this attempt a node has the wanted value, or nothing without room. */
  ghost predicate CoordsNow(steps: seq<Step>, i: nat, from: Files, now: World) {
    forall p, id :: 0 <= p < i && LastStore(steps, p, id) ==>
      Get(now, CoordCell(id)) == if steps[p].StoreCoord? && !RoomAt(steps, from, p) then Absent else Wanted(steps[p])
  }

  /** Rows and tags rewritten by this attempt are the crash-free ones. */
  ghost predicate RowsCaughtUp(steps: seq<Step>, i: nat, start: World, now: World)
    requires i <= |steps|
  {
    forall c: Cell :: !c.CoordCell? && Touched(steps, i, start, c) ==> Get(now, c) == Get(RunTo(steps, i, start), c)
  }

  /** An attempt on diff `d` at step `i`, from exact state `start`. */
  ghost predicate Tracks(d: seq<Change>, i: nat, from: Files, start: World, now: World, f: Files) {
    var steps := StepsOfDiff(d);
    && i <= |steps|
    && SizesOk(from) && f == FilesTo(steps, i, from) && BitsOk(now, f)
    && CaughtUp(steps, 0, start, now)
    && CoordsNow(steps, i, from, now)
    && (LastUpdatesLand(steps, from, i) ==> RowsCaughtUp(steps, i, start, now))
  }

  lemma SoundFiles(steps: seq<Step>, i: nat, from: Files)
    requires SizesOk(from) && i <= |steps|
    ensures SizesOk(FilesTo(steps, i, from))
  {
    hide SizesOk, FilesTo;
    FilesToGrow(steps, 0, i, from);
  }

  lemma RoomStays(f: NodeStoreRuns.Plan, g: NodeStoreRuns.Plan, id: int)
    requires NodeStoreRuns.HasRoom(f, id)
    requires f.size / NodeStore.REC_SIZE <= g.size / NodeStore.REC_SIZE && f.bytes <= g.bytes
    ensures NodeStoreRuns.HasRoom(g, id)
  {}

  lemma RoomFound(f: Files, id: int)
    requires SizesOk(f) && NodeStoreRuns.HasRoom(f, id)
    ensures FindsRoom(f, id)
  {
    hide NodeStoreRuns.GrowPlan;
    NodeStoreRuns.GrowPlanFacts(f, id);
    RoomStays(f, NodeStoreRuns.GrowPlan(f, id), id);
  }

  lemma BitsKept(s: Step, w: World, f: Files)
    requires SizesOk(f) && BitsOk(w, f)
    ensures BitsOk(Exec(Label(s, f), w), FilesAfter(s, f))
  {
    hide Get, Exec, NodeStoreRuns.GrowPlan, NodeStoreRuns.HasRoom;
    FilesGrow(s, f);
    var r, g := Exec(Label(s, f), w), FilesAfter(s, f);
    forall id | Get(r, CoordCell(id)) != Absent ensures NodeStoreRuns.HasRoom(g, id) {
      ReplayWays.StoreStep(Label(s, f), w, id);
      if Get(w, CoordCell(id)) != Absent { RoomStays(f, g, id); }
    }
  }

  // ---------------------------------------------------------------- one committed step

  lemma CoordsKept(steps: seq<Step>, i: nat, from: Files, now: World)
    requires i < |steps| && SaneSteps(steps) && SizesOk(from) && BitsOk(now, FilesTo(steps, i, from)) && CoordsNow(steps, i, from, now)
    ensures CoordsNow(steps, i + 1, from, Exec(Label(steps[i], FilesTo(steps, i, from)), now))
  {
    hide Get, Exec, FindsRoom, SizesOk, NodeStoreRuns.HasRoom, FilesTo, Wanted;
    var f := FilesTo(steps, i, from);
    var s := Label(steps[i], f);
    SoundFiles(steps, i, from);
    forall p, id | 0 <= p < i + 1 && LastStore(steps, p, id)
      ensures Get(Exec(s, now), CoordCell(id)) == if steps[p].StoreCoord? && !RoomAt(steps, from, p) then Absent else Wanted(steps[p])
    {
      LabelledStore(steps[i], f);
      if p < i {
        OtherCoord(s, now, id);
      } else if steps[i].StoreCoord? && !RoomAt(steps, from, i) {
        ReplayWays.StoreStep(s, now, id);
        if Get(now, CoordCell(id)) != Absent { RoomFound(f, id); }
      } else {
        SetCoord(s, now, id);
        SameWanted(steps[i], f);
      }
    }
  }

  lemma LabelledStore(s: Step, f: Files)
    ensures Label(s, f).StoreCoord? == s.StoreCoord? && Label(s, f).ForgetCoord? == s.ForgetCoord?
    ensures forall id :: SetsNode(Label(s, f), id) <==> SetsNode(s, id)
    ensures s.StoreCoord? ==> (Label(s, f).lands <==> FindsRoom(f, s.node.id)) && Label(s, f).node == s.node
    ensures Label(s, f).StoreCoord? && Label(s, f).lands ==> s.node.id >= 0
    ensures !s.StoreCoord? ==> Label(s, f) == s
  {}

  lemma SameWanted(s: Step, f: Files)
    ensures Wanted(Label(s, f)) == Wanted(s)
  {}

  /** Sorted steps: at a way or relation every store write is over. */
  lemma StoresBefore(steps: seq<Step>, i: nat, p: nat, id: int)
    requires Sorted(steps) && i < |steps| && StepLevel(steps[i]) > 0 && LastStore(steps, p, id)
    ensures p < i
  {}

  /** At a way or relation the store holds a part of what the crash-free run has. */
  lemma CoordsPartly(steps: seq<Step>, i: nat, from: Files, start: World, now: World, id: int)
    requires Sorted(steps) && SaneSteps(steps) && i < |steps| && StepLevel(steps[i]) > 0
    requires CaughtUp(steps, 0, start, now) && CoordsNow(steps, i, from, now)
    ensures var ref := Get(RunTo(steps, i, start), CoordCell(id));
      && (Get(now, CoordCell(id)) == Absent || Get(now, CoordCell(id)) == ref)
      && (LastUpdatesLand(steps, from, i) ==> Get(now, CoordCell(id)) == ref)
  {
    hide Get, RunTo, StepLevel, Wanted, RoomAt;
    if p: nat :| LastStore(steps, p, id) {
      StoresBefore(steps, i, p, id);
      RefCoord(steps, p, id, i, start);
    } else {
      if Touched(steps, |steps|, start, CoordCell(id)) { var p := TouchedIsSet(steps, |steps|, start, id); }
      if Touched(steps, i, start, CoordCell(id)) { var p := TouchedIsSet(steps, i, start, id); }
      assert CellCaughtUp(steps, 0, start, now, CoordCell(id));
      Untouched(steps, i, start, CoordCell(id));
    }
  }

  /** Fewer coordinates build no geometry where more of them do not. */
  lemma {:induction false} FewerResolved(u: World, v: World, refs: seq<int>)
    requires forall id :: Get(v, CoordCell(id)) == Absent || Get(v, CoordCell(id)) == Get(u, CoordCell(id))
    ensures |Resolved(v, refs)| <= |Resolved(u, refs)|
  {
    hide Get;
    if refs != [] {
      assert Get(v, CoordCell(refs[0])) == Absent || Get(v, CoordCell(refs[0])) == Get(u, CoordCell(refs[0]));
      FewerResolved(u, v, refs[1..]);
    }
  }

  /** The steps of a way edit stand together. */
  lemma {:induction false} EditPair(d: seq<Change>, i: nat) returns (p: nat)
    requires i < |StepsOfDiff(d)| && (StepsOfDiff(d)[i].ClearOther? || StepsOfDiff(d)[i].PutWay?)
    ensures p + 1 < |StepsOfDiff(d)| && (i == p || i == p + 1)
    ensures StepsOfDiff(d)[p] == ClearOther(StepsOfDiff(d)[i].way) && StepsOfDiff(d)[p + 1] == PutWay(StepsOfDiff(d)[i].way)
  {
    var head, rest := StepsOf(d[0]), StepsOfDiff(d[1..]);
    assert StepsOfDiff(d) == head + rest;
    if i < |head| {
      p := 0;
      assert StepsOfDiff(d)[i] == head[i] && |head| == 2;
      assert StepsOfDiff(d)[0] == head[0] && StepsOfDiff(d)[1] == head[1];
    } else {
      assert StepsOfDiff(d)[i] == rest[i - |head|];
      p := EditPair(d[1..], i - |head|);
      p := p + |head|;
      assert StepsOfDiff(d)[p] == rest[p - |head|] && StepsOfDiff(d)[p + 1] == rest[p + 1 - |head|];
    }
  }

  /** When the crash-free run builds a way, it rewrites all four of its cells. */
  lemma WayTouched(d: seq<Change>, i: nat, start: World, c: Cell)
    requires i < |StepsOfDiff(d)| && (StepsOfDiff(d)[i].ClearOther? || StepsOfDiff(d)[i].PutWay?)
    requires WayShape(RunTo(StepsOfDiff(d), i, start), StepsOfDiff(d)[i].way).Some? && ReplayWays.WayCell(c, StepsOfDiff(d)[i].way.id)
    ensures Touched(StepsOfDiff(d), |StepsOfDiff(d)|, start, c)
  {
    hide StepsOfDiff, Exec, WayShape, Get, Upsert, Erase, NavTables.NoCollision;
    var steps, way := StepsOfDiff(d), StepsOfDiff(d)[i].way;
    var p := EditPair(d, i);
    var u := RunTo(steps, p, start);
    assert RunTo(steps, p + 1, start) == Exec(ClearOther(way), u);
    ShapeKept(way, u);
    ReplayWays.EditWrites(way, u);
    ReplayWays.EditWrites(way, Exec(ClearOther(way), u));
    FourCells(way.id, c);
    assert WrittenAt(steps, p, start, c) || WrittenAt(steps, p + 1, start, c);
  }

  lemma FourCells(id: int, c: Cell)
    requires ReplayWays.WayCell(c, id)
    ensures forall g, row, tags ::
      c in Erase(ReplayWays.OtherKind(g), id) || c in Upsert(ReplayWays.KindOf(g), id, row, tags)
  {
    hide NavTables.NoCollision;
  }

  /** A step of any attempt writes only cells that the crash-free run writes too. */
  lemma WritesAreTouched(d: seq<Change>, i: nat, from: Files, start: World, now: World, c: Cell)
    requires SaneSteps(StepsOfDiff(d)) && Sorted(StepsOfDiff(d)) && i < |StepsOfDiff(d)|
    requires Tracks(d, i, from, start, now, FilesTo(StepsOfDiff(d), i, from))
    requires c in Writes(Label(StepsOfDiff(d)[i], FilesTo(StepsOfDiff(d), i, from)), now)
    ensures Touched(StepsOfDiff(d), |StepsOfDiff(d)|, start, c)
  {
    hide StepsOfDiff, RunTo, FilesTo, WayShape, Get, Touched, LastUpdatesLand, RowsCaughtUp, CaughtUp, CoordsNow, NavTables.NoCollision, Writes, FindsRoom, BitsOk, SizesOk;
    var steps, f := StepsOfDiff(d), FilesTo(StepsOfDiff(d), i, from);
    var s := steps[i];
    LabelledStore(s, f);
    if s.ClearOther? || s.PutWay? {
      WayWrites(s, now, c);
      WayLevel(s);
      forall id ensures Get(now, CoordCell(id)) == Absent || Get(now, CoordCell(id)) == Get(RunTo(steps, i, start), CoordCell(id)) {
        CoordsPartly(steps, i, from, start, now, id);
      }
      MoreShape(s.way, RunTo(steps, i, start), now);
      WayTouched(d, i, start, c);
    } else {
      SameKeys(s, f, RunTo(steps, i, start), now, c);
      TouchedAt(steps, i, start, c);
    }
  }

  lemma TouchedAt(steps: seq<Step>, i: nat, start: World, c: Cell)
    requires i < |steps| && c in Writes(steps[i], RunTo(steps, i, start))
    ensures Touched(steps, |steps|, start, c)
  {
    hide Writes, RunTo;
    assert WrittenAt(steps, i, start, c);
  }

  lemma WayLevel(s: Step)
    requires s.ClearOther? || s.PutWay?
    ensures StepLevel(s) > 0
  {}

  lemma WayWrites(s: Step, w: World, c: Cell)
    requires (s.ClearOther? || s.PutWay?) && c in Writes(s, w)
    ensures WayShape(w, s.way).Some? && ReplayWays.WayCell(c, s.way.id)
  {
    hide WayShape, NavTables.NoCollision, Kept;
  }

  lemma MoreShape(way: WayEntry, u: World, v: World)
    requires forall id :: Get(v, CoordCell(id)) == Absent || Get(v, CoordCell(id)) == Get(u, CoordCell(id))
    requires WayShape(v, way).Some?
    ensures WayShape(u, way).Some?
  {
    hide Get, Resolved, NavTables.NoCollision;
    FewerResolved(u, v, way.refs);
  }

  lemma SameKeys(s: Step, f: Files, u: World, v: World, c: Cell)
    requires !s.ClearOther? && !s.PutWay? && (s.StoreCoord? ==> s.node.id <= MAX_SANE_ID && s.lands == Sane(s.node.id))
    requires c in Writes(Label(s, f), v)
    ensures c in Writes(s, u)
  {
    hide RelationShape, IsRoad, Kept, NavTables.NoCollision, NodeStoreRuns.GrowPlan;
  }

  /** Once every last update so far has landed, the next step reads what the crash-free one reads. */
  lemma ReadsExact(d: seq<Change>, i: nat, from: Files, start: World, now: World)
    requires SaneSteps(StepsOfDiff(d)) && Sorted(StepsOfDiff(d)) && i < |StepsOfDiff(d)|
    requires Tracks(d, i, from, start, now, FilesTo(StepsOfDiff(d), i, from)) && LastUpdatesLand(StepsOfDiff(d), from, i)
    ensures SameReads(StepsOfDiff(d)[i], now, RunTo(StepsOfDiff(d), i, start))
  {
    hide StepsOfDiff, RunTo, FilesTo, Get, Touched, LastUpdatesLand, CoordsNow, Reads, StepLevel, BitsOk, SizesOk, Settled;
    var steps := StepsOfDiff(d);
    SortedIsSettled(steps, start);
    forall c | Reads(steps[i], c) ensures Get(now, c) == Get(RunTo(steps, i, start), c) {
      ReadsLower(steps[i], c);
      if c.CoordCell? {
        CoordsPartly(steps, i, from, start, now, c.id);
      } else {
        SettledRead(steps, i, start, c);
        assert CellCaughtUp(steps, 0, start, now, c);
        if !Touched(steps, i, start, c) { Untouched(steps, i, start, c); }
      }
    }
  }

  lemma SettledRead(steps: seq<Step>, i: nat, start: World, c: Cell)
    requires Settled(steps, start) && i < |steps| && Reads(steps[i], c)
    ensures SettledAt(steps, i, start, c)
  {
    hide Reads, SettledAt;
  }

  lemma RowsKept(d: seq<Change>, i: nat, from: Files, start: World, now: World)
    requires SaneSteps(StepsOfDiff(d)) && Sorted(StepsOfDiff(d)) && i < |StepsOfDiff(d)|
    requires Tracks(d, i, from, start, now, FilesTo(StepsOfDiff(d), i, from)) && LastUpdatesLand(StepsOfDiff(d), from, i)
    ensures RowsCaughtUp(StepsOfDiff(d), i + 1, start, Exec(Label(StepsOfDiff(d)[i], FilesTo(StepsOfDiff(d), i, from)), now))
  {
    hide StepsOfDiff, FilesTo, Get, LastUpdatesLand, CoordsNow, Writes, Exec, CaughtUp, BitsOk, SizesOk, Label, SameReads;
    var steps, f := StepsOfDiff(d), FilesTo(StepsOfDiff(d), i, from);
    var s, ref := steps[i], RunTo(steps, i, start);
    ReadsExact(d, i, from, start, now);
    ReadsOnly(s, now, ref);
    forall c: Cell | !c.CoordCell? && Touched(steps, i + 1, start, c)
      ensures Get(Exec(Label(s, f), now), c) == Get(RunTo(steps, i + 1, start), c)
    {
      LabelTables(s, f, now, c);
      ExecCell(s, now, c);
      ExecCell(s, ref, c);
      if c !in Writes(s, ref) { assert Touched(steps, i, start, c) by { TouchedBefore(steps, i, start, c); } }
    }
  }

  lemma TouchedBefore(steps: seq<Step>, i: nat, start: World, c: Cell)
    requires i < |steps| && Touched(steps, i + 1, start, c) && c !in Writes(steps[i], RunTo(steps, i, start))
    ensures Touched(steps, i, start, c)
  {
    hide Writes, RunTo;
  }

  /** One committed step keeps everything tracked. */
  lemma CommitTracks(d: seq<Change>, i: nat, from: Files, start: World, now: World)
    requires SaneSteps(StepsOfDiff(d)) && Sorted(StepsOfDiff(d)) && i < |StepsOfDiff(d)|
    requires Tracks(d, i, from, start, now, FilesTo(StepsOfDiff(d), i, from))
    ensures var f := FilesTo(StepsOfDiff(d), i, from); var s := StepsOfDiff(d)[i];
      Tracks(d, i + 1, from, start, Exec(Label(s, f), now), FilesAfter(s, f))
  {
    hide StepsOfDiff, Get, CoordsNow, Writes, Exec, BitsOk, SizesOk, Label, RowsCaughtUp, FilesAfter, Touched;
    var steps, f := StepsOfDiff(d), FilesTo(StepsOfDiff(d), i, from);
    var s := steps[i];
    SoundFiles(steps, i, from);
    BitsKept(s, now, f);
    CoordsKept(steps, i, from, now);
    assert FilesTo(steps, i + 1, from) == FilesAfter(s, f);
    var next := Exec(Label(s, f), now);
    forall c ensures CellCaughtUp(steps, 0, start, next, c) {
      assert CellCaughtUp(steps, 0, start, now, c);
      ExecCell(Label(s, f), now, c);
      NoneTouched(steps, start, c);
      if c in Writes(Label(s, f), now) { WritesAreTouched(d, i, from, start, now, c); }
    }
    if LastUpdatesLand(steps, from, i + 1) {
      assert LastUpdatesLand(steps, from, i) by { FewerLand(steps, from, i); }
      RowsKept(d, i, from, start, now);
    }
  }

  lemma NoneTouched(steps: seq<Step>, start: World, c: Cell)
    ensures !Touched(steps, 0, start, c)
  {}

  lemma FewerLand(steps: seq<Step>, from: Files, i: nat)
    requires LastUpdatesLand(steps, from, i + 1)
    ensures LastUpdatesLand(steps, from, i)
  {
    hide LastUpdate, RoomAt;
  }

  /** At the end of an attempt: exact if and only if every last update landed. */
  lemma EndIsExactIff(d: seq<Change>, from: Files, start: World, now: World)
    requires SaneSteps(StepsOfDiff(d))
    requires Tracks(d, |StepsOfDiff(d)|, from, start, now, FilesTo(StepsOfDiff(d), |StepsOfDiff(d)|, from))
    ensures now == ApplyDiff(d, start) <==> LastUpdatesLand(StepsOfDiff(d), from, |StepsOfDiff(d)|)
  {
    hide StepsOfDiff, RunTo, FilesTo, Get, Wanted, BitsOk, SizesOk, Touched, RoomAt, LastStore;
    var steps, n := StepsOfDiff(d), |StepsOfDiff(d)|;
    var done := RunTo(steps, n, start);
    if LastUpdatesLand(steps, from, n) {
      forall c ensures Get(now, c) == Get(done, c) { EndCell(steps, from, start, now, c); }
      Extensional(now, done);
    } else {
      var p :| 0 <= p < n && LastUpdate(steps, p) && !RoomAt(steps, from, p);
      var id := steps[p].node.id;
      RefCoord(steps, p, id, n, start);
      WantedAt(steps[p]);
      assert Get(now, CoordCell(id)) == Absent;
    }
  }

  lemma WantedAt(s: Step)
    requires s.StoreCoord?
    ensures Wanted(s) != Absent
  {}

  lemma EndCell(steps: seq<Step>, from: Files, start: World, now: World, c: Cell)
    requires SaneSteps(steps) && LastUpdatesLand(steps, from, |steps|)
    requires CaughtUp(steps, 0, start, now) && CoordsNow(steps, |steps|, from, now) && RowsCaughtUp(steps, |steps|, start, now)
    ensures Get(now, c) == Get(RunTo(steps, |steps|, start), c)
  {
    hide RunTo, Get, Wanted, Touched, RoomAt, SaneSteps;
    assert CellCaughtUp(steps, 0, start, now, c);
    if !Touched(steps, |steps|, start, c) {
      Untouched(steps, |steps|, start, c);
    } else if c.CoordCell? {
      var p := TouchedIsSet(steps, |steps|, start, c.id);
      RefCoord(steps, p, c.id, |steps|, start);
      assert p < |steps|;
      if steps[p].StoreCoord? { assert LastUpdate(steps, p); }
    }
  }

  // ---------------------------------------------------------------- runs

  /** The state is exact up to what the current diff, not yet recorded, may have rewritten. */
  ghost predicate OnTrack(diffs: int -> seq<Change>, first: int, w: World, m: Machine) {
    var start := Canonical(diffs, first, w, m.recorded);
    && first <= m.recorded
    && match m.phase
       case Idle => SizesOk(m.files) && BitsOk(m.world, m.files) && CaughtUp(StepsOfDiff(diffs(m.recorded + 1)), 0, start, m.world)
       case Applying(number, done, from) =>
         number == m.recorded + 1 && Tracks(diffs(number), done, from, start, m.world, m.files)
  }

  /** The attempt being recorded found room for every last node update of its diff. */
  ghost predicate AllLanded(diffs: int -> seq<Change>, m: Machine) {
    m.phase.Applying? ==>
      LastUpdatesLand(StepsOfDiff(diffs(m.phase.number)), m.phase.from, |StepsOfDiff(diffs(m.phase.number))|)
  }

  lemma BeginTracks(d: seq<Change>, start: World, now: World, f: Files)
    requires SizesOk(f) && BitsOk(now, f) && CaughtUp(StepsOfDiff(d), 0, start, now)
    ensures Tracks(d, 0, f, start, now, f)
  {
    hide StepsOfDiff, BitsOk, SizesOk, Get, RunTo;
    var steps := StepsOfDiff(d);
    forall c: Cell ensures !Touched(steps, 0, start, c) { NoneTouched(steps, start, c); }
  }

  /** After a failure or a crash the diff can be started over. */
  lemma TornTracks(d: seq<Change>, i: nat, from: Files, start: World, now: World, f: Files,
                   torn: map<Cell, Content>, s: Step, g: Files)
    requires SaneSteps(StepsOfDiff(d)) && Tracks(d, i, from, start, now, f)
    requires torn != map[] ==> i < |StepsOfDiff(d)| && s == Label(StepsOfDiff(d)[i], f)
    requires forall c :: c in torn ==> MayTear(s, f, c)
    requires f.size / NodeStore.REC_SIZE <= g.size / NodeStore.REC_SIZE && f.bytes <= g.bytes
    requires torn != map[] && s.StoreCoord? ==> NodeStoreRuns.HasRoom(g, s.node.id)
    ensures BitsOk(Put(now, torn), g) && CaughtUp(StepsOfDiff(d), 0, start, Put(now, torn))
  {
    hide StepsOfDiff, RunTo, Get, Put, CoordsNow, RowsCaughtUp, LastUpdatesLand, NodeStoreRuns.HasRoom, FilesTo;
    var steps, r := StepsOfDiff(d), Put(now, torn);
    forall id | Get(r, CoordCell(id)) != Absent ensures NodeStoreRuns.HasRoom(g, id) {
      if CoordCell(id) in torn {
        if s.ForgetCoord? { RoomStays(f, g, id); }
      } else {
        PatchElsewhere(now, torn, CoordCell(id));
        RoomStays(f, g, id);
      }
    }
    forall c ensures CellCaughtUp(steps, 0, start, r, c) {
      assert CellCaughtUp(steps, 0, start, now, c);
      NoneTouched(steps, start, c);
      if c in torn {
        TornIsTouched(steps, i, f, start, c);
      } else {
        PatchElsewhere(now, torn, c);
      }
    }
  }

  lemma TornIsTouched(steps: seq<Step>, i: nat, f: Files, start: World, c: Cell)
    requires i < |steps| && SaneSteps(steps) && StoreWrites(Label(steps[i], f), c)
    ensures Touched(steps, |steps|, start, c)
  {
    hide RunTo, NodeStoreRuns.GrowPlan, NodeStoreRuns.HasRoom;
    StoreCells(steps[i], RunTo(steps, i, start), c);
    TouchedAt(steps, i, start, c);
  }

  lemma IdleTear(now: World, f: Files, g: Files, steps: seq<Step>, start: World)
    requires BitsOk(now, f) && CaughtUp(steps, 0, start, now)
    requires f.size / NodeStore.REC_SIZE <= g.size / NodeStore.REC_SIZE && f.bytes <= g.bytes
    ensures BitsOk(Put(now, map[]), g) && CaughtUp(steps, 0, start, Put(now, map[]))
  {
    hide Get, CaughtUp;
    ReplayWays.NoTear(now);
    forall id | Get(now, CoordCell(id)) != Absent ensures NodeStoreRuns.HasRoom(g, id) { RoomStays(f, g, id); }
  }

  lemma FilesSizes(d: seq<Change>, i: nat, from: Files, start: World, now: World, f: Files)
    requires Tracks(d, i, from, start, now, f)
    ensures SizesOk(f)
  {
    hide SizesOk, BitsOk, CaughtUp, CoordsNow, LastUpdatesLand, RowsCaughtUp, StepsOfDiff;
    SoundFiles(StepsOfDiff(d), i, from);
  }

  lemma CrashTracks(diffs: int -> seq<Change>, first: int, w: World, m: Machine, e: Event)
    requires forall n :: SaneIds(diffs(n))
    requires OnTrack(diffs, first, w, m) && e.Crash? && Enabled(diffs, m, e)
    ensures OnTrack(diffs, first, w, Next(diffs, m, e))
  {
    hide StepsOfDiff, Canonical, BitsOk, SizesOk, CaughtUp, Tracks, FilesAfterCrash, Put, Label, SaneIds;
    var g := FilesAfterCrash(m.files, GrowingFor(diffs, m), e.stage, e.maxId);
    var start := Canonical(diffs, first, w, m.recorded);
    if m.phase.Idle? {
      CrashSizes(m.files, GrowingFor(diffs, m), e.stage, e.maxId);
      IdleTear(m.world, m.files, g, StepsOfDiff(diffs(m.recorded + 1)), start);
    } else {
      var d := diffs(m.phase.number);
      FilesSizes(d, m.phase.done, m.phase.from, start, m.world, m.files);
      CrashSizes(m.files, GrowingFor(diffs, m), e.stage, e.maxId);
      SaneIdsSteps(d);
      var s := if InStep(diffs, m.phase) then StepNow(diffs, m) else ForgetCoord(-1);
      if e.torn != map[] && s.StoreCoord? { GrownHasRoom(diffs, m, e); }
      TornTracks(d, m.phase.done, m.phase.from, start, m.world, m.files, e.torn, s, g);
    }
  }

  lemma GrownHasRoom(diffs: int -> seq<Change>, m: Machine, e: Event)
    requires e.Crash? && Enabled(diffs, m, e) && e.torn != map[] && StepNow(diffs, m).StoreCoord? && SizesOk(m.files)
    ensures NodeStoreRuns.HasRoom(FilesAfterCrash(m.files, GrowingFor(diffs, m), e.stage, e.maxId), StepNow(diffs, m).node.id)
  {
    hide StepsOfDiff, NodeStoreRuns.GrowPlan, NodeStoreRuns.OpenPlan, NodeStoreRuns.HasRoom;
    var id := StepNow(diffs, m).node.id;
    var c :| c in e.torn;
    assert FindsRoom(m.files, id);
    var g := NodeStoreRuns.GrowPlan(m.files, id);
    NodeStoreRuns.GrowPlanFacts(m.files, id);
    NodeStoreRuns.OpenFacts(g, e.maxId);
    RoomStays(g, NodeStoreRuns.OpenPlan(g, e.maxId), id);
  }

  lemma EventTracks(diffs: int -> seq<Change>, first: int, w: World, m: Machine, e: Event)
    requires OrderedDiffs(diffs) && forall n :: SaneIds(diffs(n))
    requires OnTrack(diffs, first, w, m) && Enabled(diffs, m, e) && (e.Record? ==> AllLanded(diffs, m))
    ensures OnTrack(diffs, first, w, Next(diffs, m, e))
  {
    hide StepsOfDiff, Canonical, BitsOk, SizesOk, CaughtUp, Tracks, FilesAfterCrash, Put, Label, SaneIds, Ordered, Exec, FilesAfter, LastUpdatesLand;
    var start := Canonical(diffs, first, w, m.recorded);
    match e
    case Begin => BeginTracks(diffs(m.recorded + 1), start, m.world, m.files);
    case Commit =>
      SaneIdsSteps(diffs(m.phase.number));
      OrderedIsSorted(diffs(m.phase.number));
      TracksFiles(diffs(m.phase.number), m.phase.done, m.phase.from, start, m.world, m.files);
      SameGrowth(StepsOfDiff(diffs(m.phase.number))[m.phase.done], m.files);
      CommitTracks(diffs(m.phase.number), m.phase.done, m.phase.from, start, m.world);
    case Record => RecordTracks(diffs, first, w, m);
    case Fail =>
      if m.phase.Applying? { FailTracks(diffs(m.phase.number), m.phase.done, m.phase.from, start, m.world, m.files); }
    case Crash(_, _, _) => CrashTracks(diffs, first, w, m, e);
  }

  lemma TracksFiles(d: seq<Change>, i: nat, from: Files, start: World, now: World, f: Files)
    requires Tracks(d, i, from, start, now, f)
    ensures i <= |StepsOfDiff(d)| && f == FilesTo(StepsOfDiff(d), i, from)
  {
    hide SizesOk, BitsOk, CaughtUp, CoordsNow, LastUpdatesLand, RowsCaughtUp, StepsOfDiff, FilesTo;
  }

  lemma SameGrowth(s: Step, f: Files)
    ensures FilesAfter(Label(s, f), f) == FilesAfter(s, f)
  {
    hide NodeStoreRuns.GrowPlan;
  }

  lemma FailTracks(d: seq<Change>, i: nat, from: Files, start: World, now: World, f: Files)
    requires Tracks(d, i, from, start, now, f)
    ensures SizesOk(f) && BitsOk(now, f) && CaughtUp(StepsOfDiff(d), 0, start, now)
  {
    hide SizesOk, BitsOk, CaughtUp, CoordsNow, LastUpdatesLand, RowsCaughtUp, StepsOfDiff, FilesTo;
    FilesSizes(d, i, from, start, now, f);
  }

  lemma NextCanonical(diffs: int -> seq<Change>, first: int, w: World, n: int)
    requires first <= n
    ensures Canonical(diffs, first, w, n + 1) == ApplyDiff(diffs(n + 1), Canonical(diffs, first, w, n))
  {
    hide ApplyDiff;
  }

  lemma RecordTracks(diffs: int -> seq<Change>, first: int, w: World, m: Machine)
    requires forall n :: SaneIds(diffs(n))
    requires OnTrack(diffs, first, w, m) && Enabled(diffs, m, Record) && AllLanded(diffs, m)
    ensures OnTrack(diffs, first, w, Next(diffs, m, Record))
  {
    hide StepsOfDiff, Canonical, BitsOk, SizesOk, CaughtUp, Tracks, SaneIds, LastUpdatesLand, ApplyDiff;
    var start := Canonical(diffs, first, w, m.recorded);
    RecordIff(diffs, first, w, m);
    FailTracks(diffs(m.phase.number), m.phase.done, m.phase.from, start, m.world, m.files);
    FreshIsCaughtUp(StepsOfDiff(diffs(m.recorded + 2)), m.world);
  }

  /** One record: exact if and only if every last update of its attempt landed. */
  lemma RecordIff(diffs: int -> seq<Change>, first: int, w: World, m: Machine)
    requires forall n :: SaneIds(diffs(n))
    requires OnTrack(diffs, first, w, m) && Enabled(diffs, m, Record)
    ensures m.world == Canonical(diffs, first, w, m.recorded + 1) <==> AllLanded(diffs, m)
  {
    hide StepsOfDiff, Canonical, BitsOk, SizesOk, CaughtUp, Tracks, SaneIds, LastUpdatesLand, ApplyDiff;
    var start := Canonical(diffs, first, w, m.recorded);
    var d := diffs(m.phase.number);
    SaneIdsSteps(d);
    TracksFiles(d, m.phase.done, m.phase.from, start, m.world, m.files);
    EndIsExactIff(d, m.phase.from, start, m.world);
    NextCanonical(diffs, first, w, m.recorded);
  }

  ghost predicate LandedUpTo(diffs: int -> seq<Change>, ms: seq<Machine>, es: seq<Event>, k: nat)
    requires k <= |es| && |ms| == |es| + 1
  {
    forall j :: 0 <= j < k && es[j].Record? ==> AllLanded(diffs, ms[j])
  }

  ghost predicate ExactUpTo(diffs: int -> seq<Change>, ms: seq<Machine>, es: seq<Event>, k: nat)
    requires k <= |es| && |ms| == |es| + 1
  {
    forall j :: 0 <= j < k && es[j].Record? ==>
      ms[j + 1].world == Canonical(diffs, ms[0].recorded, ms[0].world, ms[j + 1].recorded)
  }

  lemma {:induction false} RunTracks(diffs: int -> seq<Change>, ms: seq<Machine>, es: seq<Event>, k: nat)
    requires OrderedDiffs(diffs) && forall n :: SaneIds(diffs(n))
    requires IsRun(diffs, ms, es) && SizesOk(ms[0].files) && BitsOk(ms[0].world, ms[0].files)
    requires k < |ms| && LandedUpTo(diffs, ms, es, k)
    ensures OnTrack(diffs, ms[0].recorded, ms[0].world, ms[k])
  {
    hide OnTrack, Next, Enabled, AllLanded, OrderedDiffs, SaneIds, BitsOk, SizesOk;
    if k == 0 {
      StartOnTrack(diffs, ms[0]);
    } else {
      RunTracks(diffs, ms, es, k - 1);
      EventTracks(diffs, ms[0].recorded, ms[0].world, ms[k - 1], es[k - 1]);
    }
  }

  lemma StartOnTrack(diffs: int -> seq<Change>, m: Machine)
    requires m.phase.Idle? && SizesOk(m.files) && BitsOk(m.world, m.files)
    ensures OnTrack(diffs, m.recorded, m.world, m)
  {
    hide StepsOfDiff, BitsOk, SizesOk, CaughtUp;
    FreshIsCaughtUp(StepsOfDiff(diffs(m.recorded + 1)), m.world);
  }

  /**
   Exactly when the recorded states are exact, over any run of any number of diffs with any
   crashes, those half-way through growing the files included: in the attempt that is
   recorded, every last node update of the diff finds its room. The bitmap may be short from
   the start.
   */
  lemma {:induction false} RecordedExactIff(diffs: int -> seq<Change>, ms: seq<Machine>, es: seq<Event>, k: nat)
    requires OrderedDiffs(diffs) && forall n :: SaneIds(diffs(n))
    requires IsRun(diffs, ms, es) && SizesOk(ms[0].files) && BitsOk(ms[0].world, ms[0].files)
    requires k <= |es|
    ensures ExactUpTo(diffs, ms, es, k) <==> LandedUpTo(diffs, ms, es, k)
  {
    hide OnTrack, AllLanded, OrderedDiffs, SaneIds, BitsOk, SizesOk, Canonical, StepsOfDiff, Exec, Label, FilesAfter, FilesAfterCrash, Put;
    if k > 0 {
      RecordedExactIff(diffs, ms, es, k - 1);
      if LandedUpTo(diffs, ms, es, k - 1) && es[k - 1].Record? {
        RunTracks(diffs, ms, es, k - 1);
        RecordIff(diffs, ms[0].recorded, ms[0].world, ms[k - 1]);
        NumberIsNext(diffs, ms, es, k - 1);
      }
      UpToNext(diffs, ms, es, k);
    }
  }

  lemma UpToNext(diffs: int -> seq<Change>, ms: seq<Machine>, es: seq<Event>, k: nat)
    requires 0 < k <= |es| && |ms| == |es| + 1
    ensures LandedUpTo(diffs, ms, es, k) <==> LandedUpTo(diffs, ms, es, k - 1) && (es[k - 1].Record? ==> AllLanded(diffs, ms[k - 1]))
    ensures ExactUpTo(diffs, ms, es, k) <==>
      (ExactUpTo(diffs, ms, es, k - 1)
        && (es[k - 1].Record? ==> ms[k].world == Canonical(diffs, ms[0].recorded, ms[0].world, ms[k].recorded)))
  {
    hide AllLanded, Canonical;
  }

  // ---------------------------------------------------------------- an input that fails

  function NewNode(id: int, at: Coord): Change { NodeChange(Create, NodeEntry(id, "", map[], at, Point(at))) }

  /** Node 1 in one diff, node 8 in the next. */
  function TwoNodes(at: Coord): int -> seq<Change> {
    (n: int) => if n == 1 then [NewNode(1, at)] else if n == 2 then [NewNode(8, at)] else []
  }

  const SMALL: Files := NodeStoreRuns.Plan(16, 1, map[])
  const SHORT: Files := NodeStoreRuns.Plan(1_000_001 * 16, 1, map[])

  function LossEvents(): seq<Event> { [Begin, Crash(HalfGrown, map[], 0), Begin, Commit, Record, Begin, Commit, Record] }

  function LossStates(at: Coord): seq<Machine> {
    var one: World := map[CoordCell(1) := At(at)];
    var none: World := map[];
    [Machine(none, SMALL, 0, Idle), Machine(none, SMALL, 0, Applying(1, 0, SMALL)), Machine(none, SHORT, 0, Idle),
     Machine(none, SHORT, 0, Applying(1, 0, SHORT)), Machine(one, SHORT, 0, Applying(1, 1, SHORT)), Machine(one, SHORT, 1, Idle),
     Machine(one, SHORT, 1, Applying(2, 0, SHORT)), Machine(one, SHORT, 1, Applying(2, 1, SHORT)), Machine(one, SHORT, 2, Idle)]
  }

  lemma OneStore(id: int, at: Coord)
    ensures StepsOfDiff([NewNode(id, at)]) == [Store(NewNode(id, at).node)]
  {
    var d := [NewNode(id, at)];
    assert d[1..] == [];
    assert StepsOf(d[0]) == [Store(NewNode(id, at).node)];
    assert StepsOf(d[0]) + [] == StepsOf(d[0]);
  }

  /** The files after the crash, and what they then do with nodes 1 and 8. */
  lemma LossSizes(at: Coord)
    ensures FilesAfterCrash(SMALL, Some(1), HalfGrown, 0) == SHORT
    ensures var s := Store(NewNode(1, at).node); Label(s, SHORT) == s && FilesAfter(s, SHORT) == SHORT
    ensures var s := Store(NewNode(8, at).node); Label(s, SHORT) == StoreCoord(s.node, false) && FilesAfter(Label(s, SHORT), SHORT) == SHORT
  {}

  lemma LossStores(at: Coord, w: World)
    ensures var none: World := map[]; Exec(Store(NewNode(1, at).node), none) == map[CoordCell(1) := At(at)]
    ensures Exec(StoreCoord(NewNode(8, at).node, false), w) == w
    ensures Get(Exec(Store(NewNode(8, at).node), w), CoordCell(8)) == At(at)
  {
    var none: World := map[];
    ReplayWays.StoreStep(Store(NewNode(8, at).node), w, 8);
    ReplayWays.NoTear(w);
    var one: World := map[CoordCell(1) := At(at)];
    forall c ensures Get(Exec(Store(NewNode(1, at).node), none), c) == Get(one, c) {
      ExecCell(Store(NewNode(1, at).node), none, c);
    }
    Extensional(Exec(Store(NewNode(1, at).node), none), one);
  }

  lemma LossStep(at: Coord, k: nat)
    requires k < |LossEvents()|
    ensures Enabled(TwoNodes(at), LossStates(at)[k], LossEvents()[k])
    ensures LossStates(at)[k + 1] == Next(TwoNodes(at), LossStates(at)[k], LossEvents()[k])
  {
    hide Exec, Put, Label, FilesAfter, FilesAfterCrash, StepsOfDiff, SMALL, SHORT;
    var one: World := map[CoordCell(1) := At(at)];
    LossSteps(at);
    LossSizes(at);
    LossStores(at, one);
    ReplayWays.NoTear(map[]);
    StoreLabel(Store(NewNode(1, at).node), SMALL);
  }

  lemma LossSteps(at: Coord)
    ensures StepsOfDiff(TwoNodes(at)(1)) == [Store(NewNode(1, at).node)]
    ensures StepsOfDiff(TwoNodes(at)(2)) == [Store(NewNode(8, at).node)]
  {
    hide StepsOfDiff;
    OneStore(1, at);
    OneStore(8, at);
  }

  lemma StoreLabel(s: Step, f: Files)
    requires s.StoreCoord?
    ensures Label(s, f).StoreCoord? && Label(s, f).node == s.node
  {}

  /**
   A store with one record, a diff that adds node 1 with a crash half-way through growing for
   it, then re-run, recorded and exact; and a diff that adds node 8, without any crash, which
   is recorded while the node is lost.
   */
  lemma LaterDiffLosesNode(at: Coord)
    ensures IsRun(TwoNodes(at), LossStates(at), LossEvents()) && ExactUpTo(TwoNodes(at), LossStates(at), LossEvents(), 5)
    ensures LossStates(at)[8].recorded == 2 && LossStates(at)[8].world != Canonical(TwoNodes(at), 0, map[], 2)
  {
    hide Enabled, Next, Exec, SMALL, SHORT;
    var one: World := map[CoordCell(1) := At(at)];
    forall k | 0 <= k < |LossEvents()|
      ensures Enabled(TwoNodes(at), LossStates(at)[k], LossEvents()[k])
        && LossStates(at)[k + 1] == Next(TwoNodes(at), LossStates(at)[k], LossEvents()[k])
    {
      LossStep(at, k);
    }
    LossCanonical(at);
  }

  lemma LossCanonical(at: Coord)
    ensures Canonical(TwoNodes(at), 0, map[], 1) == map[CoordCell(1) := At(at)]
    ensures Get(Canonical(TwoNodes(at), 0, map[], 2), CoordCell(8)) == At(at)
  {
    hide Exec, Get;
    var one: World := map[CoordCell(1) := At(at)];
    var none: World := map[];
    OneStore(1, at);
    OneStore(8, at);
    LossStores(at, one);
    assert Canonical(TwoNodes(at), 0, none, 0) == none;
    NextCanonical(TwoNodes(at), 0, none, 0);
    NextCanonical(TwoNodes(at), 0, none, 1);
    OneRun(Store(NewNode(1, at).node), none);
    OneRun(Store(NewNode(8, at).node), one);
  }

  lemma OneRun(s: Step, w: World)
    ensures RunTo([s], 1, w) == Exec(s, w)
  {
    hide Exec;
    assert RunTo([s], 0, w) == w;
  }

  // ---------------------------------------------------------------- the condition on sizes

  /** This step grows the files when their size is `size`. */
  predicate Grows(size: nat, s: Step) {
    s.StoreCoord? && 0 <= s.node.id <= MAX_SANE_ID && (s.node.id + 1) * NodeStore.REC_SIZE > size
  }

  lemma GrowsIff(f: Files, s: Step)
    ensures Grows(f.size, s) <==> FilesAfter(s, f).size != f.size
    ensures FilesAfter(s, f).size == f.size ==> FilesAfter(s, f) == f
  {
    hide NodeStore.GrownSize;
    if s.StoreCoord? && s.node.id >= 0 {
      NodeStoreRuns.GrowsIff(f, s.node.id);
      NodeStoreRuns.SameSizes(f, s.node.id);
    }
  }

  lemma {:induction false} FilesSoFar(steps: seq<Step>, f: Files, j: nat)
    requires SizesOk(f) && j <= |steps|
    ensures if exists i :: 0 <= i < j && Grows(f.size, steps[i]) then Covered(FilesTo(steps, j, f)) else FilesTo(steps, j, f) == f
  {
    hide SizesOk, FilesAfter, Grows, Covered;
    if j > 0 {
      FilesSoFar(steps, f, j - 1);
      SoundFiles(steps, j - 1, f);
      var g := FilesTo(steps, j - 1, f);
      FilesGrow(steps[j - 1], g);
      GrowsIff(g, steps[j - 1]);
      if FilesAfter(steps[j - 1], g).size != g.size { GrownCovers(steps[j - 1], g); }
      if exists i :: 0 <= i < j - 1 && Grows(f.size, steps[i]) {
        var i :| 0 <= i < j - 1 && Grows(f.size, steps[i]);
        assert 0 <= i < j;
      }
    }
  }

  lemma GrownCovers(s: Step, f: Files)
    requires SizesOk(f) && FilesAfter(s, f).size != f.size
    ensures Covered(FilesAfter(s, f))
  {
    hide NodeStoreRuns.GrowPlan, NodeStoreRuns.CoveredPlan;
    if s.StoreCoord? && s.node.id >= 0 { NodeStoreRuns.GrowPlanFacts(f, s.node.id); }
  }

  /**
   A node update finds room exactly when the bitmap has its bit as the attempt begins, or some
   update of the attempt up to it still has to grow the files.
   */
  lemma RoomAtIff(steps: seq<Step>, from: Files, p: nat)
    requires SizesOk(from) && p < |steps| && steps[p].StoreCoord? && Sane(steps[p].node.id)
    ensures RoomAt(steps, from, p) <==>
      steps[p].node.id / 8 < from.bytes || exists i :: 0 <= i <= p && Grows(from.size, steps[i])
  {
    hide SizesOk, Grows, Covered, NodeStoreRuns.GrowPlan;
    FilesSoFar(steps, from, p);
    SoundFiles(steps, p, from);
    var f, id := FilesTo(steps, p, from), steps[p].node.id;
    if exists i :: 0 <= i < p && Grows(from.size, steps[i]) {
      CoveredRoom(f, id);
    } else {
      RoomNow(f, steps[p]);
    }
  }

  lemma RoomNow(f: Files, s: Step)
    requires SizesOk(f) && s.StoreCoord? && Sane(s.node.id)
    ensures FindsRoom(f, s.node.id) <==> s.node.id / 8 < f.bytes || Grows(f.size, s)
  {
    hide NodeStoreRuns.GrowPlan;
    GrowsIff(f, s);
    NodeStoreRuns.GrowPlanFacts(f, s.node.id);
  }
}
