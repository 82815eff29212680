/**
 Seeding the sequence number too early (include/PlanetDownloader.h, src/PlanetDownloader.cpp):
 diffs that the imported data already includes are applied again.
 */
module Replay {
  import opened Core
  import opened Geometry
  import opened NavTables
  import opened Delta
  import opened StoreSteps
  import opened Replication

  function ApplyAll(ds: seq<seq<Change>>, w: World): World
    decreases |ds|
  {
    if ds == [] then w else ApplyDiff(ds[|ds| - 1], ApplyAll(ds[..|ds| - 1], w))
  }

  /** All steps of a list of diffs. */
  function AllSteps(ds: seq<seq<Change>>): seq<Step>
    decreases |ds|
  {
    if ds == [] then [] else AllSteps(ds[..|ds| - 1]) + StepsOfDiff(ds[|ds| - 1])
  }

  lemma EmptyRun(w: World)
    ensures RunTo([], 0, w) == w
  {}

  lemma ApplyOneMore(a: seq<Step>, d: seq<Change>, w: World)
    ensures ApplyDiff(d, RunTo(a, |a|, w)) == RunTo(a + StepsOfDiff(d), |a + StepsOfDiff(d)|, w)
  {
    hide Exec, StepsOfDiff;
    RunConcat(a, StepsOfDiff(d), |StepsOfDiff(d)|, w);
  }

  lemma {:induction false} ApplyAllIsRun(ds: seq<seq<Change>>, w: World)
    ensures ApplyAll(ds, w) == RunTo(AllSteps(ds), |AllSteps(ds)|, w)
  {
    hide Exec, RunTo, StepsOfDiff, ApplyDiff;
    if ds == [] {
      EmptyRun(w);
    } else {
      var init, last := ds[..|ds| - 1], ds[|ds| - 1];
      ApplyAllIsRun(init, w);
      ApplyOneMore(AllSteps(init), last, w);
    }
  }

  lemma {:induction false} AllStepsPrefix(ds: seq<seq<Change>>, k: nat)
    requires k <= |ds|
    ensures AllSteps(ds[..k]) <= AllSteps(ds)
  {
    if k < |ds| {
      var init := ds[..|ds| - 1];
      AllStepsPrefix(init, k);
      assert init[..k] == ds[..k];
    } else {
      assert ds[..k] == ds;
    }
  }

  /** `CaughtUp` for the node store and the node tables alone; no order is assumed. */
  ghost predicate NodesCaughtUp(steps: seq<Step>, i: nat, start: World, now: World)
    requires i <= |steps|
  {
    forall c :: CellLevel(c) == 0 ==> CellCaughtUp(steps, i, start, now, c)
  }

  lemma NodeStepKeeps(steps: seq<Step>, i: nat, start: World, now: World)
    requires i < |steps| && NodesCaughtUp(steps, i, start, now)
    ensures NodesCaughtUp(steps, i + 1, start, Exec(steps[i], now))
  {
    hide Writes, Exec, Get, CellCaughtUp, CellLevel, StepLevel;
    var ref := RunTo(steps, i, start);
    WritesOwnLevel(steps[i], ref);
    WritesOwnLevel(steps[i], now);
    if StepLevel(steps[i]) == 0 { ReadsBelow(steps[i], now, ref); }
    var k, next := i + 1, Exec(steps[i], now);
    forall c | CellLevel(c) == 0 ensures CellCaughtUp(steps, k, start, next, c) {
      CellStep(steps, i, start, now, c);
    }
  }

  lemma {:induction false} NodeRunKeeps(steps: seq<Step>, i: nat, start: World, now: World)
    requires i <= |steps| && NodesCaughtUp(steps, 0, start, now)
    ensures NodesCaughtUp(steps, i, start, RunTo(steps, i, now))
  {
    hide Exec, NodesCaughtUp;
    if i > 0 {
      NodeRunKeeps(steps, i - 1, start, now);
      NodeStepKeeps(steps, i - 1, start, RunTo(steps, i - 1, now));
    }
  }

  /** A prefix of the steps touches only cells that all the steps touch. */
  lemma PrefixIsCaughtUp(steps: seq<Step>, i: nat, start: World, c: Cell)
    requires i <= |steps|
    ensures CellCaughtUp(steps, 0, start, RunTo(steps, i, start), c)
  {
    hide WrittenAt, Exec, Get;
    if !Touched(steps, i, start, c) {
      Untouched(steps, i, start, c);
    } else {
      TouchedMore(steps, i, |steps|, start, c);
    }
  }

  lemma NodeReplayExact(steps: seq<Step>, i: nat, start: World, c: Cell)
    requires i <= |steps| && CellLevel(c) == 0
    ensures Get(RunTo(steps, |steps|, RunTo(steps, i, start)), c) == Get(RunTo(steps, |steps|, start), c)
  {
    hide WrittenAt, Exec, Get;
    forall d ensures CellCaughtUp(steps, 0, start, RunTo(steps, i, start), d) {
      PrefixIsCaughtUp(steps, i, start, d);
    }
    NodeRunKeeps(steps, |steps|, start, RunTo(steps, i, start));
    if !Touched(steps, |steps|, start, c) { Untouched(steps, |steps|, start, c); }
  }

  /**
   Early start is harmless for nodes: applying diffs 1..n to a world that already includes
   diffs 1..k leaves every node coordinate, node row and node tag as after diff n. Nothing
   is assumed of the order of changes inside the diffs.
   */
  lemma EarlyStartNodes(ds: seq<seq<Change>>, k: nat, w: World)
    requires k <= |ds|
    ensures forall c :: CellLevel(c) == 0 ==>
              Get(ApplyAll(ds, ApplyAll(ds[..k], w)), c) == Get(ApplyAll(ds, w), c)
  {
    hide Exec;
    var steps := AllSteps(ds);
    var i := |AllSteps(ds[..k])|;
    AllStepsPrefix(ds, k);
    assert steps == AllSteps(ds[..k]) + steps[i..];
    RunPrefix(AllSteps(ds[..k]), steps[i..], i, w);
    ApplyAllIsRun(ds[..k], w);
    ApplyAllIsRun(ds, w);
    ApplyAllIsRun(ds, RunTo(steps, i, w));
    forall c | CellLevel(c) == 0
      ensures Get(ApplyAll(ds, ApplyAll(ds[..k], w)), c) == Get(ApplyAll(ds, w), c)
    {
      NodeReplayExact(steps, i, w, c);
    }
  }

  // ---------------------------------------------------------------- every table

  lemma {:induction false} RunKeepsCaughtUp(steps: seq<Step>, i: nat, start: World, now: World)
    requires i <= |steps| && Settled(steps, start) && CaughtUp(steps, 0, start, now)
    ensures CaughtUp(steps, i, start, RunTo(steps, i, now))
  {
    hide Exec, CaughtUp, Settled;
    if i > 0 {
      RunKeepsCaughtUp(steps, i - 1, start, now);
      StepKeepsCaughtUp(steps, i - 1, start, RunTo(steps, i - 1, now));
    }
  }

  /** Settled steps may be started again from any point of their own run. */
  lemma ReplayExact(steps: seq<Step>, i: nat, start: World)
    requires i <= |steps| && Settled(steps, start)
    ensures RunTo(steps, |steps|, RunTo(steps, i, start)) == RunTo(steps, |steps|, start)
  {
    hide Exec, Get, Settled, CellCaughtUp;
    var now := RunTo(steps, i, start);
    forall c ensures CellCaughtUp(steps, 0, start, now, c) { PrefixIsCaughtUp(steps, i, start, c); }
    RunKeepsCaughtUp(steps, |steps|, start, now);
    FinishedIsExact(steps, start, RunTo(steps, |steps|, now));
  }

  /** The two runs of an early start, as runs of one list of steps. */
  lemma EarlyStartSteps(ds: seq<seq<Change>>, k: nat, w: World)
    requires k <= |ds|
    ensures |AllSteps(ds[..k])| <= |AllSteps(ds)|
    ensures ApplyAll(ds[..k], w) == RunTo(AllSteps(ds), |AllSteps(ds[..k])|, w)
    ensures forall v :: ApplyAll(ds, v) == RunTo(AllSteps(ds), |AllSteps(ds)|, v)
  {
    hide Exec, AllSteps, ApplyAll, RunTo;
    var steps := AllSteps(ds);
    var i := |AllSteps(ds[..k])|;
    AllStepsPrefix(ds, k);
    assert steps == AllSteps(ds[..k]) + steps[i..];
    RunPrefix(AllSteps(ds[..k]), steps[i..], i, w);
    ApplyAllIsRun(ds[..k], w);
    forall v ensures ApplyAll(ds, v) == RunTo(steps, |steps|, v) { ApplyAllIsRun(ds, v); }
  }

  /**
   Early start is harmless for every table when no change reads what only a later change
   first writes: applying diffs 1..n over a world that already includes diffs 1..k gives the
   world after diff n.
   */
  lemma EarlyStartExact(ds: seq<seq<Change>>, k: nat, w: World)
    requires k <= |ds| && Settled(AllSteps(ds), w)
    ensures ApplyAll(ds, ApplyAll(ds[..k], w)) == ApplyAll(ds, w)
  {
    hide Exec, AllSteps, ApplyAll, RunTo, Settled;
    EarlyStartSteps(ds, k, w);
    ReplayExact(AllSteps(ds), |AllSteps(ds[..k])|, w);
  }

  // ---------------------------------------------------------------- with the sizes of the files

  function ApplyAllIn(ds: seq<seq<Change>>, s: State): State
    decreases |ds|
  {
    if ds == [] then s
    else
      var last, t := ds[|ds| - 1], ApplyAllIn(ds[..|ds| - 1], s);
      State(ApplyDiffIn(last, t.world, t.files), FilesAfterDiff(last, t.files))
  }

  /** On files with a covering bitmap the growing store takes sane ids as the plain one does. */
  lemma {:induction false} SizedIsPlain(ds: seq<seq<Change>>, s: State)
    requires Covered(s.files) && forall i :: 0 <= i < |ds| ==> SaneIds(ds[i])
    ensures ApplyAllIn(ds, s).world == ApplyAll(ds, s.world) && Covered(ApplyAllIn(ds, s).files)
  {
    hide SaneIds, Covered, ApplyDiffIn, ApplyDiff, FilesAfterDiff;
    if ds != [] {
      var init, last := ds[..|ds| - 1], ds[|ds| - 1];
      SizedIsPlain(init, s);
      var t := ApplyAllIn(init, s);
      CoveredRunIsPlain(last, t.world, t.files);
    }
  }

  /** Early start on the growing files: exact for nodes, and for every table when settled. */
  lemma EarlyStartInFiles(ds: seq<seq<Change>>, k: nat, s: State)
    requires k <= |ds| && Covered(s.files) && forall i :: 0 <= i < |ds| ==> SaneIds(ds[i])
    ensures var again, once := ApplyAllIn(ds, ApplyAllIn(ds[..k], s)).world, ApplyAllIn(ds, s).world;
      && (forall c :: CellLevel(c) == 0 ==> Get(again, c) == Get(once, c))
      && (Settled(AllSteps(ds), s.world) ==> again == once)
  {
    hide SaneIds, Covered, ApplyAllIn, ApplyAll, AllSteps, Settled, Get;
    SizedIsPlain(ds[..k], s);
    SizedIsPlain(ds, s);
    SizedIsPlain(ds, ApplyAllIn(ds[..k], s));
    EarlyStartNodes(ds, k, s.world);
    if Settled(AllSteps(ds), s.world) { EarlyStartExact(ds, k, s.world); }
  }

  /**
   The claim does not extend to ways. A way edited in one diff and a node it uses moved in
   the next: replaying both rebuilds the way from the moved node. The same two changes in
   one diff, way first, show that crash-exactness needs the order inside a diff.
   */
  lemma WaysDependOnOrder(tags: Tags, a: Coord, b: Coord, w: World, way: Change, node: Change)
    requires HasSurvivingTag(tags, false) && a != b
    requires w == map[CoordCell(1) := At(a), CoordCell(2) := At(a)]
    requires way == WayChange(Modify, WayEntry(7, "", tags, [1, 2]))
    requires node == NodeChange(Create, NodeEntry(1, "", map[], b, Point(b)))
    ensures ApplyAll([[way], [node]], ApplyAll([[way], [node]], w)) != ApplyAll([[way], [node]], w)
    ensures ApplyDiff([way, node], ApplyDiff([way, node], w)) != ApplyDiff([way, node], w)
    ensures Ordered([way]) && Ordered([node]) && !Ordered([way, node])
  {
    hide Writes, Exec, StepsOfDiff, AllSteps, RunTo, ApplyAll, HasSurvivingTag, NavTables.NoCollision, StepsOf;
    var wy, nd := way.way, node.node;
    var steps := [ClearOther(wy), PutWay(wy), Store(nd)];
    TwoChangesSteps(way, node);
    TwoDiffsSteps(way, node);
    StepsHere(way, node);
    var once := RunTo(steps, 3, w);
    ApplyAllIsRun([[way], [node]], w);
    ApplyAllIsRun([[way], [node]], once);
    OneRound(wy, nd, w, a, a);
    OneRound(wy, nd, once, b, a);
  }

  lemma StepsHere(way: Change, node: Change)
    requires way.WayChange? && way.action.Modify? && node.NodeChange? && node.action.Create? && node.node.tags == map[]
    ensures StepsOf(way) + StepsOf(node) == [ClearOther(way.way), PutWay(way.way), Store(node.node)]
    ensures Ordered([way]) && Ordered([node]) && !Ordered([way, node])
  {
    var d := [way, node];
    assert ChangeLevel(d[0]) > ChangeLevel(d[1]);
  }

  lemma TwoChangesSteps(c: Change, d: Change)
    ensures StepsOfDiff([c, d]) == StepsOf(c) + StepsOf(d)
  {
    assert [c, d][1..] == [d];
    assert [d][1..] == [];
    assert StepsOfDiff([d]) == StepsOf(d) + [];
  }

  lemma TwoDiffsSteps(c: Change, d: Change)
    ensures AllSteps([[c], [d]]) == StepsOf(c) + StepsOf(d)
  {
    assert [[c], [d]][..1] == [[c]];
    assert [[c]][..0] == [];
    assert StepsOfDiff([c]) == StepsOf(c) + [] by { assert [c][1..] == []; }
    assert StepsOfDiff([d]) == StepsOf(d) + [] by { assert [d][1..] == []; }
    assert AllSteps([[c]]) == [] + StepsOf(c);
  }

  /** One round of "edit way 7 over nodes 1 and 2, then store node 1". */
  lemma OneRound(wy: WayEntry, nd: NodeEntry, w: World, p: Coord, q: Coord)
    requires wy.id == 7 && wy.refs == [1, 2] && nd.id == 1 && HasSurvivingTag(wy.tags, false)
    requires Get(w, CoordCell(1)) == At(p) && Get(w, CoordCell(2)) == At(q)
    ensures var r := RunTo([ClearOther(wy), PutWay(wy), Store(nd)], 3, w);
            && Get(r, RowCell(WayKind, 7)) == Stored(GeomRow(wy.name, Some(Line([p, q]))))
            && Get(r, CoordCell(1)) == At(nd.at) && Get(r, CoordCell(2)) == At(q)
  {
    hide Kept, HasSurvivingTag, Writes, Exec;
    var steps := [ClearOther(wy), PutWay(wy), Store(nd)];
    var w1 := Exec(steps[0], w);
    var w2 := Exec(steps[1], w1);
    var w3 := Exec(steps[2], w2);
    assert RunTo(steps, 1, w) == Exec(steps[0], RunTo(steps, 0, w));
    assert RunTo(steps, 2, w) == w2;
    assert RunTo(steps, 3, w) == w3;
    PairWay(wy, w, p, q);
    ExecCell(steps[0], w, CoordCell(1));
    ExecCell(steps[0], w, CoordCell(2));
    PairWay(wy, w1, p, q);
    ExecCell(steps[1], w1, CoordCell(2));
    ExecCell(steps[1], w1, RowCell(WayKind, 7));
    StoredAtOne(nd, w2);
    ExecCell(steps[2], w2, CoordCell(1));
    ExecCell(steps[2], w2, CoordCell(2));
    ExecCell(steps[2], w2, RowCell(WayKind, 7));
  }

  lemma StoredAtOne(nd: NodeEntry, w: World)
    requires nd.id == 1
    ensures Writes(Store(nd), w) == map[CoordCell(1) := At(nd.at)]
  {}

  lemma PairWay(wy: WayEntry, w: World, p: Coord, q: Coord)
    requires wy.id == 7 && wy.refs == [1, 2] && HasSurvivingTag(wy.tags, false)
    requires Get(w, CoordCell(1)) == At(p) && Get(w, CoordCell(2)) == At(q)
    ensures forall id :: CoordCell(id) !in Writes(ClearOther(wy), w)
    ensures forall id :: CoordCell(id) !in Writes(PutWay(wy), w)
    ensures var row := RowCell(WayKind, 7); var patch := Writes(PutWay(wy), w);
            row in patch && patch[row] == Stored(GeomRow(wy.name, Some(Line([p, q]))))
  {
    hide Kept, HasSurvivingTag;
    ResolvedPair(w, p, q);
  }

  lemma ResolvedPair(w: World, p: Coord, q: Coord)
    requires Get(w, CoordCell(1)) == At(p) && Get(w, CoordCell(2)) == At(q)
    ensures Resolved(w, [1, 2]) == [p, q]
  {
    assert [1, 2][1..] == [2];
    assert [2][1..] == [];
    assert Resolved(w, [2]) == [q] + [];
  }
}
