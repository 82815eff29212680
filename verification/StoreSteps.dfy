/**
 The room a store write finds (src/OSMMMap.cpp, `update`, `growMergedIfNeeded`): whether it
 lands depends on the sizes of the data file and the bitmap, which grow as updates need.
 */
module StoreSteps {
  import opened Core
  import opened NavTables
  import opened Delta
  import NodeStore
  import NodeStoreRuns

  /** The sizes of the two files alone. */
  type Files = p: NodeStoreRuns.Plan | p.coords == map[] witness NodeStoreRuns.Plan(0, 0, map[])

  function FilesAfter(s: Step, f: Files): Files {
    if s.StoreCoord? && s.node.id >= 0 then NodeStoreRuns.GrowPlan(f, s.node.id) else f
  }

  /** The update of an id reaches a record and a bit, growing the files if it may. */
  predicate FindsRoom(f: Files, id: int) {
    id >= 0 && NodeStoreRuns.HasRoom(NodeStoreRuns.GrowPlan(f, id), id)
  }

  /** The step as the files take it. */
  function Label(s: Step, f: Files): Step {
    if s.StoreCoord? then s.(lands := FindsRoom(f, s.node.id)) else s
  }

  function FilesTo(steps: seq<Step>, i: nat, f: Files): Files
    requires i <= |steps|
  {
    if i == 0 then f else FilesAfter(steps[i - 1], FilesTo(steps, i - 1, f))
  }

  function Labelled(steps: seq<Step>, f: Files): (r: seq<Step>)
    ensures |r| == |steps|
  {
    seq(|steps|, i requires 0 <= i < |steps| => Label(steps[i], FilesTo(steps, i, f)))
  }

  /** A diff applied to a world whose store files have these sizes. */
  function ApplyDiffIn(d: seq<Change>, w: World, f: Files): World {
    RunTo(Labelled(StepsOfDiff(d), f), |StepsOfDiff(d)|, w)
  }

  function FilesAfterDiff(d: seq<Change>, f: Files): Files { FilesTo(StepsOfDiff(d), |StepsOfDiff(d)|, f) }

  // ---------------------------------------------------------------- sizes

  /** The bitmap is no longer than the data needs. */
  predicate SizesOk(f: Files) { f.bytes <= NodeStore.BytesFor(f.size / NodeStore.REC_SIZE) }

  predicate Covered(f: Files) { SizesOk(f) && NodeStoreRuns.CoveredPlan(f) }

  lemma FilesGrow(s: Step, f: Files)
    requires SizesOk(f)
    ensures SizesOk(FilesAfter(s, f))
    ensures f.size <= FilesAfter(s, f).size && f.bytes <= FilesAfter(s, f).bytes
    ensures f.size / NodeStore.REC_SIZE <= FilesAfter(s, f).size / NodeStore.REC_SIZE
    ensures Covered(f) ==> Covered(FilesAfter(s, f))
  {
    hide NodeStoreRuns.GrowPlan, NodeStoreRuns.CoveredPlan;
    if s.StoreCoord? && s.node.id >= 0 { NodeStoreRuns.GrowPlanFacts(f, s.node.id); }
  }

  /** A covering bitmap takes exactly the sane ids, and those over the ceiling it already has. */
  lemma CoveredRoom(f: Files, id: int)
    requires Covered(f)
    ensures FindsRoom(f, id) <==> Sane(id) || MAX_SANE_ID < id < f.size / NodeStore.REC_SIZE
  {
    hide NodeStoreRuns.GrowPlan;
    if id >= 0 { NodeStoreRuns.GrowPlanFacts(f, id); }
  }

  /** No change of the diff has an id over the ceiling. */
  ghost predicate SaneIds(d: seq<Change>) {
    forall c :: c in d && c.NodeChange? && !c.action.Delete? ==> c.node.id <= MAX_SANE_ID
  }

  /** The steps of a diff, as a covering store takes them. */
  ghost predicate SaneSteps(steps: seq<Step>) {
    forall i :: 0 <= i < |steps| && steps[i].StoreCoord? ==> steps[i].node.id <= MAX_SANE_ID && steps[i].lands == Sane(steps[i].node.id)
  }

  lemma {:induction false} SaneIdsSteps(d: seq<Change>)
    requires SaneIds(d)
    ensures SaneSteps(StepsOfDiff(d))
  {
    if d != [] {
      var head, rest := StepsOf(d[0]), StepsOfDiff(d[1..]);
      assert d[0] in d && forall c :: c in d[1..] ==> c in d;
      SaneIdsSteps(d[1..]);
      assert StepsOfDiff(d) == head + rest;
      SaneHead(d[0]);
      SaneConcat(head, rest);
    }
  }

  lemma SaneHead(c: Change)
    requires c.NodeChange? && !c.action.Delete? ==> c.node.id <= MAX_SANE_ID
    ensures SaneSteps(StepsOf(c))
  {}

  lemma SaneConcat(a: seq<Step>, b: seq<Step>)
    requires SaneSteps(a) && SaneSteps(b)
    ensures SaneSteps(a + b)
  {}

  lemma {:induction false} FilesToGrow(steps: seq<Step>, i: nat, j: nat, f: Files)
    requires SizesOk(f) && i <= j <= |steps|
    ensures SizesOk(FilesTo(steps, j, f)) && (Covered(f) ==> Covered(FilesTo(steps, j, f)))
    ensures FilesTo(steps, i, f).size <= FilesTo(steps, j, f).size && FilesTo(steps, i, f).bytes <= FilesTo(steps, j, f).bytes
    ensures FilesTo(steps, i, f).size / NodeStore.REC_SIZE <= FilesTo(steps, j, f).size / NodeStore.REC_SIZE
    decreases j
  {
    hide FilesAfter, SizesOk, Covered;
    if j > 0 {
      FilesToGrow(steps, if i < j then i else j - 1, j - 1, f);
      FilesGrow(steps[j - 1], FilesTo(steps, j - 1, f));
    }
  }

  /** From a covering bitmap a diff with sane ids runs as the plain model says. */
  lemma CoveredRunIsPlain(d: seq<Change>, w: World, f: Files)
    requires Covered(f) && SaneIds(d)
    ensures Labelled(StepsOfDiff(d), f) == StepsOfDiff(d)
    ensures ApplyDiffIn(d, w, f) == ApplyDiff(d, w) && Covered(FilesAfterDiff(d, f))
  {
    hide StepsOfDiff, FilesAfter, SaneIds, FindsRoom, Covered, RunTo;
    var steps := StepsOfDiff(d);
    assert SizesOk(f) by { CoveredSizes(f); }
    SaneIdsSteps(d);
    FilesToGrow(steps, 0, |steps|, f);
    forall i | 0 <= i < |steps| ensures Label(steps[i], FilesTo(steps, i, f)) == steps[i] {
      FilesToGrow(steps, 0, i, f);
      PlainLabel(steps[i], FilesTo(steps, i, f));
    }
    assert Labelled(steps, f) == steps;
  }

  lemma CoveredSizes(f: Files)
    requires Covered(f)
    ensures SizesOk(f)
  {}

  lemma PlainLabel(s: Step, f: Files)
    requires Covered(f) && (s.StoreCoord? ==> s.node.id <= MAX_SANE_ID && s.lands == Sane(s.node.id))
    ensures Label(s, f) == s
  {
    hide FindsRoom, Covered;
    if s.StoreCoord? { CoveredRoom(f, s.node.id); }
  }

  /** A label only concerns coordinates. */
  lemma LabelTables(s: Step, f: Files, w: World, c: Cell)
    requires !c.CoordCell?
    ensures Get(Exec(Label(s, f), w), c) == Get(Exec(s, w), c)
  {
    hide FindsRoom, Get, Put;
    if s.StoreCoord? {
      PatchElsewhere(w, Writes(s, w), c);
      PatchElsewhere(w, Writes(Label(s, f), w), c);
    }
  }

  lemma PatchElsewhere(w: World, patch: map<Cell, Content>, c: Cell)
    requires c !in patch
    ensures Get(Put(w, patch), c) == Get(w, c)
  {}

  // ---------------------------------------------------------------- one change after another

  lemma {:induction false} FilesConcat(a: seq<Step>, b: seq<Step>, i: nat, f: Files)
    requires i <= |b|
    ensures FilesTo(a + b, |a|, f) == FilesTo(a, |a|, f)
    ensures FilesTo(a + b, |a| + i, f) == FilesTo(b, i, FilesTo(a, |a|, f))
  {
    hide FilesAfter;
    if i == 0 {
      FilesPrefix(a, b, |a|, f);
    } else {
      FilesConcat(a, b, i - 1, f);
      assert (a + b)[|a| + i - 1] == b[i - 1];
    }
  }

  lemma {:induction false} FilesPrefix(a: seq<Step>, b: seq<Step>, i: nat, f: Files)
    requires i <= |a|
    ensures FilesTo(a + b, i, f) == FilesTo(a, i, f)
  {
    hide FilesAfter;
    if i > 0 {
      FilesPrefix(a, b, i - 1, f);
      assert (a + b)[i - 1] == a[i - 1];
    }
  }

  lemma LabelledConcat(a: seq<Step>, b: seq<Step>, f: Files)
    ensures Labelled(a + b, f) == Labelled(a, f) + Labelled(b, FilesTo(a, |a|, f))
  {
    hide FilesAfter, FilesTo, Label;
    var l := Labelled(a, f) + Labelled(b, FilesTo(a, |a|, f));
    forall i | 0 <= i < |a + b| ensures Labelled(a + b, f)[i] == l[i] {
      if i < |a| {
        FilesPrefix(a, b, i, f);
        assert (a + b)[i] == a[i];
      } else {
        FilesConcat(a, b, i - |a|, f);
        assert (a + b)[i] == b[i - |a|];
      }
    }
  }

  /** A world and the sizes of its store files. */
  datatype State = State(world: World, files: Files)

  /** The diffs numbered `first+1` to `last`, applied in turn. */
  function ApplyDiffsIn(diffs: int -> seq<Change>, first: int, s: State, last: int): State
    decreases last - first
  {
    if last <= first then s
    else
      var t := ApplyDiffsIn(diffs, first, s, last - 1);
      State(ApplyDiffIn(diffs(last), t.world, t.files), FilesAfterDiff(diffs(last), t.files))
  }

  // ---------------------------------------------------------------- crashes

  /** How far the growth inside the store write in flight had come. */
  datatype Stage = Before | HalfGrown | Grown

  /** The sizes after a crash during a step and a restart that asks for ids up to `maxId`. */
  function FilesAfterCrash(f: Files, inFlight: Option<int>, stage: Stage, maxId: nat): Files {
    var g := if inFlight.None? || inFlight.value < 0 || stage.Before? then f
      else if stage.HalfGrown? then f.(size := NodeStore.GrownSize(f.size, inFlight.value))
      else NodeStoreRuns.GrowPlan(f, inFlight.value);
    NodeStoreRuns.OpenPlan(g, maxId)
  }

  lemma CrashSizes(f: Files, inFlight: Option<int>, stage: Stage, maxId: nat)
    requires SizesOk(f)
    ensures var g := FilesAfterCrash(f, inFlight, stage, maxId);
      && SizesOk(g) && f.size <= g.size && f.bytes <= g.bytes
      && f.size / NodeStore.REC_SIZE <= g.size / NodeStore.REC_SIZE
      && (Covered(f) && !stage.HalfGrown? ==> Covered(g))
  {
    hide NodeStoreRuns.GrowPlan, NodeStoreRuns.OpenPlan, NodeStore.GrownSize;
    if inFlight.Some? && inFlight.value >= 0 {
      NodeStoreRuns.GrowPlanFacts(f, inFlight.value);
      NodeStoreRuns.SizeFacts(f.size, inFlight.value);
      NodeStore.DivMono(f.size, NodeStore.GrownSize(f.size, inFlight.value));
      MoreBytes(f.size / NodeStore.REC_SIZE, NodeStore.GrownSize(f.size, inFlight.value) / NodeStore.REC_SIZE);
    }
    var g := if inFlight.None? || inFlight.value < 0 || stage.Before? then f
      else if stage.HalfGrown? then f.(size := NodeStore.GrownSize(f.size, inFlight.value))
      else NodeStoreRuns.GrowPlan(f, inFlight.value);
    NodeStoreRuns.OpenFacts(g, maxId);
  }

  lemma MoreBytes(a: nat, b: nat)
    requires a <= b
    ensures NodeStore.BytesFor(a) <= NodeStore.BytesFor(b)
  {}

  /** Files with room for every sane id and for no other. */
  const FULL: Files := NodeStoreRuns.Plan((MAX_SANE_ID + 1) * NodeStore.REC_SIZE, NodeStore.BytesFor(MAX_SANE_ID + 1), map[])

  lemma FullStays(s: Step)
    ensures FilesAfter(s, FULL) == FULL
    ensures s.StoreCoord? && s.lands == Sane(s.node.id) ==> Label(s, FULL) == s
    ensures NodeStoreRuns.OpenPlan(FULL, MAX_SANE_ID) == FULL
  {}
}
