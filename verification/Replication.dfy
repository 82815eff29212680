/**
 Replication with crashes (src/Replicator.cpp).

 A diff is applied as many committed steps and its sequence number is recorded only
 afterwards, so a crash anywhere inside a diff is followed by applying the whole diff
 again on top of whatever was committed.
 */
module Replication {
  import opened Core
  import opened Geometry
  import opened NavTables
  import opened Delta
  import opened StoreSteps
  import NodeStoreRuns

  // ---------------------------------------------------------------- re-applying one diff

  /** Step `j` of the crash-free run from `start` writes cell `c`. */
  ghost predicate WrittenAt(steps: seq<Step>, j: nat, start: World, c: Cell)
    requires j < |steps|
  {
    c in Writes(steps[j], RunTo(steps, j, start))
  }

  /** The crash-free run from `start` writes cell `c` within its first `i` steps. */
  ghost predicate Touched(steps: seq<Step>, i: nat, start: World, c: Cell)
    requires i <= |steps|
  {
    exists j :: 0 <= j < i && WrittenAt(steps, j, start, c)
  }

  /**
   What is known of `now` when the diff is being applied for the n-th time and `i` steps
   of this attempt are committed: cells the diff has already rewritten hold the crash-free
   value, and cells the diff never writes still hold their old value. Nothing is known of
   the cells that only an earlier, interrupted attempt reached.
   */
  ghost predicate CaughtUp(steps: seq<Step>, i: nat, start: World, now: World)
    requires i <= |steps|
  {
    forall c :: CellCaughtUp(steps, i, start, now, c)
  }

  ghost predicate CellCaughtUp(steps: seq<Step>, i: nat, start: World, now: World, c: Cell)
    requires i <= |steps|
  {
    && (Touched(steps, i, start, c) ==> Get(now, c) == Get(RunTo(steps, i, start), c))
    && (!Touched(steps, |steps|, start, c) ==> Get(now, c) == Get(start, c))
  }

  lemma ExecCell(s: Step, w: World, c: Cell)
    ensures Get(Exec(s, w), c) == if c in Writes(s, w) then Writes(s, w)[c] else Get(w, c)
  {
    hide Writes;
  }

  /** The geometry found before the first transaction is the one the second would find. */
  lemma ShapeKept(way: WayEntry, w: World)
    ensures WayShape(Exec(ClearOther(way), w), way) == WayShape(w, way)
  {
    hide Get, Exec, BuildWay, Erase;
    var r := Exec(ClearOther(way), w);
    forall id ensures Get(r, CoordCell(id)) == Get(w, CoordCell(id)) {
      ExecCell(ClearOther(way), w, CoordCell(id));
    }
    ResolvedAgrees(r, w, way.refs);
  }

  lemma MembersKept(r: RelationEntry, w: World)
    ensures RelationShape(Exec(PutRelation(r), w), r) == RelationShape(w, r)
  {
    hide Get, Exec, Upsert, MergeLines, NavTables.NoCollision;
    var v := Exec(PutRelation(r), w);
    forall c | IsWayRow(c) && c.id in r.members ensures Get(v, c) == Get(w, c) { ExecCell(PutRelation(r), w, c); }
    MembersSame(v, w, r.members);
  }

  lemma {:induction false} Untouched(steps: seq<Step>, i: nat, start: World, c: Cell)
    requires i <= |steps| && !Touched(steps, i, start, c)
    ensures Get(RunTo(steps, i, start), c) == Get(start, c)
  {
    hide Writes, Exec, Get;
    if i > 0 {
      assert !WrittenAt(steps, i - 1, start, c);
      ExecCell(steps[i - 1], RunTo(steps, i - 1, start), c);
      Untouched(steps, i - 1, start, c);
    }
  }

  lemma TouchedMore(steps: seq<Step>, i: nat, j: nat, start: World, c: Cell)
    requires i <= j <= |steps| && Touched(steps, i, start, c)
    ensures Touched(steps, j, start, c)
  {
    hide WrittenAt;
  }

  lemma TouchedSnoc(steps: seq<Step>, i: nat, start: World, c: Cell)
    requires i < |steps|
    ensures Touched(steps, i + 1, start, c) <==> Touched(steps, i, start, c) || WrittenAt(steps, i, start, c)
  {
    hide WrittenAt;
  }

  /** One step of both runs, seen at one cell, once both write the same. */
  lemma CellStep(steps: seq<Step>, i: nat, start: World, now: World, c: Cell)
    requires i < |steps| && CellCaughtUp(steps, i, start, now, c)
    requires c in Writes(steps[i], now) || c in Writes(steps[i], RunTo(steps, i, start)) ==>
               Writes(steps[i], now) == Writes(steps[i], RunTo(steps, i, start))
    ensures CellCaughtUp(steps, i + 1, start, Exec(steps[i], now), c)
  {
    hide Writes, Exec, Get, Touched;
    var ref := RunTo(steps, i, start);
    ExecCell(steps[i], now, c);
    ExecCell(steps[i], ref, c);
    TouchedSnoc(steps, i, start, c);
    if Touched(steps, i + 1, start, c) { TouchedMore(steps, i + 1, |steps|, start, c); }
  }

  /** No step reads a cell whose first write in the crash-free run comes later. */
  ghost predicate Settled(steps: seq<Step>, start: World) {
    forall i, c :: 0 <= i < |steps| && Reads(steps[i], c) ==> SettledAt(steps, i, start, c)
  }

  ghost predicate SettledAt(steps: seq<Step>, i: nat, start: World, c: Cell)
    requires i <= |steps|
  {
    Touched(steps, |steps|, start, c) ==> Touched(steps, i, start, c)
  }

  /** Steps sorted by layer are settled from every start. */
  lemma SortedIsSettled(steps: seq<Step>, start: World)
    requires Sorted(steps)
    ensures Settled(steps, start)
  {
    hide Writes, RunTo, Reads, StepLevel, CellLevel;
    forall i, c | 0 <= i < |steps| && Reads(steps[i], c) ensures SettledAt(steps, i, start, c) {
      if Touched(steps, |steps|, start, c) {
        var j :| 0 <= j < |steps| && WrittenAt(steps, j, start, c);
        WritesOwnLevel(steps[j], RunTo(steps, j, start));
        ReadsLower(steps[i], c);
        assert j < i;
      }
    }
  }

  /** Everything the next step reads is already final. */
  lemma ReadsAreFinal(steps: seq<Step>, i: nat, start: World, now: World)
    requires Settled(steps, start) && i < |steps| && CaughtUp(steps, i, start, now)
    ensures SameReads(steps[i], now, RunTo(steps, i, start))
  {
    hide Touched, RunTo, Get, Reads;
    forall c | Reads(steps[i], c) ensures Get(now, c) == Get(RunTo(steps, i, start), c) {
      assert CellCaughtUp(steps, i, start, now, c) && SettledAt(steps, i, start, c);
      if !Touched(steps, i, start, c) { Untouched(steps, i, start, c); }
    }
  }

  lemma StepKeepsCaughtUp(steps: seq<Step>, i: nat, start: World, now: World)
    requires Settled(steps, start) && i < |steps| && CaughtUp(steps, i, start, now)
    ensures CaughtUp(steps, i + 1, start, Exec(steps[i], now))
  {
    hide Writes, Exec, Get, CellCaughtUp, Settled, SameReads;
    ReadsAreFinal(steps, i, start, now);
    ReadsOnly(steps[i], now, RunTo(steps, i, start));
    var k, next := i + 1, Exec(steps[i], now);
    forall c ensures CellCaughtUp(steps, k, start, next, c) {
      CellStep(steps, i, start, now, c);
    }
  }

  /** Being caught up to any point is enough to start the diff over. */
  lemma StartOver(steps: seq<Step>, i: nat, start: World, now: World)
    requires i <= |steps| && CaughtUp(steps, i, start, now)
    ensures CaughtUp(steps, 0, start, now)
  {
    hide WrittenAt, Get;
    forall c ensures CellCaughtUp(steps, 0, start, now, c) {
      assert CellCaughtUp(steps, i, start, now, c);
    }
  }

  lemma FinishedIsExact(steps: seq<Step>, start: World, now: World)
    requires CaughtUp(steps, |steps|, start, now)
    ensures now == RunTo(steps, |steps|, start)
  {
    hide Exec, WrittenAt, Get;
    var done := RunTo(steps, |steps|, start);
    forall c ensures Get(now, c) == Get(done, c) {
      assert CellCaughtUp(steps, |steps|, start, now, c);
      if !Touched(steps, |steps|, start, c) { Untouched(steps, |steps|, start, c); }
    }
    Extensional(now, done);
  }

  // ---------------------------------------------------------------- the polling process

  /** `from`: the sizes of the store files when the attempt began. */
  datatype Phase = Idle | Applying(number: int, done: nat, from: Files)

  datatype Machine = Machine(world: World, files: Files, recorded: int, phase: Phase)

  /**
   `Fail` is an exception that makes `downloadAndApply` return false. A crash may come inside
   the store write in flight: before or half-way through growing the files, or later, leaving
   `torn` in the cells it writes. The restart asks for ids up to `maxId`.
   */
  datatype Event = Begin | Commit | Record | Fail | Crash(stage: Stage, torn: map<Cell, Content>, maxId: nat)

  predicate StoreWrites(s: Step, c: Cell) {
    match s
    case StoreCoord(n, lands) => lands && c == CoordCell(n.id)
    case ForgetCoord(id) => id >= 0 && c == CoordCell(id)
    case _ => false
  }

  /** The cells a write in flight may leave half-written: only where the files have room. */
  predicate MayTear(s: Step, f: Files, c: Cell) {
    StoreWrites(s, c) && (s.ForgetCoord? ==> NodeStoreRuns.HasRoom(f, s.id))
  }

  predicate InStep(diffs: int -> seq<Change>, p: Phase) {
    p.Applying? && p.done < |StepsOfDiff(diffs(p.number))|
  }

  /** The step in flight, as the files at this moment take it. */
  function StepNow(diffs: int -> seq<Change>, m: Machine): Step
    requires InStep(diffs, m.phase)
  {
    Label(StepsOfDiff(diffs(m.phase.number))[m.phase.done], m.files)
  }

  /** The id a store update in flight may be growing the files for. */
  function GrowingFor(diffs: int -> seq<Change>, m: Machine): Option<int> {
    if InStep(diffs, m.phase) && StepNow(diffs, m).StoreCoord? then Some(StepNow(diffs, m).node.id) else None
  }

  predicate Enabled(diffs: int -> seq<Change>, m: Machine, e: Event) {
    match e
    case Begin => m.phase.Idle?
    case Commit => InStep(diffs, m.phase)
    case Record => m.phase.Applying? && m.phase.done == |StepsOfDiff(diffs(m.phase.number))|
    case Fail => true
    case Crash(stage, torn, _) =>
      && (torn != map[] ==> stage.Grown? && InStep(diffs, m.phase))
      && (forall c :: c in torn ==> MayTear(StepNow(diffs, m), m.files, c))
  }

  function Next(diffs: int -> seq<Change>, m: Machine, e: Event): Machine
    requires Enabled(diffs, m, e)
  {
    match e
    case Begin => m.(phase := Applying(m.recorded + 1, 0, m.files))
    case Commit =>
      m.(world := Exec(StepNow(diffs, m), m.world),
         files := FilesAfter(StepNow(diffs, m), m.files),
         phase := m.phase.(done := m.phase.done + 1))
    case Record => m.(recorded := m.phase.number, phase := Idle)
    case Fail => m.(phase := Idle)
    case Crash(stage, torn, maxId) =>
      m.(world := Put(m.world, torn), files := FilesAfterCrash(m.files, GrowingFor(diffs, m), stage, maxId), phase := Idle)
  }

  /** Crash-free application of the diffs numbered `first+1` to `last`. */
  function Canonical(diffs: int -> seq<Change>, first: int, w: World, last: int): World
    decreases last - first
  {
    if last <= first then w else ApplyDiff(diffs(last), Canonical(diffs, first, w, last - 1))
  }

  /** A run: any events in any order, each enabled where it happens. */
  ghost predicate IsRun(diffs: int -> seq<Change>, ms: seq<Machine>, es: seq<Event>) {
    && |ms| == |es| + 1
    && ms[0].phase.Idle?
    && forall k :: 0 <= k < |es| ==> Enabled(diffs, ms[k], es[k]) && ms[k + 1] == Next(diffs, ms[k], es[k])
  }

  /** Every diff is settled where the crash-free run would apply it. */
  ghost predicate SettledDiffs(diffs: int -> seq<Change>, first: int, w: World) {
    forall n :: n > first ==> Settled(StepsOfDiff(diffs(n)), Canonical(diffs, first, w, n - 1))
  }

  /** The step in flight, if any, finds room exactly when the plain model lets it. */
  predicate Fits(diffs: int -> seq<Change>, m: Machine) {
    InStep(diffs, m.phase) ==> StepNow(diffs, m) == StepsOfDiff(diffs(m.phase.number))[m.phase.done]
  }

  /** Every step that is committed, or cut short by a crash, fits. */
  ghost predicate AllFit(diffs: int -> seq<Change>, ms: seq<Machine>, es: seq<Event>, k: nat)
    requires k <= |es| && |ms| == |es| + 1
  {
    forall j :: 0 <= j < k && (es[j].Commit? || es[j].Crash?) ==> Fits(diffs, ms[j])
  }

  ghost predicate Sound(diffs: int -> seq<Change>, first: int, w: World, m: Machine) {
    var steps := StepsOfDiff(diffs(m.recorded + 1));
    var i := if m.phase.Idle? then 0 else m.phase.done;
    && first <= m.recorded
    && (m.phase.Applying? ==> m.phase.number == m.recorded + 1)
    && i <= |steps|
    && CaughtUp(steps, i, Canonical(diffs, first, w, m.recorded), m.world)
  }

  lemma FreshIsCaughtUp(steps: seq<Step>, w: World)
    ensures CaughtUp(steps, 0, w, w)
  {}

  /** Whatever a torn write left in its own cells, the diff can start over. */
  lemma TornStartsOver(steps: seq<Step>, i: nat, start: World, now: World, torn: map<Cell, Content>)
    requires i <= |steps| && CaughtUp(steps, i, start, now)
    requires forall c :: c in torn ==> i < |steps| && StoreWrites(steps[i], c)
    ensures CaughtUp(steps, 0, start, Put(now, torn))
  {
    hide RunTo, Get;
    forall c ensures CellCaughtUp(steps, 0, start, Put(now, torn), c) {
      assert CellCaughtUp(steps, i, start, now, c);
      if c in torn {
        StoreCells(steps[i], RunTo(steps, i, start), c);
        assert WrittenAt(steps, i, start, c);
      } else {
        PatchElsewhere(now, torn, c);
      }
    }
  }

  lemma StoreCells(s: Step, w: World, c: Cell)
    requires StoreWrites(s, c)
    ensures c in Writes(s, w)
  {}

  lemma CommitKeepsSound(diffs: int -> seq<Change>, first: int, w: World, m: Machine)
    requires Sound(diffs, first, w, m) && InStep(diffs, m.phase) && Fits(diffs, m)
    requires Settled(StepsOfDiff(diffs(m.recorded + 1)), Canonical(diffs, first, w, m.recorded))
    ensures Sound(diffs, first, w, Next(diffs, m, Commit))
  {
    hide Exec, CaughtUp, Settled, StepsOfDiff, Label, FilesAfter, Canonical;
    StepKeepsCaughtUp(StepsOfDiff(diffs(m.recorded + 1)), m.phase.done, Canonical(diffs, first, w, m.recorded), m.world);
  }

  /** A finished attempt has the crash-free world, and the next diff starts from it. */
  lemma RecordKeepsSound(diffs: int -> seq<Change>, first: int, w: World, m: Machine)
    requires Sound(diffs, first, w, m) && Enabled(diffs, m, Record)
    ensures Sound(diffs, first, w, Next(diffs, m, Record))
    ensures Next(diffs, m, Record).recorded == m.recorded + 1
    ensures Next(diffs, m, Record).world == Canonical(diffs, first, w, m.recorded + 1)
  {
    hide Exec, CaughtUp, StepsOfDiff;
    var start := Canonical(diffs, first, w, m.recorded);
    FinishedIsExact(StepsOfDiff(diffs(m.recorded + 1)), start, m.world);
    FreshIsCaughtUp(StepsOfDiff(diffs(m.recorded + 2)), m.world);
  }

  lemma EventKeepsSound(diffs: int -> seq<Change>, first: int, w: World, m: Machine, e: Event)
    requires SettledDiffs(diffs, first, w)
    requires Sound(diffs, first, w, m) && Enabled(diffs, m, e) && (e.Commit? || e.Crash? ==> Fits(diffs, m))
    ensures Sound(diffs, first, w, Next(diffs, m, e))
    ensures e.Record? ==>
              && Next(diffs, m, e).recorded == m.recorded + 1
              && Next(diffs, m, e).world == Canonical(diffs, first, w, m.recorded + 1)
  {
    hide Exec, CaughtUp, Settled, StoreWrites, Put, StepsOfDiff, Label, FilesAfter, FilesAfterCrash, Canonical;
    var steps := StepsOfDiff(diffs(m.recorded + 1));
    var start := Canonical(diffs, first, w, m.recorded);
    var i := if m.phase.Idle? then 0 else m.phase.done;
    match e
    case Begin =>
    case Commit => CommitKeepsSound(diffs, first, w, m);
    case Record => RecordKeepsSound(diffs, first, w, m);
    case Fail => StartOver(steps, i, start, m.world);
    case Crash(_, torn, _) => TornStartsOver(steps, i, start, m.world, torn);
  }

  lemma {:induction false} RunIsSound(diffs: int -> seq<Change>, ms: seq<Machine>, es: seq<Event>, k: nat)
    requires IsRun(diffs, ms, es) && k < |ms| && AllFit(diffs, ms, es, k)
    requires SettledDiffs(diffs, ms[0].recorded, ms[0].world)
    ensures Sound(diffs, ms[0].recorded, ms[0].world, ms[k])
  {
    hide Exec, CaughtUp, Enabled, Next, SettledDiffs, Fits;
    if k == 0 {
      FreshIsCaughtUp(StepsOfDiff(diffs(ms[0].recorded + 1)), ms[0].world);
    } else {
      RunIsSound(diffs, ms, es, k - 1);
      EventKeepsSound(diffs, ms[0].recorded, ms[0].world, ms[k - 1], es[k - 1]);
    }
  }

  /**
   Crash-exact replication. In every run, with any number of crashes between committed steps
   or inside a store write and its growth, the node store and every table at the moment
   sequence s is recorded are those of the crash-free application of every diff up to s, in
   turn, with none skipped. No diff may read what only a later change of it first writes, and
   every node update must find room exactly when the plain store has it: a crash half-way
   through growing the files can take that away.
   */
  lemma CrashExact(diffs: int -> seq<Change>, ms: seq<Machine>, es: seq<Event>, k: nat)
    requires IsRun(diffs, ms, es) && k < |es| && es[k].Record? && AllFit(diffs, ms, es, k)
    requires SettledDiffs(diffs, ms[0].recorded, ms[0].world)
    ensures ms[k + 1].recorded == ms[k].recorded + 1
    ensures ms[k + 1].world == Canonical(diffs, ms[0].recorded, ms[0].world, ms[k + 1].recorded)
  {
    hide Exec, CaughtUp, SettledDiffs, AllFit;
    RunIsSound(diffs, ms, es, k);
    EventKeepsSound(diffs, ms[0].recorded, ms[0].world, ms[k], es[k]);
  }

  ghost predicate OrderedDiffs(diffs: int -> seq<Change>) { forall n :: Ordered(diffs(n)) }

  lemma OrderedAreSettled(diffs: int -> seq<Change>, first: int, w: World)
    requires OrderedDiffs(diffs)
    ensures SettledDiffs(diffs, first, w)
  {
    hide Settled, Ordered, Canonical, StepsOfDiff;
    forall n | n > first ensures Settled(StepsOfDiff(diffs(n)), Canonical(diffs, first, w, n - 1)) {
      OrderedIsSorted(diffs(n));
      SortedIsSettled(StepsOfDiff(diffs(n)), Canonical(diffs, first, w, n - 1));
    }
  }

  /** In particular when every diff lists nodes before ways before relations. */
  lemma CrashExactOrdered(diffs: int -> seq<Change>, ms: seq<Machine>, es: seq<Event>, k: nat)
    requires IsRun(diffs, ms, es) && k < |es| && es[k].Record? && AllFit(diffs, ms, es, k)
    requires OrderedDiffs(diffs)
    ensures ms[k + 1].world == Canonical(diffs, ms[0].recorded, ms[0].world, ms[k].recorded + 1)
  {
    hide OrderedDiffs, Canonical, AllFit, SettledDiffs, Next, Enabled;
    OrderedAreSettled(diffs, ms[0].recorded, ms[0].world);
    CrashExact(diffs, ms, es, k);
  }

  // ---------------------------------------------------------------- no crash half-way through a grow

  ghost predicate NoHalfGrow(es: seq<Event>) { forall j :: 0 <= j < |es| && es[j].Crash? ==> !es[j].stage.HalfGrown? }

  lemma EventKeepsCovered(diffs: int -> seq<Change>, m: Machine, e: Event)
    requires Covered(m.files) && Enabled(diffs, m, e) && (e.Crash? ==> !e.stage.HalfGrown?)
    ensures Covered(Next(diffs, m, e).files)
  {
    hide Covered, FilesAfter, FilesAfterCrash, Label, StepsOfDiff, Put, Exec, StoreWrites;
    CoveredSizes(m.files);
    match e
    case Commit => FilesGrow(StepNow(diffs, m), m.files);
    case Crash(stage, _, maxId) => CrashSizes(m.files, GrowingFor(diffs, m), stage, maxId);
    case _ =>
  }

  /** Unless a crash comes half-way through a grow, a covering bitmap keeps covering. */
  lemma {:induction false} RunStaysCovered(diffs: int -> seq<Change>, ms: seq<Machine>, es: seq<Event>, k: nat)
    requires IsRun(diffs, ms, es) && k < |ms| && Covered(ms[0].files) && NoHalfGrow(es)
    ensures Covered(ms[k].files)
  {
    hide Covered, Next, Enabled;
    if k > 0 {
      RunStaysCovered(diffs, ms, es, k - 1);
      EventKeepsCovered(diffs, ms[k - 1], es[k - 1]);
    }
  }

  lemma CoveredFits(diffs: int -> seq<Change>, m: Machine)
    requires Covered(m.files) && forall n :: SaneIds(diffs(n))
    ensures Fits(diffs, m)
  {
    hide Covered, StepsOfDiff, Label, SaneIds;
    if InStep(diffs, m.phase) {
      SaneIdsSteps(diffs(m.phase.number));
      PlainLabel(StepsOfDiff(diffs(m.phase.number))[m.phase.done], m.files);
    }
  }

  /**
   From files whose bitmap covers the data, with ids up to the ceiling: any crashes but those
   between the two truncations of a grow leave the crash-free state at every record.
   */
  lemma CrashExactCovered(diffs: int -> seq<Change>, ms: seq<Machine>, es: seq<Event>, k: nat)
    requires IsRun(diffs, ms, es) && k < |es| && es[k].Record?
    requires SettledDiffs(diffs, ms[0].recorded, ms[0].world)
    requires Covered(ms[0].files) && NoHalfGrow(es) && forall n :: SaneIds(diffs(n))
    ensures ms[k + 1].recorded == ms[k].recorded + 1
    ensures ms[k + 1].world == Canonical(diffs, ms[0].recorded, ms[0].world, ms[k + 1].recorded)
  {
    hide SettledDiffs, Covered, NoHalfGrow, Fits, SaneIds, Next, Enabled, Canonical;
    forall j | 0 <= j < k ensures Fits(diffs, ms[j]) {
      RunStaysCovered(diffs, ms, es, j);
      CoveredFits(diffs, ms[j]);
    }
    CrashExact(diffs, ms, es, k);
  }

  /** Catching up applies each diff from the next to the last one, once, in turn. */
  lemma {:induction false} CaughtUpIsCanonical(diffs: int -> seq<Change>, first: int, s: State, last: int)
    requires Covered(s.files) && forall n :: SaneIds(diffs(n))
    ensures ApplyDiffsIn(diffs, first, s, last).world == Canonical(diffs, first, s.world, last)
    ensures Covered(ApplyDiffsIn(diffs, first, s, last).files)
    decreases last - first
  {
    hide Covered, SaneIds, ApplyDiffIn, ApplyDiff, FilesAfterDiff;
    if first < last {
      CaughtUpIsCanonical(diffs, first, s, last - 1);
      var t := ApplyDiffsIn(diffs, first, s, last - 1);
      CoveredRunIsPlain(diffs(last), t.world, t.files);
    }
  }

  // ---------------------------------------------------------------- the recorded number

  /** The number being applied is always the one after the recorded one. */
  lemma {:induction false} NumberIsNext(diffs: int -> seq<Change>, ms: seq<Machine>, es: seq<Event>, k: nat)
    requires IsRun(diffs, ms, es) && k < |ms|
    ensures ms[k].phase.Applying? ==> ms[k].phase.number == ms[k].recorded + 1
  {
    hide Exec, Put, StepsOfDiff, Label, FilesAfter, FilesAfterCrash;
    if k > 0 { NumberIsNext(diffs, ms, es, k - 1); }
  }

  /** The recorded number moves only by recording the next diff: nothing is skipped or repeated. */
  lemma NothingSkipped(diffs: int -> seq<Change>, ms: seq<Machine>, es: seq<Event>, k: nat)
    requires IsRun(diffs, ms, es) && k < |es|
    ensures ms[k + 1].recorded == ms[k].recorded + if es[k].Record? then 1 else 0
  {
    hide Exec, Put, StepsOfDiff, Label, FilesAfter, FilesAfterCrash;
    NumberIsNext(diffs, ms, es, k);
  }
}
