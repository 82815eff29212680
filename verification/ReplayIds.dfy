/**
 When re-application is exact, decided from the ids in the diffs alone: no change may be
 followed by a first write of something it reads.
 */
module ReplayIds {
  import opened Core
  import opened NavTables
  import opened Delta
  import opened Replication
  import opened Replay

  function Flat(ds: seq<seq<Change>>): seq<Change>
    decreases |ds|
  {
    if ds == [] then [] else Flat(ds[..|ds| - 1]) + ds[|ds| - 1]
  }

  lemma {:induction false} StepsConcat(a: seq<Change>, b: seq<Change>)
    ensures StepsOfDiff(a + b) == StepsOfDiff(a) + StepsOfDiff(b)
  {
    hide StepsOf;
    if a == [] {
      assert a + b == b;
    } else {
      assert (a + b)[1..] == a[1..] + b;
      StepsConcat(a[1..], b);
      assert StepsOf(a[0]) + (StepsOfDiff(a[1..]) + StepsOfDiff(b)) == (StepsOf(a[0]) + StepsOfDiff(a[1..])) + StepsOfDiff(b);
    }
  }

  lemma {:induction false} FlatSteps(ds: seq<seq<Change>>)
    ensures AllSteps(ds) == StepsOfDiff(Flat(ds))
  {
    hide StepsOf;
    if ds != [] {
      FlatSteps(ds[..|ds| - 1]);
      StepsConcat(Flat(ds[..|ds| - 1]), ds[|ds| - 1]);
    }
  }

  // ---------------------------------------------------------------- which change a step belongs to

  function Owner(cs: seq<Change>, p: nat): (k: nat)
    requires p < |StepsOfDiff(cs)|
    ensures k < |cs|
  {
    if p < |StepsOf(cs[0])| then 0 else 1 + Owner(cs[1..], p - |StepsOf(cs[0])|)
  }

  lemma {:induction false} OwnerStep(cs: seq<Change>, p: nat)
    requires p < |StepsOfDiff(cs)|
    ensures StepsOfDiff(cs)[p] in StepsOf(cs[Owner(cs, p)])
  {
    hide StepsOf;
    var head := StepsOf(cs[0]);
    if p < |head| {
      assert StepsOfDiff(cs)[p] == head[p];
    } else {
      OwnerStep(cs[1..], p - |head|);
      assert StepsOfDiff(cs)[p] == StepsOfDiff(cs[1..])[p - |head|];
    }
  }

  lemma {:induction false} OwnerMonotone(cs: seq<Change>, p: nat, q: nat)
    requires p <= q < |StepsOfDiff(cs)|
    ensures Owner(cs, p) <= Owner(cs, q)
  {
    hide StepsOf;
    if p >= |StepsOf(cs[0])| { OwnerMonotone(cs[1..], p - |StepsOf(cs[0])|, q - |StepsOf(cs[0])|); }
  }

  /** The steps of change `h` are among the steps of the list. */
  lemma {:induction false} StepOfChange(cs: seq<Change>, h: nat, b: nat) returns (q: nat)
    requires h < |cs| && b < |StepsOf(cs[h])|
    ensures q < |StepsOfDiff(cs)| && Owner(cs, q) == h && StepsOfDiff(cs)[q] == StepsOf(cs[h])[b]
  {
    hide StepsOf;
    if h == 0 {
      q := b;
    } else {
      q := StepOfChange(cs[1..], h - 1, b);
      q := q + |StepsOf(cs[0])|;
    }
  }

  // ---------------------------------------------------------------- the check on ids

  /** The cells a change may build a geometry from. */
  predicate MayRead(c: Change, x: Cell) {
    match c
    case NodeChange(_, _) => false
    case WayChange(a, way) => !a.Delete? && x.CoordCell? && x.id in way.refs
    case RelationChange(a, r) => !a.Delete? && IsWayRow(x) && x.id in r.members
  }

  /** The coordinates and way rows a change may write. */
  predicate MayWrite(c: Change, x: Cell) {
    match c
    case NodeChange(a, n) => x == CoordCell(n.id) && n.id >= 0 && (a.Delete? || n.id <= MAX_SANE_ID)
    case WayChange(_, way) => IsWayRow(x) && x.id == way.id
    case RelationChange(_, _) => false
  }

  /** Those it certainly writes: a way edit whose geometry fails writes nothing. */
  predicate MustWrite(c: Change, x: Cell) {
    MayWrite(c, x) && (c.WayChange? ==> c.action.Delete?)
  }

  /**
   No node change to a reference after a way, nor way change to a member after a relation,
   unless one that certainly writes came before it.
   */
  ghost predicate IdsSettled(cs: seq<Change>) {
    forall i, j, x | 0 <= i < j < |cs| && MayRead(cs[i], x) && MayWrite(cs[j], x) :: WrittenBefore(cs, i, x)
  }

  ghost predicate WrittenBefore(cs: seq<Change>, i: nat, x: Cell)
    requires i <= |cs|
  {
    exists h :: 0 <= h < i && MustWrite(cs[h], x)
  }

  lemma StepReads(c: Change, s: Step, x: Cell)
    requires s in StepsOf(c) && Reads(s, x)
    ensures MayRead(c, x)
  {
    hide IsWayRow, NavTables.NoCollision;
  }

  lemma StepWrites(c: Change, s: Step, w: World, x: Cell)
    requires s in StepsOf(c) && x in Writes(s, w) && (x.CoordCell? || IsWayRow(x))
    ensures MayWrite(c, x)
  {
    hide WayShape, RelationShape, IsRoad, Kept, NavTables.NoCollision;
  }

  lemma ReadableCell(c: Change, x: Cell)
    requires MayRead(c, x)
    ensures (x.CoordCell? || IsWayRow(x)) && !MayWrite(c, x)
  {}

  /** The step by which a change certainly writes a cell. */
  lemma MustStep(c: Change, x: Cell) returns (b: nat)
    requires MustWrite(c, x)
    ensures b < |StepsOf(c)| && forall w :: x in Writes(StepsOf(c)[b], w)
  {
    hide WayShape, RelationShape, IsRoad, Kept, NavTables.NoCollision;
    b := if x.RowCell? && x.kind.AreaKind? then 1 else 0;
  }

  /** The check on ids is enough, from every start. */
  lemma IdsSettle(cs: seq<Change>, start: World)
    requires IdsSettled(cs)
    ensures Settled(StepsOfDiff(cs), start)
  {
    hide StepsOf, StepsOfDiff, Writes, RunTo, Reads, MayRead, MayWrite, MustWrite, IsWayRow, Touched;
    var steps := StepsOfDiff(cs);
    forall p, x | 0 <= p < |steps| && Reads(steps[p], x) ensures SettledAt(steps, p, start, x) {
      if Touched(steps, |steps|, start, x) { FirstWriteBefore(cs, start, p, x); }
    }
  }

  lemma FirstWriteBefore(cs: seq<Change>, start: World, p: nat, x: Cell)
    requires IdsSettled(cs) && p < |StepsOfDiff(cs)| && Reads(StepsOfDiff(cs)[p], x)
    requires Touched(StepsOfDiff(cs), |StepsOfDiff(cs)|, start, x)
    ensures Touched(StepsOfDiff(cs), p, start, x)
  {
    hide StepsOf, StepsOfDiff, Writes, RunTo, Reads, MayRead, MayWrite, MustWrite, IsWayRow;
    var steps := StepsOfDiff(cs);
    var i := Owner(cs, p);
    OwnerStep(cs, p);
    StepReads(cs[i], steps[p], x);
    ReadableCell(cs[i], x);
    var q :| 0 <= q < |steps| && WrittenAt(steps, q, start, x);
    if q >= p {
      OwnerStep(cs, q);
      OwnerMonotone(cs, p, q);
      StepWrites(cs[Owner(cs, q)], steps[q], RunTo(steps, q, start), x);
      assert WrittenBefore(cs, i, x);
      var h :| 0 <= h < i && MustWrite(cs[h], x);
      EarlyWrite(cs, start, p, h, x);
    }
  }

  lemma EarlyWrite(cs: seq<Change>, start: World, p: nat, h: nat, x: Cell)
    requires p < |StepsOfDiff(cs)| && h < Owner(cs, p) && MustWrite(cs[h], x)
    ensures Touched(StepsOfDiff(cs), p, start, x)
  {
    hide StepsOf, StepsOfDiff, Writes, RunTo, MustWrite;
    var b := MustStep(cs[h], x);
    var t := StepOfChange(cs, h, b);
    if t >= p { OwnerMonotone(cs, p, t); }
    assert WrittenAt(StepsOfDiff(cs), t, start, x);
  }

  /** Early start, decided from the ids. */
  lemma EarlyStartByIds(ds: seq<seq<Change>>, k: nat, w: World)
    requires k <= |ds| && IdsSettled(Flat(ds))
    ensures ApplyAll(ds, ApplyAll(ds[..k], w)) == ApplyAll(ds, w)
  {
    hide IdsSettled, AllSteps, ApplyAll, Flat, Settled, StepsOfDiff;
    FlatSteps(ds);
    IdsSettle(Flat(ds), w);
    EarlyStartExact(ds, k, w);
  }

  /** Crash-exactness, decided from the ids of each diff. */
  lemma CrashExactByIds(diffs: int -> seq<Change>, ms: seq<Machine>, es: seq<Event>, k: nat)
    requires IsRun(diffs, ms, es) && k < |es| && es[k].Record? && AllFit(diffs, ms, es, k)
    requires forall n :: IdsSettled(diffs(n))
    ensures ms[k + 1].world == Canonical(diffs, ms[0].recorded, ms[0].world, ms[k].recorded + 1)
  {
    hide Settled, IdsSettled, Canonical, StepsOfDiff;
    var first, w := ms[0].recorded, ms[0].world;
    forall n | n > first ensures Settled(StepsOfDiff(diffs(n)), Canonical(diffs, first, w, n - 1)) {
      IdsSettle(diffs(n), Canonical(diffs, first, w, n - 1));
    }
    CrashExact(diffs, ms, es, k);
  }

  /** Diffs listed by type pass the check. */
  lemma OrderedIdsSettled(cs: seq<Change>)
    requires Ordered(cs)
    ensures IdsSettled(cs)
  {
    hide MayRead, MayWrite, ChangeLevel;
    forall i, j, x | 0 <= i < j < |cs| ensures !(MayRead(cs[i], x) && MayWrite(cs[j], x)) {
      LevelsApart(cs[i], cs[j], x);
    }
  }

  lemma LevelsApart(c: Change, d: Change, x: Cell)
    requires ChangeLevel(c) <= ChangeLevel(d)
    ensures !(MayRead(c, x) && MayWrite(d, x))
  {}
}
