/**
 Whole runs of the node store, crashes inside a grow included, against a plain map; and when
 re-running a diff's node changes after crashes is exact.
 */
module NodeStoreRuns {
  import opened Core
  import opened NodeStore

  /** `Torn`: a crash between the two truncations of a grow for `id`, and a reopen. */
  datatype Op = Upd(id: int, at: Coord) | Rem(id: int) | Open(maxId: nat) | Torn(grown: nat, maxId: nat)

  /** Ids whose offset arithmetic cannot wrap, and id ranges the importer is started with. */
  predicate Plain(op: Op) {
    match op
    case Upd(id, _) => id < SLOT_LIMIT - 1
    case Rem(id) => id < SLOT_LIMIT - 1
    case Open(maxId) => (maxId + 1) * REC_SIZE < SIZE_LIMIT
    case Torn(_, maxId) => (maxId + 1) * REC_SIZE < SIZE_LIMIT
  }

  lemma PlainAddressable(id: int)
    requires id < SLOT_LIMIT - 1
    ensures Addressable(id)
  {}

  ghost function Do(s: Store, op: Op): Store
    requires Valid(s) && Plain(op)
  {
    match op
    case Upd(id, at) => PlainAddressable(id); Update(s, id, at)
    case Rem(id) => PlainAddressable(id); Remove(s, id)
    case Open(maxId) => Reopen(s, maxId)
    case Torn(id, maxId) => Reopen(HalfGrown(s, id), maxId)
  }

  // ---------------------------------------------------------------- the simple form

  /** A data size, a bitmap size and a map; nothing else is observable. */
  datatype Plan = Plan(size: nat, bytes: nat, coords: map<int, Coord>)

  function FreshPlan(maxId: nat): Plan { Plan((maxId + 1) * REC_SIZE, BytesFor(maxId + 1), map[]) }

  /** The sizes after a grow for `id`. */
  function GrowPlan(p: Plan, id: nat): Plan {
    var size := GrownSize(p.size, id);
    if size == p.size then p else p.(size := size, bytes := BytesFor(size / REC_SIZE))
  }

  function OpenPlan(p: Plan, maxId: nat): Plan {
    p.(size := Max((maxId + 1) * REC_SIZE, p.size), bytes := Max(BytesFor(maxId + 1), p.bytes))
  }

  /** Some record and some bit are there for the id. */
  predicate HasRoom(p: Plan, id: int) { 0 <= id < p.size / REC_SIZE && id / 8 < p.bytes }

  function PlanDo(p: Plan, op: Op): Plan {
    match op
    case Upd(id, at) =>
      if id < 0 then p
      else
        var g := GrowPlan(p, id);
        if HasRoom(g, id) then g.(coords := g.coords[id := at]) else g
    case Rem(id) => p.(coords := p.coords - {id})
    case Open(maxId) => OpenPlan(p, maxId)
    case Torn(id, maxId) => OpenPlan(p.(size := GrownSize(p.size, id)), maxId)
  }

  function PlanRun(p: Plan, ops: seq<Op>, i: nat): Plan
    requires i <= |ops|
  {
    if i == 0 then p else PlanDo(PlanRun(p, ops, i - 1), ops[i - 1])
  }

  ghost predicate Shows(s: Store, p: Plan) {
    && Valid(s)
    && s.size == p.size && |s.bitmap| == p.bytes
    && forall j :: Select(s, j) == if j in p.coords then Some(p.coords[j]) else None
  }

  lemma NoWrapBelow(s: Store, id: int)
    requires id < SLOT_LIMIT
    ensures !Wraps(s, id)
  {}

  lemma UpdateSizes(s: Store, p: Plan, id: nat, at: Coord)
    requires Valid(s) && Addressable(id) && s.size == p.size && |s.bitmap| == p.bytes
    ensures Update(s, id, at).size == GrowPlan(p, id).size && |Update(s, id, at).bitmap| == GrowPlan(p, id).bytes
    ensures Lands(s, id) <==> HasRoom(GrowPlan(p, id), id)
  {
    hide BitSet, BitGet, GrownSize, BitsCovered;
    BitSetSize(Grow(s, id).bitmap, id);
  }

  lemma BitSetSize(bitmap: seq<bv8>, id: nat)
    ensures |BitSet(bitmap, id)| == |bitmap|
  {
    SameLength(bitmap, id);
  }

  lemma UpdateShows(s: Store, p: Plan, id: int, at: Coord)
    requires Shows(s, p) && id < SLOT_LIMIT - 1
    ensures Addressable(id) && Shows(Update(s, id, at), PlanDo(p, Upd(id, at)))
  {
    hide Valid, Select, Update, GrowPlan, HasRoom, Wraps, Lands;
    PlainAddressable(id);
    NoWrapBelow(s, id);
    UpdateEffect(s, id, at, 0);
    if id >= 0 { UpdateSizes(s, p, id, at); GrowPlanCoords(p, id); } else { NegativeUpdate(s, id, at); }
    forall j ensures Select(Update(s, id, at), j) == if j == id && Lands(s, id) then Some(at) else Select(s, j) {
      UpdateEffect(s, id, at, j);
    }
  }

  lemma GrowPlanCoords(p: Plan, id: nat)
    ensures GrowPlan(p, id).coords == p.coords
  {}

  lemma NegativeUpdate(s: Store, id: int, at: Coord)
    requires Valid(s) && id < 0
    ensures Update(s, id, at) == s && !Lands(s, id)
  {}

  lemma RemoveShows(s: Store, p: Plan, id: int)
    requires Shows(s, p) && id < SLOT_LIMIT - 1
    ensures Addressable(id) && Shows(Remove(s, id), PlanDo(p, Rem(id)))
  {
    hide Valid, Select, Remove, Wraps;
    PlainAddressable(id);
    NoWrapBelow(s, id);
    RemoveSizes(s, id);
    RemoveEffect(s, id, 0);
    forall j ensures Select(Remove(s, id), j) == if j == id then None else Select(s, j) { RemoveEffect(s, id, j); }
  }

  lemma RemoveSizes(s: Store, id: int)
    requires Valid(s) && Addressable(id)
    ensures Remove(s, id).size == s.size && |Remove(s, id).bitmap| == |s.bitmap|
  {}

  lemma ReopenShows(s: Store, p: Plan, maxId: nat)
    requires Shows(s, p) && (maxId + 1) * REC_SIZE < SIZE_LIMIT
    ensures Shows(Reopen(s, maxId), OpenPlan(p, maxId))
  {
    hide Valid, Select;
    ReopenKeeps(s, maxId);
    ReopenSizes(s, maxId);
  }

  lemma ReopenSizes(s: Store, maxId: nat)
    ensures Reopen(s, maxId).size == Max((maxId + 1) * REC_SIZE, s.size)
    ensures |Reopen(s, maxId).bitmap| == Max(BytesFor(maxId + 1), |s.bitmap|)
  {}

  lemma HalfShows(s: Store, p: Plan, id: nat)
    requires Shows(s, p)
    ensures Shows(HalfGrown(s, id), p.(size := GrownSize(p.size, id)))
  {
    hide Valid, Select, GrownSize;
    HalfValid(s, id);
  }

  lemma HalfValid(s: Store, id: nat)
    requires Valid(s)
    ensures var h := HalfGrown(s, id);
      && Valid(h) && h.size == GrownSize(s.size, id) && h.bitmap == s.bitmap && forall j :: Select(h, j) == Select(s, j)
  {
    hide BitsCovered, Select, GrownSize;
    GrownSizeFacts(s, id);
    var n := GrownSize(s.size, id);
    DivMono(s.size, n);
    ResizeKeeps(s, n, |s.bitmap|);
    assert Resize(s.bitmap, |s.bitmap|, 0) == s.bitmap;
    assert ResizeBitmap(HalfGrown(s, id), |s.bitmap|) == HalfGrown(s, id);
  }

  lemma OpRefines(s: Store, p: Plan, op: Op)
    requires Shows(s, p) && Plain(op)
    ensures Shows(Do(s, op), PlanDo(p, op))
  {
    hide Shows, Update, Remove, Reopen, OpenPlan, GrowPlan, HasRoom, GrownSize;
    assert Valid(s) by { ShowsValid(s, p); }
    match op
    case Upd(id, at) => UpdateShows(s, p, id, at);
    case Rem(id) => RemoveShows(s, p, id);
    case Open(maxId) => ReopenShows(s, p, maxId);
    case Torn(id, maxId) =>
      HalfShows(s, p, id);
      ReopenShows(HalfGrown(s, id), p.(size := GrownSize(p.size, id)), maxId);
  }

  lemma ShowsValid(s: Store, p: Plan)
    requires Shows(s, p)
    ensures Valid(s)
  {
    hide Valid;
  }

  ghost predicate IsRun(s: Store, ops: seq<Op>, states: seq<Store>) {
    && |states| == |ops| + 1 && states[0] == s
    && forall i :: 0 <= i < |ops| ==> Valid(states[i]) && Plain(ops[i]) && states[i + 1] == Do(states[i], ops[i])
  }

  /**
   Node store refinement: every run of updates, removals, growth, reopening (with any, even
   smaller, id range) and crashes inside a grow, from freshly created files, shows exactly the
   plain form.
   */
  lemma {:induction false} RunRefines(maxId: nat, ops: seq<Op>, states: seq<Store>, i: nat)
    requires (maxId + 1) * REC_SIZE < SIZE_LIMIT && IsRun(Create(maxId), ops, states) && i <= |ops|
    ensures Shows(states[i], PlanRun(FreshPlan(maxId), ops, i))
  {
    hide Shows, Do, PlanDo;
    if i == 0 {
      CreateShows(maxId);
    } else {
      RunRefines(maxId, ops, states, i - 1);
      OpRefines(states[i - 1], PlanRun(FreshPlan(maxId), ops, i - 1), ops[i - 1]);
    }
  }

  lemma CreateShows(maxId: nat)
    requires (maxId + 1) * REC_SIZE < SIZE_LIMIT
    ensures Shows(Create(maxId), FreshPlan(maxId))
  {
    hide Select;
    CreateValid(maxId, 0);
    forall j ensures Select(Create(maxId), j) == None { CreateValid(maxId, j); }
  }

  // ---------------------------------------------------------------- what is dropped

  predicate CoveredPlan(p: Plan) { p.size / REC_SIZE <= 8 * p.bytes }

  /** Populated ids have room, and the bitmap is no longer than the data needs. */
  ghost predicate Sound(p: Plan) {
    p.bytes <= BytesFor(p.size / REC_SIZE) && forall id :: id in p.coords ==> HasRoom(p, id)
  }

  lemma GrowPlanFacts(p: Plan, id: nat)
    requires p.bytes <= BytesFor(p.size / REC_SIZE)
    ensures var g := GrowPlan(p, id);
      && p.size <= g.size && p.bytes <= g.bytes <= BytesFor(g.size / REC_SIZE)
      && p.size / REC_SIZE <= g.size / REC_SIZE
      && (CoveredPlan(p) ==> CoveredPlan(g))
      && (g.size != p.size ==> CoveredPlan(g))
      && (id < g.size / REC_SIZE <==> id <= MAX_SANE_ID || id < p.size / REC_SIZE)
      && (id > MAX_SANE_ID ==> g == p)
  {
    hide GrownSize;
    var n := GrownSize(p.size, id);
    SizeFacts(p.size, id);
    DivMono(p.size, n);
    if id <= MAX_SANE_ID {
      DivMono((id + 1) * REC_SIZE, n);
      assert (id + 1) * REC_SIZE / REC_SIZE == id + 1;
    }
  }

  lemma SizeFacts(size: nat, id: nat)
    ensures size <= GrownSize(size, id)
    ensures id <= MAX_SANE_ID ==> (id + 1) * REC_SIZE <= GrownSize(size, id)
    ensures id > MAX_SANE_ID || (id + 1) * REC_SIZE <= size ==> GrownSize(size, id) == size
  {}

  lemma DoSound(p: Plan, op: Op)
    requires Sound(p)
    ensures Sound(PlanDo(p, op))
    ensures p.size <= PlanDo(p, op).size && p.bytes <= PlanDo(p, op).bytes
    ensures CoveredPlan(p) && !op.Torn? ==> CoveredPlan(PlanDo(p, op))
  {
    hide GrownSize, GrowPlan;
    match op
    case Upd(id, at) => if id >= 0 { GrowPlanFacts(p, id); GrowPlanCoords(p, id); }
    case Rem(id) =>
    case Open(maxId) => OpenFacts(p, maxId);
    case Torn(id, maxId) =>
      SizeFacts(p.size, id);
      DivMono(p.size, GrownSize(p.size, id));
      OpenFacts(p.(size := GrownSize(p.size, id)), maxId);
  }

  lemma OpenFacts(p: Plan, maxId: nat)
    requires p.bytes <= BytesFor(p.size / REC_SIZE)
    ensures var g := OpenPlan(p, maxId);
      && g.coords == p.coords
      && p.size <= g.size && p.bytes <= g.bytes <= BytesFor(g.size / REC_SIZE) && p.size / REC_SIZE <= g.size / REC_SIZE
      && (CoveredPlan(p) ==> CoveredPlan(g))
  {
    assert (maxId + 1) * REC_SIZE / REC_SIZE == maxId + 1;
    var size := Max((maxId + 1) * REC_SIZE, p.size);
    DivMono(p.size, size);
    DivMono((maxId + 1) * REC_SIZE, size);
  }

  /**
   Without a crash inside a grow the bitmap always covers the data, and only negative ids and
   over-ceiling ids past capacity are dropped.
   */
  lemma {:induction false} OnlySaneDrops(maxId: nat, ops: seq<Op>, i: nat)
    requires i < |ops| && forall k :: 0 <= k < |ops| ==> !ops[k].Torn?
    ensures var p := PlanRun(FreshPlan(maxId), ops, i);
      && Sound(p) && CoveredPlan(p)
      && (ops[i].Upd? ==>
        (PlanDo(p, ops[i]).coords == if ops[i].id < 0 || (ops[i].id > MAX_SANE_ID && ops[i].id >= p.size / REC_SIZE)
           then p.coords else p.coords[ops[i].id := ops[i].at]))
  {
    hide GrowPlan, GrownSize;
    if i == 0 {
      assert (maxId + 1) * REC_SIZE / REC_SIZE == maxId + 1;
    } else {
      OnlySaneDrops(maxId, ops, i - 1);
      DoSound(PlanRun(FreshPlan(maxId), ops, i - 1), ops[i - 1]);
    }
    var p := PlanRun(FreshPlan(maxId), ops, i);
    if ops[i].Upd? && ops[i].id >= 0 {
      GrowPlanFacts(p, ops[i].id);
      GrowPlanCoords(p, ops[i].id);
    }
  }

  // ---------------------------------------------------------------- re-running node changes

  /** Only updates and removals happen inside a diff. */
  ghost predicate NodeOps(ops: seq<Op>) {
    forall i :: 0 <= i < |ops| ==> ops[i].Upd? || ops[i].Rem?
  }

  lemma {:induction false} RunSound(p: Plan, ops: seq<Op>, i: nat, j: nat)
    requires Sound(p) && NodeOps(ops) && i <= j <= |ops|
    ensures Sound(PlanRun(p, ops, j))
    ensures PlanRun(p, ops, i).size <= PlanRun(p, ops, j).size && PlanRun(p, ops, i).bytes <= PlanRun(p, ops, j).bytes
    ensures CoveredPlan(p) ==> CoveredPlan(PlanRun(p, ops, j))
    decreases j
  {
    hide Sound, PlanDo, CoveredPlan;
    if j > 0 {
      RunSound(p, ops, if i < j then i else j - 1, j - 1);
      DoSound(PlanRun(p, ops, j - 1), ops[j - 1]);
    }
  }

  lemma UnrollRun(p: Plan, ops: seq<Op>, j: nat)
    requires j < |ops|
    ensures PlanRun(p, ops, j + 1) == PlanDo(PlanRun(p, ops, j), ops[j])
  {
    hide PlanDo;
  }

  /** Op `j` on its id finds room in the run from `p`. */
  predicate LandsAt(p: Plan, ops: seq<Op>, j: nat)
    requires j < |ops|
  {
    ops[j].Upd? && ops[j].id >= 0 && HasRoom(GrowPlan(PlanRun(p, ops, j), ops[j].id), ops[j].id)
  }

  /** No later op has the id. */
  predicate LastOn(ops: seq<Op>, id: int, j: nat) {
    j < |ops| && (ops[j].Upd? || ops[j].Rem?) && ops[j].id == id
    && forall k :: j < k < |ops| ==> (ops[k].Upd? || ops[k].Rem?) && ops[k].id != id
  }

  predicate LastOp(ops: seq<Op>, j: nat) {
    j < |ops| && (ops[j].Upd? || ops[j].Rem?) && LastOn(ops, ops[j].id, j)
  }

  ghost function Value(p: Plan, id: int): Option<Coord> {
    if id in p.coords then Some(p.coords[id]) else None
  }

  lemma DoOther(p: Plan, op: Op, id: int)
    requires (op.Upd? || op.Rem?) && op.id != id
    ensures Value(PlanDo(p, op), id) == Value(p, id)
  {
    hide GrowPlan, HasRoom;
    if op.Upd? && op.id >= 0 { GrowPlanCoords(p, op.id); }
  }

  lemma {:induction false} UntouchedSince(p: Plan, ops: seq<Op>, i: nat, n: nat, id: int)
    requires i <= n <= |ops| && forall k :: i <= k < n ==> (ops[k].Upd? || ops[k].Rem?) && ops[k].id != id
    ensures Value(PlanRun(p, ops, n), id) == Value(PlanRun(p, ops, i), id)
    decreases n
  {
    hide PlanDo, Value;
    if i < n {
      UntouchedSince(p, ops, i, n - 1, id);
      DoOther(PlanRun(p, ops, n - 1), ops[n - 1], id);
    }
  }

  /** The value of an id after a run is decided by the last op on it. */
  lemma LastDecides(p: Plan, ops: seq<Op>, id: int, j: nat)
    requires NodeOps(ops) && Sound(p) && LastOn(ops, id, j)
    ensures Value(PlanRun(p, ops, |ops|), id) == if LandsAt(p, ops, j) then Some(ops[j].at) else None
  {
    hide GrowPlan, PlanRun;
    var q := PlanRun(p, ops, j);
    UntouchedSince(p, ops, j + 1, |ops|, id);
    UnrollRun(p, ops, j);
    RunSound(p, ops, j, j);
    if ops[j].Upd? && id >= 0 {
      GrowPlanFacts(q, id);
      GrowPlanCoords(q, id);
    }
  }

  /** Ids the diff does not mention are as before. */
  ghost predicate SameOutside(p: Plan, q: Plan, ops: seq<Op>) {
    forall id :: Unmentioned(ops, id) ==> Value(q, id) == Value(p, id)
  }

  ghost predicate Unmentioned(ops: seq<Op>, id: int) {
    forall k :: 0 <= k < |ops| ==> (ops[k].Upd? || ops[k].Rem?) && ops[k].id != id
  }

  lemma {:induction false} FindLast(ops: seq<Op>, n: nat, id: int, k: nat) returns (j: nat)
    requires NodeOps(ops) && k < n <= |ops| && ops[k].id == id && forall m :: n <= m < |ops| ==> ops[m].id != id
    ensures LastOn(ops, id, j)
  {
    if ops[n - 1].id == id { j := n - 1; } else { j := FindLast(ops, n - 1, id, k); }
  }

  /** Both runs store the same: every last update finds room in both or in neither. */
  ghost predicate SameLandings(p: Plan, q: Plan, ops: seq<Op>) {
    forall j :: 0 <= j < |ops| && LastOp(ops, j) ==> (LandsAt(p, ops, j) <==> LandsAt(q, ops, j))
  }

  /**
   Exactly when re-running a diff from a state that interrupted attempts left gives the
   crash-free coordinates: the same last updates find room.
   */
  lemma RerunIff(p: Plan, q: Plan, ops: seq<Op>)
    requires NodeOps(ops) && Sound(p) && Sound(q) && SameOutside(p, q, ops)
    ensures (forall id :: Value(PlanRun(q, ops, |ops|), id) == Value(PlanRun(p, ops, |ops|), id))
       <==> SameLandings(p, q, ops)
  {
    hide PlanRun, LandsAt, Value, Sound;
    var n := |ops|;
    if SameLandings(p, q, ops) {
      forall id ensures Value(PlanRun(q, ops, n), id) == Value(PlanRun(p, ops, n), id) { RerunValue(p, q, ops, id); }
    } else {
      var j :| 0 <= j < n && LastOp(ops, j) && !(LandsAt(p, ops, j) <==> LandsAt(q, ops, j));
      LastDecides(p, ops, ops[j].id, j);
      LastDecides(q, ops, ops[j].id, j);
    }
  }

  lemma RerunValue(p: Plan, q: Plan, ops: seq<Op>, id: int)
    requires NodeOps(ops) && Sound(p) && Sound(q) && SameOutside(p, q, ops) && SameLandings(p, q, ops)
    ensures Value(PlanRun(q, ops, |ops|), id) == Value(PlanRun(p, ops, |ops|), id)
  {
    hide LandsAt, Value, Sound, PlanDo, LastOn;
    if Unmentioned(ops, id) {
      UntouchedSince(q, ops, 0, |ops|, id);
      UntouchedSince(p, ops, 0, |ops|, id);
    } else {
      var k :| 0 <= k < |ops| && ops[k].id == id;
      var j := FindLast(ops, |ops|, id, k);
      assert j < |ops| && ops[j].id == id by { LastIs(ops, id, j); }
      LastDecides(p, ops, id, j);
      LastDecides(q, ops, id, j);
    }
  }

  lemma LastIs(ops: seq<Op>, id: int, j: nat)
    requires LastOn(ops, id, j)
    ensures j < |ops| && ops[j].id == id
  {}

  // ---------------------------------------------------------------- attempts cut short

  /** An attempt that stops after `k` ops, perhaps half-way through growing for the next one. */
  datatype Stop = Stop(k: nat, half: bool, maxId: nat)

  predicate StopIn(ops: seq<Op>, s: Stop) {
    s.k <= |ops| && (s.half ==> s.k < |ops| && ops[s.k].Upd? && ops[s.k].id >= 0)
  }

  function AfterStop(p: Plan, ops: seq<Op>, s: Stop): Plan
    requires StopIn(ops, s)
  {
    PlanDo(PlanRun(p, ops, s.k), if s.half then Torn(ops[s.k].id, s.maxId) else Open(s.maxId))
  }

  /** The state after any number of attempts, each interrupted and reopened. */
  function AfterStops(p: Plan, ops: seq<Op>, stops: seq<Stop>): Plan
    requires forall s :: s in stops ==> StopIn(ops, s)
  {
    if stops == [] then p
    else AfterStop(AfterStops(p, ops, stops[..|stops| - 1]), ops, stops[|stops| - 1])
  }

  lemma {:induction false} StopsKeep(p: Plan, ops: seq<Op>, stops: seq<Stop>)
    requires NodeOps(ops) && Sound(p) && forall s :: s in stops ==> StopIn(ops, s)
    ensures Sound(AfterStops(p, ops, stops)) && SameOutside(p, AfterStops(p, ops, stops), ops)
    ensures CoveredPlan(p) && (forall s :: s in stops ==> !s.half) ==> CoveredPlan(AfterStops(p, ops, stops))
  {
    hide PlanRun, PlanDo, Sound, CoveredPlan, Value, StopIn;
    if stops != [] {
      var s := stops[|stops| - 1];
      var q := AfterStops(p, ops, stops[..|stops| - 1]);
      StopsKeep(p, ops, stops[..|stops| - 1]);
      assert s in stops;
      StopKeeps(q, ops, s);
    }
  }

  lemma StopKeeps(q: Plan, ops: seq<Op>, s: Stop)
    requires NodeOps(ops) && Sound(q) && StopIn(ops, s)
    ensures Sound(AfterStop(q, ops, s)) && SameOutside(q, AfterStop(q, ops, s), ops)
    ensures CoveredPlan(q) && !s.half ==> CoveredPlan(AfterStop(q, ops, s))
  {
    hide Sound, CoveredPlan, PlanDo, Value;
    var op := if s.half then Torn(ops[s.k].id, s.maxId) else Open(s.maxId);
    RunSound(q, ops, s.k, s.k);
    DoSound(PlanRun(q, ops, s.k), op);
    OpenCoords(PlanRun(q, ops, s.k), op);
    forall id | Unmentioned(ops, id) ensures Value(AfterStop(q, ops, s), id) == Value(q, id) {
      UntouchedSince(q, ops, 0, s.k, id);
      assert Value(PlanDo(PlanRun(q, ops, s.k), op), id) == Value(PlanRun(q, ops, s.k), id) by {
        SameCoords(PlanDo(PlanRun(q, ops, s.k), op), PlanRun(q, ops, s.k), id);
      }
    }
  }

  lemma SameCoords(p: Plan, q: Plan, id: int)
    requires p.coords == q.coords
    ensures Value(p, id) == Value(q, id)
  {}

  lemma OpenCoords(p: Plan, op: Op)
    requires op.Open? || op.Torn?
    ensures PlanDo(p, op).coords == p.coords
  {}

  /** A grow happens for this op at this size. */
  predicate NeedsGrow(size: nat, op: Op) {
    op.Upd? && 0 <= op.id <= MAX_SANE_ID && (op.id + 1) * REC_SIZE > size
  }

  /**
   Finding room, from the sizes at the start alone: the bitmap already has the bit, or some
   update up to this one grows the files.
   */
  lemma {:induction false} LandsAtIff(q: Plan, ops: seq<Op>, j: nat)
    requires NodeOps(ops) && Sound(q) && j < |ops| && ops[j].Upd? && 0 <= ops[j].id <= MAX_SANE_ID
    ensures LandsAt(q, ops, j) <==> ops[j].id / 8 < q.bytes || exists i :: 0 <= i <= j && NeedsGrow(q.size, ops[i])
  {
    hide PlanRun, Sound;
    var id := ops[j].id;
    SizesSoFar(q, ops, j);
    RunSound(q, ops, j, j);
    var r := PlanRun(q, ops, j);
    assert r.bytes <= BytesFor(r.size / REC_SIZE) by { SoundBytes(r); }
    GrowPlanFacts(r, id);
    GrowsIff(r, id);
  }

  lemma SoundBytes(p: Plan)
    requires Sound(p)
    ensures p.bytes <= BytesFor(p.size / REC_SIZE)
  {}

  lemma GrowsIff(p: Plan, id: nat)
    ensures NeedsGrow(p.size, Upd(id, ZERO)) <==> GrowPlan(p, id).size != p.size
  {}

  /** Until something has to grow the sizes stay; afterwards the bitmap covers the data. */
  lemma {:induction false} SizesSoFar(q: Plan, ops: seq<Op>, j: nat)
    requires NodeOps(ops) && Sound(q) && j <= |ops|
    ensures var r := PlanRun(q, ops, j);
      if exists i :: 0 <= i < j && NeedsGrow(q.size, ops[i]) then CoveredPlan(r) else r.size == q.size && r.bytes == q.bytes
  {
    hide Sound, PlanDo, CoveredPlan, NeedsGrow;
    if j > 0 {
      SizesSoFar(q, ops, j - 1);
      RunSound(q, ops, j - 1, j - 1);
      var r := PlanRun(q, ops, j - 1);
      DoSound(r, ops[j - 1]);
      SizesOfDo(r, ops[j - 1]);
      if exists i :: 0 <= i < j - 1 && NeedsGrow(q.size, ops[i]) {
        var i :| 0 <= i < j - 1 && NeedsGrow(q.size, ops[i]);
        assert 0 <= i < j;
      }
    }
  }

  lemma SizesOfDo(r: Plan, op: Op)
    requires Sound(r) && (op.Upd? || op.Rem?)
    ensures if NeedsGrow(r.size, op) then CoveredPlan(PlanDo(r, op))
      else PlanDo(r, op).size == r.size && PlanDo(r, op).bytes == r.bytes
  {
    hide GrowPlan, GrownSize;
    if op.Upd? && op.id >= 0 {
      GrowPlanFacts(r, op.id);
      GrowsIff(r, op.id);
      SameSizes(r, op.id);
    }
  }

  lemma SameSizes(p: Plan, id: nat)
    ensures GrowPlan(p, id).size == p.size ==> GrowPlan(p, id) == p
  {}

  /**
   Crashes inside grows, for ids up to the ceiling: re-running the diff after any list of
   interrupted attempts is exact if and only if every last update finds its bit in the bitmap
   as the attempts left it, or some update of the diff up to it still has to grow the files.
   */
  lemma CrashRerunIff(p: Plan, ops: seq<Op>, stops: seq<Stop>)
    requires NodeOps(ops) && Sound(p) && CoveredPlan(p) && forall s :: s in stops ==> StopIn(ops, s)
    requires forall j :: 0 <= j < |ops| && ops[j].Upd? ==> ops[j].id <= MAX_SANE_ID
    ensures var q := AfterStops(p, ops, stops);
      (forall id :: Value(PlanRun(q, ops, |ops|), id) == Value(PlanRun(p, ops, |ops|), id)) <==>
      (forall j :: 0 <= j < |ops| && LastOp(ops, j) && ops[j].Upd? && ops[j].id >= 0 ==> BitReady(q, ops, j))
  {
    hide PlanRun, Sound, LandsAt, Value, NeedsGrow, LastOn, CoveredPlan;
    var q := AfterStops(p, ops, stops);
    StopsKeep(p, ops, stops);
    RerunIff(p, q, ops);
    forall j | 0 <= j < |ops|
      ensures ops[j].Upd? && ops[j].id >= 0 ==> LandsAt(p, ops, j) && (LandsAt(q, ops, j) <==> BitReady(q, ops, j))
      ensures !(ops[j].Upd? && ops[j].id >= 0) ==> !LandsAt(p, ops, j) && !LandsAt(q, ops, j)
    {
      if ops[j].Upd? && ops[j].id >= 0 {
        LandsAtIff(q, ops, j);
        CoveredLandsAt(p, ops, j);
      } else {
        NeverLands(p, ops, j);
        NeverLands(q, ops, j);
      }
    }
  }

  ghost predicate BitReady(q: Plan, ops: seq<Op>, j: nat)
    requires j < |ops| && ops[j].Upd?
  {
    ops[j].id / 8 < q.bytes || exists i :: 0 <= i <= j && NeedsGrow(q.size, ops[i])
  }

  lemma NeverLands(p: Plan, ops: seq<Op>, j: nat)
    requires j < |ops| && !(ops[j].Upd? && ops[j].id >= 0)
    ensures !LandsAt(p, ops, j)
  {}

  lemma CoveredLandsAt(p: Plan, ops: seq<Op>, j: nat)
    requires NodeOps(ops) && Sound(p) && CoveredPlan(p) && j < |ops| && ops[j].Upd? && 0 <= ops[j].id <= MAX_SANE_ID
    ensures LandsAt(p, ops, j)
  {
    hide PlanRun, Sound;
    RunSound(p, ops, j, j);
    var r := PlanRun(p, ops, j);
    assert r.bytes <= BytesFor(r.size / REC_SIZE) by { SoundBytes(r); }
    GrowPlanFacts(r, ops[j].id);
  }

  // ---------------------------------------------------------------- attempts cut short between ops

  predicate PointsIn(ops: seq<Op>, ks: seq<nat>) { forall i :: 0 <= i < |ks| ==> ks[i] <= |ops| }

  /** Attempts that stop between ops, in a process that keeps its files open. */
  function Attempts(p: Plan, ops: seq<Op>, ks: seq<nat>): Plan
    requires PointsIn(ops, ks)
  {
    if ks == [] then p else PlanRun(Attempts(p, ops, ks[..|ks| - 1]), ops, ks[|ks| - 1])
  }

  /** An update dropped for its id, never superseded, for an id the store later grows past. */
  ghost predicate LostUpdate(p: Plan, ops: seq<Op>, j: nat)
    requires j < |ops|
  {
    && ops[j].Upd? && LastOp(ops, j)
    && ops[j].id > MAX_SANE_ID
    && PlanRun(p, ops, j).size / REC_SIZE <= ops[j].id < PlanRun(p, ops, |ops|).size / REC_SIZE
  }

  predicate SameSize(p: Plan, q: Plan) { p.size == q.size && p.bytes == q.bytes }

  lemma DoSizes(p: Plan, q: Plan, op: Op)
    requires SameSize(p, q)
    ensures SameSize(PlanDo(p, op), PlanDo(q, op))
  {
    hide GrownSize, HasRoom;
  }

  lemma {:induction false} RunSizes(p: Plan, q: Plan, ops: seq<Op>, j: nat)
    requires SameSize(p, q) && j <= |ops|
    ensures SameSize(PlanRun(p, ops, j), PlanRun(q, ops, j))
  {
    hide PlanDo, SameSize;
    if j > 0 {
      RunSizes(p, q, ops, j - 1);
      DoSizes(PlanRun(p, ops, j - 1), PlanRun(q, ops, j - 1), ops[j - 1]);
    }
  }

  /** Ops already covered by a size leave it alone. */
  lemma {:induction false} RunCovers(p: Plan, ops: seq<Op>, j: nat, k: nat)
    requires NodeOps(ops) && Sound(p) && j < k <= |ops|
    ensures !NeedsGrow(PlanRun(p, ops, k).size, ops[j])
  {
    hide PlanRun, Sound, GrownSize;
    RunSound(p, ops, j + 1, k);
    RunSound(p, ops, j, j);
    UnrollRun(p, ops, j);
    if ops[j].Upd? && ops[j].id >= 0 { SizeFacts(PlanRun(p, ops, j).size, ops[j].id); GrowPlanSize(PlanRun(p, ops, j), ops[j].id); }
  }

  lemma GrowPlanSize(p: Plan, id: nat)
    ensures GrowPlan(p, id).size == GrownSize(p.size, id)
  {}

  /** A replay's sizes: those of the interrupted run, until they are passed. */
  lemma {:induction false} ReplaySizes(p: Plan, ops: seq<Op>, at: nat, j: nat)
    requires NodeOps(ops) && Sound(p) && at <= |ops| && j <= |ops|
    ensures SameSize(PlanRun(PlanRun(p, ops, at), ops, j), PlanRun(p, ops, if j < at then at else j))
  {
    hide Sound, PlanDo, NeedsGrow;
    if j > 0 {
      ReplaySizes(p, ops, at, j - 1);
      var r := PlanRun(PlanRun(p, ops, at), ops, j - 1);
      if j <= at {
        RunCovers(p, ops, j - 1, at);
        RunSound(p, ops, at, at);
        RunSound(PlanRun(p, ops, at), ops, j - 1, j - 1);
        SizesOfDo(r, ops[j - 1]);
      } else {
        DoSizes(r, PlanRun(p, ops, j - 1), ops[j - 1]);
      }
    }
  }

  /** Any attempts leave the sizes of the one that got furthest. */
  lemma {:induction false} AttemptSizes(p: Plan, ops: seq<Op>, ks: seq<nat>) returns (at: nat)
    requires NodeOps(ops) && Sound(p) && PointsIn(ops, ks)
    ensures at <= |ops| && SameSize(Attempts(p, ops, ks), PlanRun(p, ops, at))
    ensures Sound(Attempts(p, ops, ks)) && SameOutside(p, Attempts(p, ops, ks), ops)
  {
    hide PlanRun, Sound, SameSize, Value;
    if ks == [] {
      at := 0;
      NoAttempt(p, ops);
    } else {
      var init, k := ks[..|ks| - 1], ks[|ks| - 1];
      var m := AttemptSizes(p, ops, init);
      var q := Attempts(p, ops, init);
      at := if k < m then m else k;
      RunSizes(q, PlanRun(p, ops, m), ops, k);
      ReplaySizes(p, ops, m, k);
      SizesChain(PlanRun(q, ops, k), PlanRun(PlanRun(p, ops, m), ops, k), PlanRun(p, ops, at));
      RunSound(q, ops, k, k);
      forall id | Unmentioned(ops, id) ensures Value(PlanRun(q, ops, k), id) == Value(p, id) {
        UntouchedSince(q, ops, 0, k, id);
        StartOf(q, ops);
      }
    }
  }

  lemma StartOf(p: Plan, ops: seq<Op>)
    ensures PlanRun(p, ops, 0) == p
  {}

  lemma SizesChain(a: Plan, b: Plan, c: Plan)
    requires SameSize(a, b) && SameSize(b, c)
    ensures SameSize(a, c)
  {}

  lemma NoAttempt(p: Plan, ops: seq<Op>)
    ensures SameSize(p, PlanRun(p, ops, 0))
    ensures SameOutside(p, p, ops)
  {}

  lemma LandsBySize(p: Plan, q: Plan, ops: seq<Op>, j: nat)
    requires SameSize(p, q) && j < |ops|
    ensures LandsAt(p, ops, j) <==> LandsAt(q, ops, j)
  {
    hide PlanRun, GrownSize;
    RunSizes(p, q, ops, j);
  }

  /** Without a lost update, an op lands after any progress exactly when it lands at first. */
  lemma SameDrop(p: Plan, ops: seq<Op>, at: nat, j: nat)
    requires NodeOps(ops) && Sound(p) && CoveredPlan(p) && at <= |ops| && j < |ops| && LastOp(ops, j)
    requires !LostUpdate(p, ops, j)
    ensures LandsAt(p, ops, j) <==> LandsAt(PlanRun(p, ops, at), ops, j)
  {
    hide PlanRun, Sound, CoveredPlan;
    RunSound(p, ops, at, at);
    var q := PlanRun(p, ops, at);
    if ops[j].Upd? && ops[j].id >= 0 {
      if ops[j].id <= MAX_SANE_ID {
        CoveredLandsAt(p, ops, j);
        CoveredLandsAt(q, ops, j);
      } else {
        var k := if j < at then at else j;
        ReplaySizes(p, ops, at, j);
        OverCeiling(p, ops, j);
        OverCeiling(q, ops, j);
        RunSound(p, ops, j, k);
        RunSound(p, ops, k, |ops|);
        DivMono(PlanRun(p, ops, j).size, PlanRun(p, ops, k).size);
        DivMono(PlanRun(p, ops, k).size, PlanRun(p, ops, |ops|).size);
      }
    } else {
      NeverLands(p, ops, j);
      NeverLands(q, ops, j);
    }
  }

  lemma OverCeiling(p: Plan, ops: seq<Op>, j: nat)
    requires NodeOps(ops) && Sound(p) && CoveredPlan(p) && j < |ops| && ops[j].Upd? && ops[j].id > MAX_SANE_ID
    ensures LandsAt(p, ops, j) <==> ops[j].id < PlanRun(p, ops, j).size / REC_SIZE
  {
    hide PlanRun, Sound;
    RunSound(p, ops, j, j);
    var r := PlanRun(p, ops, j);
    assert r.bytes <= BytesFor(r.size / REC_SIZE) by { SoundBytes(r); }
    GrowPlanFacts(r, ops[j].id);
  }

  /**
   Exactly when re-applying a diff's node changes gives the crash-free coordinates after every
   list of attempts cut short between ops: no update was dropped for an id that the same
   diff's growth then made addressable.
   */
  lemma ReplayExactIff(p: Plan, ops: seq<Op>)
    requires NodeOps(ops) && Sound(p) && CoveredPlan(p)
    ensures (forall ks: seq<nat> :: AttemptsExact(p, ops, ks)) <==> (forall j :: 0 <= j < |ops| ==> !LostUpdate(p, ops, j))
  {
    hide PlanRun, Sound, LostUpdate, CoveredPlan, AttemptsExact;
    if forall j :: 0 <= j < |ops| ==> !LostUpdate(p, ops, j) {
      forall ks: seq<nat> ensures AttemptsExact(p, ops, ks) { NoLossExact(p, ops, ks); }
    } else {
      var j :| 0 <= j < |ops| && LostUpdate(p, ops, j);
      LostDiffers(p, ops, j);
    }
  }

  ghost predicate AttemptsExact(p: Plan, ops: seq<Op>, ks: seq<nat>) {
    PointsIn(ops, ks) ==>
      forall id: int :: Value(PlanRun(Attempts(p, ops, ks), ops, |ops|), id) == Value(PlanRun(p, ops, |ops|), id)
  }

  lemma NoLossExact(p: Plan, ops: seq<Op>, ks: seq<nat>)
    requires NodeOps(ops) && Sound(p) && CoveredPlan(p) && forall j :: 0 <= j < |ops| ==> !LostUpdate(p, ops, j)
    ensures AttemptsExact(p, ops, ks)
  {
    hide PlanRun, Sound, LostUpdate, CoveredPlan, LandsAt, Value, LastOn;
    if PointsIn(ops, ks) {
      var at := AttemptSizes(p, ops, ks);
      var q := Attempts(p, ops, ks);
      forall j | 0 <= j < |ops| && LastOp(ops, j) ensures LandsAt(p, ops, j) <==> LandsAt(q, ops, j) {
        SameDrop(p, ops, at, j);
        LandsBySize(q, PlanRun(p, ops, at), ops, j);
      }
      forall id: int
        ensures Value(PlanRun(Attempts(p, ops, ks), ops, |ops|), id) == Value(PlanRun(p, ops, |ops|), id)
      {
        RerunValue(p, q, ops, id);
      }
    }
  }

  lemma LostDiffers(p: Plan, ops: seq<Op>, j: nat)
    requires NodeOps(ops) && Sound(p) && CoveredPlan(p) && j < |ops| && LostUpdate(p, ops, j)
    ensures !AttemptsExact(p, ops, [|ops|])
  {
    hide PlanRun, Sound, CoveredPlan, LandsAt, Value, LastOn;
    var n, id := |ops|, ops[j].id;
    var q := PlanRun(p, ops, n);
    assert [n][..0] == [];
    assert Attempts(p, ops, [n]) == q by { assert Attempts(p, ops, []) == p; }
    RunSound(p, ops, n, n);
    ReplaySizes(p, ops, n, j);
    OverCeiling(p, ops, j);
    OverCeiling(q, ops, j);
    LastDecides(p, ops, id, j);
    LastDecides(q, ops, id, j);
    assert Value(PlanRun(q, ops, n), id) != Value(PlanRun(p, ops, n), id);
  }

  // ---------------------------------------------------------------- restarts between ops

  /** Interrupted attempts whose restart asks for no more ids than the files have. */
  predicate SameRange(p: Plan, ops: seq<Op>, stops: seq<Stop>) {
    forall i :: 0 <= i < |stops| ==> !stops[i].half && stops[i].k <= |ops| && (stops[i].maxId + 1) * REC_SIZE <= p.size
  }

  function Points(stops: seq<Stop>): seq<nat> {
    seq(|stops|, i requires 0 <= i < |stops| => stops[i].k)
  }

  lemma SameRangeIn(p: Plan, ops: seq<Op>, stops: seq<Stop>)
    requires SameRange(p, ops, stops)
    ensures forall s :: s in stops ==> StopIn(ops, s)
    ensures PointsIn(ops, Points(stops))
  {}

  /** Reopening files that already cover the range changes nothing. */
  lemma ReopenSame(p: Plan, q: Plan, maxId: nat)
    requires p.size <= q.size && CoveredPlan(q) && (maxId + 1) * REC_SIZE <= p.size
    ensures PlanDo(q, Open(maxId)) == q
  {
    DivMono((maxId + 1) * REC_SIZE, q.size);
    assert (maxId + 1) * REC_SIZE / REC_SIZE == maxId + 1;
  }

  lemma {:induction false} StopsAreAttempts(p: Plan, ops: seq<Op>, stops: seq<Stop>)
    requires NodeOps(ops) && Sound(p) && CoveredPlan(p) && SameRange(p, ops, stops)
    ensures (forall s :: s in stops ==> StopIn(ops, s)) && PointsIn(ops, Points(stops))
    ensures AfterStops(p, ops, stops) == Attempts(p, ops, Points(stops))
    ensures Sound(AfterStops(p, ops, stops)) && CoveredPlan(AfterStops(p, ops, stops)) && p.size <= AfterStops(p, ops, stops).size
  {
    hide PlanRun, PlanDo, Sound, CoveredPlan, StopIn;
    SameRangeIn(p, ops, stops);
    if stops != [] {
      var init, s := stops[..|stops| - 1], stops[|stops| - 1];
      StopsAreAttempts(p, ops, init);
      var q := AfterStops(p, ops, init);
      RunSound(q, ops, 0, s.k);
      StartOf(q, ops);
      ReopenSame(p, PlanRun(q, ops, s.k), s.maxId);
      assert Points(stops)[..|stops| - 1] == Points(init);
    }
  }

  ghost predicate StopsExact(p: Plan, ops: seq<Op>, stops: seq<Stop>)
    requires forall s :: s in stops ==> StopIn(ops, s)
  {
    forall id: int :: Value(PlanRun(AfterStops(p, ops, stops), ops, |ops|), id) == Value(PlanRun(p, ops, |ops|), id)
  }

  /**
   Exactly when re-applying a diff's node changes gives the crash-free coordinates after every
   list of attempts cut short between ops, each followed by a restart with the same id range:
   no update was dropped for an id that the same diff's growth then made addressable.
   */
  lemma RestartExactIff(p: Plan, ops: seq<Op>)
    requires NodeOps(ops) && Sound(p) && CoveredPlan(p) && p.size >= REC_SIZE
    ensures (forall stops :: RestartExact(p, ops, stops)) <==> (forall j :: 0 <= j < |ops| ==> !LostUpdate(p, ops, j))
  {
    hide PlanRun, Sound, LostUpdate, CoveredPlan, AttemptsExact, RestartExact;
    if forall j :: 0 <= j < |ops| ==> !LostUpdate(p, ops, j) {
      forall stops ensures RestartExact(p, ops, stops) { NoLossRestart(p, ops, stops); }
    } else {
      var j :| 0 <= j < |ops| && LostUpdate(p, ops, j);
      LostDiffers(p, ops, j);
      OneRestart(p, ops);
    }
  }

  ghost predicate RestartExact(p: Plan, ops: seq<Op>, stops: seq<Stop>) {
    SameRange(p, ops, stops) ==> (forall s :: s in stops ==> StopIn(ops, s)) && StopsExact(p, ops, stops)
  }

  lemma NoLossRestart(p: Plan, ops: seq<Op>, stops: seq<Stop>)
    requires NodeOps(ops) && Sound(p) && CoveredPlan(p) && forall j :: 0 <= j < |ops| ==> !LostUpdate(p, ops, j)
    ensures RestartExact(p, ops, stops)
  {
    hide PlanRun, Sound, LostUpdate, CoveredPlan, SameRange, Value, StopIn, PointsIn, AfterStops, Attempts;
    if SameRange(p, ops, stops) {
      StopsAreAttempts(p, ops, stops);
      NoLossExact(p, ops, Points(stops));
    }
  }

  lemma OneRestart(p: Plan, ops: seq<Op>)
    requires NodeOps(ops) && Sound(p) && CoveredPlan(p) && p.size >= REC_SIZE && !AttemptsExact(p, ops, [|ops|])
    ensures !RestartExact(p, ops, [Stop(|ops|, false, 0)])
  {
    hide PlanRun, Sound, CoveredPlan, Value, StopIn, AfterStops, Attempts;
    var stops := [Stop(|ops|, false, 0)];
    StopsAreAttempts(p, ops, stops);
    var ks := Points(stops);
    assert ks == [|ops|] && PointsIn(ops, ks);
    var id: int :| Value(PlanRun(Attempts(p, ops, ks), ops, |ops|), id) != Value(PlanRun(p, ops, |ops|), id);
    assert Value(PlanRun(AfterStops(p, ops, stops), ops, |ops|), id) != Value(PlanRun(p, ops, |ops|), id);
  }

  /** With restarts that ask for any range, and crashes inside grows, the landings decide. */
  lemma StopsRerunIff(p: Plan, ops: seq<Op>, stops: seq<Stop>)
    requires NodeOps(ops) && Sound(p) && forall s :: s in stops ==> StopIn(ops, s)
    ensures StopsExact(p, ops, stops) <==> SameLandings(p, AfterStops(p, ops, stops), ops)
  {
    hide PlanDo, Sound, LandsAt, Value, StopIn, LastOp, SameLandings;
    StopsKeep(p, ops, stops);
    var q, n := AfterStops(p, ops, stops), |ops|;
    RerunIff(p, q, ops);
    if SameLandings(p, q, ops) {
      forall id: int ensures Value(PlanRun(AfterStops(p, ops, stops), ops, n), id) == Value(PlanRun(p, ops, n), id) {
        assert Value(PlanRun(q, ops, n), id) == Value(PlanRun(p, ops, n), id);
      }
    } else {
      var id: int :| Value(PlanRun(q, ops, n), id) != Value(PlanRun(p, ops, n), id);
      assert Value(PlanRun(AfterStops(p, ops, stops), ops, n), id) != Value(PlanRun(p, ops, n), id);
    }
  }

  /**
   Diffs whose ids stay at or below the ceiling replay exactly after any list of attempts cut
   short between ops, whatever range each restart asks for.
   */
  lemma SaneRestartsExact(p: Plan, ops: seq<Op>, stops: seq<Stop>)
    requires NodeOps(ops) && Sound(p) && CoveredPlan(p)
    requires forall s :: s in stops ==> StopIn(ops, s) && !s.half
    requires forall i :: 0 <= i < |ops| && ops[i].Upd? ==> ops[i].id <= MAX_SANE_ID
    ensures StopsExact(p, ops, stops)
  {
    hide PlanRun, Sound, LandsAt, Value, StopIn, LastOp, CoveredPlan;
    StopsKeep(p, ops, stops);
    var q := AfterStops(p, ops, stops);
    forall j | 0 <= j < |ops| && LastOp(ops, j) ensures LandsAt(p, ops, j) <==> LandsAt(q, ops, j) {
      if ops[j].Upd? && ops[j].id >= 0 {
        CoveredLandsAt(p, ops, j);
        CoveredLandsAt(q, ops, j);
      } else {
        NeverLands(p, ops, j);
        NeverLands(q, ops, j);
      }
    }
    StopsRerunIff(p, ops, stops);
  }

  /** Diffs whose ids stay below the ceiling are always safe. */
  lemma SaneIdsNeverLost(p: Plan, ops: seq<Op>, j: nat)
    requires j < |ops| && forall i :: 0 <= i < |ops| && ops[i].Upd? ==> ops[i].id <= MAX_SANE_ID
    ensures !LostUpdate(p, ops, j)
  {}
}
