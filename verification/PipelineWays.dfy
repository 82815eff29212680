/**
 The way half of the import pipeline: what every interleaving keeps of the shared queue and
 the way threads, and how the way barrier separates ways from relations.
 */
module PipelineWays {
  import opened Core
  import opened Geometry
  import opened ImportPipeline
  import opened PipelineNodes

  // ---------------------------------------------------------------- who popped what

  /** Positions popped by thread `t`, in order; the first position is `base`. */
  function Owned(owners: seq<nat>, base: nat, t: nat): seq<nat> {
    if owners == [] then []
    else Owned(owners[..|owners| - 1], base, t) + One(base + |owners| - 1, owners[|owners| - 1] == t)
  }

  function One(pos: nat, mine: bool): seq<nat> { if mine then [pos] else [] }

  lemma OwnedNext(owners: seq<nat>, base: nat, t: nat, u: nat)
    ensures Owned(owners + [u], base, t) == Owned(owners, base, t) + One(base + |owners|, u == t)
  {
    assert (owners + [u])[..|owners|] == owners;
  }

  /** Each popped position belongs to exactly the thread that popped it, once. */
  lemma {:induction false} OwnedIs(owners: seq<nat>, base: nat, t: nat)
    ensures forall p :: p in Owned(owners, base, t) <==> base <= p < base + |owners| && owners[p - base] == t
    ensures forall i, j :: 0 <= i < j < |Owned(owners, base, t)| ==> Owned(owners, base, t)[i] < Owned(owners, base, t)[j]
  {
    if owners != [] {
      var init := owners[..|owners| - 1];
      OwnedIs(init, base, t);
      var mine := Owned(init, base, t);
      assert forall i :: 0 <= i < |mine| ==> mine[i] in mine;
    }
  }

  // ---------------------------------------------------------------- one thread

  function Positions(rows: seq<WayRow>): seq<nat> { seq(|rows|, i requires 0 <= i < |rows| => rows[i].pos) }

  function HeldPos(pc: WayPc): seq<nat> {
    match pc
    case Busy(pos) => [pos]
    case Flushed(pending) => if pending.Some? then [pending.value] else []
    case AtBarrier(pending) => if pending.Some? then [pending.value] else []
    case _ => []
  }

  /** Everything a thread has popped, in order. */
  function Taken(th: WayThread): seq<nat> {
    Positions(th.committed) + Positions(th.buffer) + th.relations + HeldPos(th.pc)
  }

  predicate IsWay(c: Config, p: nat) { p < |c.file| && c.file[p].WayE? }

  predicate IsRel(c: Config, p: nat) { p < |c.file| && c.file[p].RelE? }

  /** A row as looked up in the full store. */
  predicate RowOk(c: Config, store: seq<Rec>, row: WayRow) {
    IsWay(c, row.pos) && row == RowFor(c, store, row.pos, c.file[row.pos].refs)
  }

  ghost predicate RowsOk(c: Config, store: seq<Rec>, rows: seq<WayRow>) {
    forall i :: 0 <= i < |rows| ==> RowOk(c, store, rows[i])
  }

  ghost predicate RelsOk(c: Config, rels: seq<nat>) {
    forall i :: 0 <= i < |rels| ==> IsRel(c, rels[i])
  }

  ghost predicate NoWaysFrom(c: Config, p: nat) {
    forall i: nat :: i >= p ==> !IsWay(c, i)
  }

  predicate HasArrived(th: WayThread) { th.phaseDone || th.pc.AtBarrier? || th.pc.WayGone? }

  predicate LastCall(pc: WayPc) {
    pc.WayGone? || (pc.Flushed? && pc.pending.None?) || (pc.AtBarrier? && pc.pending.None?)
  }

  ghost predicate PcOk(c: Config, popped: nat, drained: bool, released: bool, th: WayThread) {
    && th.arrivals == (if HasArrived(th) then 1 else 0)
    && (th.pc.Flushed? || th.pc.AtBarrier? ==> !th.phaseDone)
    && (HasArrived(th) || th.pc.Flushed? ==> th.buffer == [] && NoWaysFrom(c, popped))
    && (th.relations != [] ==> th.phaseDone)
    && (th.phaseDone || th.pc.WayGone? ==> released)
    && (LastCall(th.pc) ==> drained)
    && (th.pc.Busy? ==> IsRel(c, th.pc.pos) || (IsWay(c, th.pc.pos) && !HasArrived(th)))
    && ((th.pc.Flushed? || th.pc.AtBarrier?) && th.pc.pending.Some? ==> IsRel(c, th.pc.pending.value))
  }

  ghost predicate WayOk(c: Config, store: seq<Rec>, owned: seq<nat>, popped: nat, drained: bool, released: bool, th: WayThread) {
    && Taken(th) == owned
    && PcOk(c, popped, drained, released, th)
    && RowsOk(c, store, th.committed) && RowsOk(c, store, th.buffer) && RelsOk(c, th.relations)
  }

  /** More pops, a drained queue and a released barrier leave other threads' facts alone. */
  lemma WayOkLater(c: Config, store: seq<Rec>, owned: seq<nat>, popped: nat, drained: bool, released: bool, th: WayThread,
                   popped': nat, drained': bool, released': bool)
    requires WayOk(c, store, owned, popped, drained, released, th)
    requires popped <= popped' && (drained ==> drained') && (released ==> released')
    ensures WayOk(c, store, owned, popped', drained', released', th)
  {
    hide IsWay, RowsOk, RelsOk, Taken, IsRel;
  }

  lemma PositionsSplit(a: seq<WayRow>, b: seq<WayRow>)
    ensures Positions(a + b) == Positions(a) + Positions(b)
  {}

  lemma TakenFlush(th: WayThread, pc: WayPc)
    ensures Taken(Flush(th, pc)) == Positions(th.committed) + Positions(th.buffer) + th.relations + HeldPos(pc)
  {
    PositionsSplit(th.committed, th.buffer);
    assert Positions([]) == [];
    assert Positions(th.committed) + Positions(th.buffer) + [] == Positions(th.committed) + Positions(th.buffer);
  }

  lemma FlushRows(c: Config, store: seq<Rec>, th: WayThread, pc: WayPc)
    requires RowsOk(c, store, th.committed) && RowsOk(c, store, th.buffer)
    ensures RowsOk(c, store, Flush(th, pc).committed) && RowsOk(c, store, Flush(th, pc).buffer)
  {
    hide RowOk;
  }

  lemma FlushTaken(th: WayThread, pc: WayPc)
    requires HeldPos(pc) == HeldPos(th.pc)
    ensures Taken(Flush(th, pc)) == Taken(th)
  {
    TakenFlush(th, pc);
  }

  lemma TakenRow(th: WayThread, row: WayRow)
    requires th.pc == Busy(row.pos) && th.relations == []
    ensures Taken(th.(pc := Idle, buffer := th.buffer + [row])) == Taken(th)
  {
    PositionsSplit(th.buffer, [row]);
    assert Positions([row]) == [row.pos];
    var a, b := Positions(th.committed), Positions(th.buffer);
    assert a + (b + [row.pos]) + [] + [] == a + b + [] + [row.pos];
  }

  lemma TakenRel(th: WayThread, pos: nat)
    requires th.pc == Busy(pos)
    ensures Taken(th.(pc := Idle, relations := th.relations + [pos])) == Taken(th)
  {
    var a := Positions(th.committed) + Positions(th.buffer);
    assert a + (th.relations + [pos]) + [] == a + th.relations + [pos];
  }

  lemma RowsSnoc(c: Config, store: seq<Rec>, rows: seq<WayRow>, row: WayRow)
    requires RowsOk(c, store, rows) && RowOk(c, store, row)
    ensures RowsOk(c, store, rows + [row])
  {
    hide RowOk;
  }

  /** A thread's own move keeps its facts. */
  lemma MoveOk(c: Config, store: seq<Rec>, now: seq<Rec>, owned: seq<nat>, popped: nat, drained: bool, released: bool, th: WayThread)
    requires WayOk(c, store, owned, popped, drained, released, th)
    requires WayMove(c, now, drained, released, th).Some?
    requires (th.pc.Busy? ==> now == store) && (drained ==> NoWaysFrom(c, popped))
    requires th.pc.Flushed? && th.pc.pending.Some? ==> NoWaysFrom(c, popped)
    requires th.pc.Busy? && IsRel(c, th.pc.pos) ==> NoWaysFrom(c, popped)
    ensures WayOk(c, store, owned, popped, drained, released, WayMove(c, now, drained, released, th).value)
  {
    hide NoWaysFrom, RowsOk, RelsOk, Taken, RowFor;
    var moved := WayMove(c, now, drained, released, th).value;
    if th.pc.Idle? && !th.phaseDone {
      FlushTaken(th, Flushed(None));
      FlushRows(c, store, th, Flushed(None));
    } else if th.pc.Busy? && c.file[th.pc.pos].RelE? && !th.phaseDone {
      FlushTaken(th, Flushed(Some(th.pc.pos)));
      FlushRows(c, store, th, Flushed(Some(th.pc.pos)));
    } else if th.pc.Busy? && c.file[th.pc.pos].RelE? {
      TakenRel(th, th.pc.pos);
      RelsSnoc(c, th.relations, th.pc.pos);
    } else if th.pc.Busy? {
      var row := RowFor(c, store, th.pc.pos, c.file[th.pc.pos].refs);
      RowPos(c, store, th.pc.pos, c.file[th.pc.pos].refs);
      TakenRow(th, row);
      RowsSnoc(c, store, th.buffer, row);
    } else {
      SameTaken(th, moved);
    }
  }

  lemma RowPos(c: Config, store: seq<Rec>, pos: nat, refs: seq<int>)
    ensures RowFor(c, store, pos, refs).pos == pos
  {
    hide Resolve;
  }

  lemma SameTaken(th: WayThread, moved: WayThread)
    requires th.committed == moved.committed && th.buffer == moved.buffer && th.relations == moved.relations
    requires HeldPos(th.pc) == HeldPos(moved.pc)
    ensures Taken(th) == Taken(moved)
  {}

  lemma RelsSnoc(c: Config, rels: seq<nat>, pos: nat)
    requires RelsOk(c, rels) && IsRel(c, pos)
    ensures RelsOk(c, rels + [pos])
  {
    hide IsRel;
  }

  // ---------------------------------------------------------------- the invariant

  function Popped(c: Config, s: State): nat { Base(c.file) + |s.owners| }

  /** The shared queue holds the next positions, without a gap. */
  ghost predicate QueueOk(c: Config, s: State) {
    && Popped(c, s) + |s.wayQueue| == (if s.next > Base(c.file) then s.next else Base(c.file))
    && (forall k :: 0 <= k < |s.wayQueue| ==> s.wayQueue[k] == Popped(c, s) + k)
    && (s.wayClosed <==> s.pc.JoiningWays? || s.pc.Done?)
    && (s.pc.Done? ==> forall t: nat :: t < |s.ways| ==> s.ways[t].pc.WayGone?)
    && (forall k :: 0 <= k < |s.owners| ==> s.owners[k] < c.wayThreads)
  }

  ghost predicate WayThreadOk(c: Config, s: State, t: nat)
    requires Shape(c, s) && t < c.wayThreads
  {
    WayOk(c, AllNodes(c), Owned(s.owners, Base(c.file), t), Popped(c, s), Drained(s), Released(c, s), s.ways[t])
  }

  ghost predicate WayInv(c: Config, s: State)
    requires Shape(c, s)
  {
    QueueOk(c, s) && forall t: nat :: t < c.wayThreads ==> WayThreadOk(c, s, t)
  }

  lemma {:induction false} ArrivedFresh(ways: seq<WayThread>)
    requires forall t :: 0 <= t < |ways| ==> ways[t].arrivals == 0
    ensures Arrived(ways) == 0
  {
    if ways != [] { ArrivedFresh(ways[..|ways| - 1]); }
  }

  lemma WayInvStart(c: Config)
    requires GoodConfig(c)
    ensures WayInv(c, Start(c))
  {
    hide Base, AllNodes, Arrived, IsWay;
    assert Positions([]) == [];
  }

  /** A thread that has begun to leave the way phase, or holds a relation: no ways are left. */
  lemma RelsOnly(c: Config, s: State, t: nat)
    requires GoodConfig(c) && Shape(c, s) && WayInv(c, s) && NodeInv(c, s) && t < c.wayThreads
    ensures s.ways[t].pc.Busy? ==> s.next > Base(c.file)
    ensures s.ways[t].pc.Busy? && IsRel(c, s.ways[t].pc.pos) ==> NoWaysFrom(c, Popped(c, s))
    ensures Drained(s) ==> NoWaysFrom(c, Popped(c, s))
  {
    hide Base, AllNodes, Arrived, RowsOk, RelsOk, PcOk, ThreadsOk, MergeOk, NodeRecs;
    assert WayThreadOk(c, s, t);
    if s.ways[t].pc.Busy? {
      var p := s.ways[t].pc.pos;
      HeldLast(s.ways[t], p);
      OwnedIs(s.owners, Base(c.file), t);
      assert p < Popped(c, s);
      if IsRel(c, p) {
        forall i: nat | i >= Popped(c, s) ensures !IsWay(c, i) {
          if i < |c.file| { assert Rank(c.file[p]) <= Rank(c.file[i]); }
        }
      }
    }
  }

  lemma HeldLast(th: WayThread, p: nat)
    requires th.pc == Busy(p)
    ensures p in Taken(th)
  {
    assert HeldPos(th.pc)[0] == p;
  }

  lemma {:induction false} ArrivedGrows(ways: seq<WayThread>, t: nat, th: WayThread)
    requires t < |ways| && th.arrivals >= ways[t].arrivals
    ensures Arrived(ways[t := th]) >= Arrived(ways)
  {
    var init := ways[..|ways| - 1];
    if t == |ways| - 1 {
      assert ways[t := th][..|ways| - 1] == init;
    } else {
      assert ways[t := th][..|ways| - 1] == init[t := th];
      ArrivedGrows(init, t, th);
    }
  }

  lemma MoveArrivals(c: Config, store: seq<Rec>, drained: bool, released: bool, th: WayThread)
    requires WayMove(c, store, drained, released, th).Some?
    ensures WayMove(c, store, drained, released, th).value.arrivals >= th.arrivals
  {
    hide RowFor;
  }

  /** One thread changed, none popped. */
  lemma OneMoved(c: Config, s: State, t: nat, th: WayThread)
    requires Shape(c, s) && WayInv(c, s) && t < c.wayThreads && !s.pc.Done?
    requires th.arrivals >= s.ways[t].arrivals
    requires WayOk(c, AllNodes(c), Owned(s.owners, Base(c.file), t), Popped(c, s), Drained(s), Released(c, s), th)
    ensures var r := s.(ways := s.ways[t := th]); Shape(c, r) && WayInv(c, r)
  {
    hide Base, AllNodes, Arrived, WayOk, Owned;
    var r := s.(ways := s.ways[t := th]);
    ArrivedGrows(s.ways, t, th);
    forall u: nat | u < c.wayThreads ensures WayThreadOk(c, r, u) {
      assert WayThreadOk(c, s, u);
      WayOkLater(c, AllNodes(c), Owned(s.owners, Base(c.file), u), Popped(c, s), Drained(s), Released(c, s), r.ways[u],
        Popped(c, r), Drained(r), Released(c, r));
    }
  }

  lemma PopOk(c: Config, store: seq<Rec>, owned: seq<nat>, popped: nat, drained: bool, released: bool, th: WayThread)
    requires WayOk(c, store, owned, popped, drained, released, th) && th.pc.Idle?
    requires IsRel(c, popped) || IsWay(c, popped)
    ensures WayOk(c, store, owned + [popped], popped + 1, drained, released, th.(pc := Busy(popped)))
  {
    hide RowsOk, RelsOk, Positions, IsRel;
    var a := Positions(th.committed) + Positions(th.buffer) + th.relations;
    assert a + [] == a;
  }

  lemma PopKeeps(c: Config, s: State, t: nat)
    requires GoodConfig(c) && NodeInv(c, s) && WayInv(c, s) && t < c.wayThreads
    requires s.ways[t].pc.Idle? && s.wayQueue != []
    ensures var r := WayStep(c, s, t).value; Shape(c, r) && WayInv(c, r)
  {
    hide Base, AllNodes, Arrived, WayOk, Owned, IsWay, IsRel, TypeSorted, ProducerOk, ThreadsOk, MergeOk;
    var r := WayStep(c, s, t).value;
    var p := Popped(c, s);
    assert s.wayQueue[0] == p;
    assert IsRel(c, p) || IsWay(c, p) by { NotANode(c, s, p); }
    ArrivedGrows(s.ways, t, r.ways[t]);
    assert QueueOk(c, r);
    forall u: nat | u < c.wayThreads ensures WayThreadOk(c, r, u) {
      assert WayThreadOk(c, s, u);
      OwnedNext(s.owners, Base(c.file), u, t);
      if u == t {
        PopOk(c, AllNodes(c), Owned(s.owners, Base(c.file), u), p, Drained(s), Released(c, s), s.ways[t]);
        WayOkLater(c, AllNodes(c), Owned(r.owners, Base(c.file), u), p + 1, Drained(s), Released(c, s), r.ways[u],
          Popped(c, r), Drained(r), Released(c, r));
      } else {
        assert Owned(s.owners, Base(c.file), u) + [] == Owned(s.owners, Base(c.file), u);
        WayOkLater(c, AllNodes(c), Owned(s.owners, Base(c.file), u), p, Drained(s), Released(c, s), r.ways[u],
          Popped(c, r), Drained(r), Released(c, r));
      }
    }
  }

  lemma NotANode(c: Config, s: State, p: nat)
    requires GoodConfig(c) && Shape(c, s) && Base(c.file) <= p < s.next
    ensures IsRel(c, p) || IsWay(c, p)
  {
    hide Base;
    BaseIs(c.file, p);
  }

  lemma WayStepKeeps(c: Config, s: State, t: nat)
    requires GoodConfig(c) && NodeInv(c, s) && WayInv(c, s) && t < c.wayThreads && WayStep(c, s, t).Some?
    ensures var r := WayStep(c, s, t).value; Shape(c, r) && WayInv(c, r)
  {
    hide Base, AllNodes, Arrived, WayMove, TypeSorted, Owned, PcOk, RowsOk, RelsOk, ThreadsOk, MergeOk, NodeRecs;
    if s.ways[t].pc.Idle? && s.wayQueue != [] {
      PopKeeps(c, s, t);
    } else {
      var th := s.ways[t];
      assert WayThreadOk(c, s, t);
      RelsOnly(c, s, t);
      if th.pc.Busy? { StoreIsFull(c, s); }
      FlushedNoWays(c, s, t);
      MoveOk(c, AllNodes(c), StoreNow(s), Owned(s.owners, Base(c.file), t), Popped(c, s), Drained(s), Released(c, s), th);
      MoveArrivals(c, StoreNow(s), Drained(s), Released(c, s), th);
      DoneStays(c, s, t);
      OneMoved(c, s, t, WayMove(c, StoreNow(s), Drained(s), Released(c, s), th).value);
    }
  }

  lemma FlushedNoWays(c: Config, s: State, t: nat)
    requires Shape(c, s) && t < c.wayThreads && WayThreadOk(c, s, t)
    ensures s.ways[t].pc.Flushed? ==> NoWaysFrom(c, Popped(c, s))
  {
    hide IsWay, AllNodes, Base, Owned, RowsOk, RelsOk, Taken, IsRel;
  }

  /** A finished producer leaves no thread to move. */
  lemma DoneStays(c: Config, s: State, t: nat)
    requires Shape(c, s) && WayInv(c, s) && t < c.wayThreads && WayStep(c, s, t).Some?
    ensures !s.pc.Done?
  {
    hide AllNodes, Base, Owned, Arrived, WayThreadOk, Popped;
  }

  lemma StoreIsFull(c: Config, s: State)
    requires GoodConfig(c) && NodeInv(c, s) && s.next > Base(c.file)
    ensures s.merged.Some? && StoreNow(s) == AllNodes(c)
  {
    hide ThreadsOk, MergeOk, AllNodes, Base, NodeRecs, TypeSorted;
    assert ProducerOk(c, s);
    MergedIsAll(c, s);
  }

  lemma SpillKeeps(c: Config, s: State, t: nat)
    requires GoodConfig(c) && Shape(c, s) && WayInv(c, s) && t < c.wayThreads && SpillStep(c, s, t).Some?
    ensures var r := SpillStep(c, s, t).value; Shape(c, r) && WayInv(c, r)
  {
    hide Base, AllNodes, Arrived, Owned, RowsOk, RelsOk, IsWay, IsRel, Taken, TypeSorted;
    var th := s.ways[t];
    assert WayThreadOk(c, s, t);
    FlushTaken(th, th.pc);
    FlushRows(c, AllNodes(c), th, th.pc);
    OneMoved(c, s, t, Flush(th, th.pc));
  }

  lemma ProducerKeepsWays(c: Config, s: State)
    requires GoodConfig(c) && NodeInv(c, s) && WayInv(c, s) && Producer(c, s).Some?
    ensures var r := Producer(c, s).value; Shape(c, r) && WayInv(c, r)
  {
    hide Base, AllNodes, Arrived, Owned, IsWay, IsRel, WayOk, TypeSorted, ThreadsOk, MergeOk, NodeRecs;
    var r := Producer(c, s).value;
    if s.pc.Reading? { ReadNext(c, s); }
    assert QueueOk(c, r);
    forall u: nat | u < c.wayThreads ensures WayThreadOk(c, r, u) {
      assert WayThreadOk(c, s, u);
      WayOkLater(c, AllNodes(c), Owned(s.owners, Base(c.file), u), Popped(c, s), Drained(s), Released(c, s), s.ways[u],
        Popped(c, r), Drained(r), Released(c, r));
    }
  }

  lemma ReadNext(c: Config, s: State)
    requires GoodConfig(c) && NodeInv(c, s) && s.pc.Reading? && Read(c, s).Some?
    ensures Read(c, s).value.next <= Base(c.file)
  {
    hide Base, ThreadsOk, MergeOk, NodeRecs, TypeSorted;
    if s.next < |c.file| { BaseIs(c.file, s.next); }
  }

  /** Steps of node threads and the merge touch nothing on the way side. */
  lemma NodeStepsKeepWays(c: Config, s: State, r: State)
    requires Shape(c, s) && WayInv(c, s) && Shape(c, r)
    requires r == s.(nodes := r.nodes, queues := r.queues, merged := r.merged)
    ensures WayInv(c, r)
  {
    hide Base, AllNodes, Arrived, Owned, WayOk;
    forall u: nat | u < c.wayThreads ensures WayThreadOk(c, r, u) { assert WayThreadOk(c, s, u); }
  }

  lemma WayInvKept(c: Config, s: State, a: Action)
    requires GoodConfig(c) && NodeInv(c, s) && WayInv(c, s) && Step(c, s, a).Some?
    ensures var r := Step(c, s, a).value; Shape(c, r) && WayInv(c, r)
  {
    hide WayInv, GoodConfig, Producer, WayStep, SpillStep, ProducerOk, ThreadsOk, MergeOk;
    match a
    case Produce => ProducerKeepsWays(c, s);
    case NodeAct(t) => NodeStepsKeepWays(c, s, Step(c, s, a).value);
    case Merge => NodeStepsKeepWays(c, s, Step(c, s, a).value);
    case WayAct(t) => WayStepKeeps(c, s, t);
    case Spill(t) => SpillKeeps(c, s, t);
  }
}
