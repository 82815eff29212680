/**
 The import cannot get stuck and cannot run for ever: every reachable unfinished state has
 an enabled step, every step lowers a rank, so every schedule ends with everything stored.
 */
module PipelineProgress {
  import opened Core
  import opened Shards
  import opened ImportPipeline
  import opened PipelineNodes
  import opened PipelineWays
  import opened PipelineSafety

  ghost predicate Enabled(c: Config, s: State, a: Action)
    requires Shape(c, s)
  {
    Step(c, s, a).Some?
  }

  // ---------------------------------------------------------------- no deadlock

  ghost predicate NodeGoing(th: NodeThread) { th.pc.Popping? || th.pc.Holding? || th.pc.Leaving? }

  lemma NodeThreadMoves(c: Config, s: State, t: nat)
    requires NodeInv(c, s) && t < c.nodeThreads && NodeGoing(s.nodes[t]) && (t < s.closed || s.queues[t] != [])
    ensures Enabled(c, s, NodeAct(t))
  {
    hide Base, NodeRecs, ThreadsOk, ProducerOk, MergeOk;
  }

  /** With the node queues shut, node threads move until all have returned. */
  lemma NodesMove(c: Config, s: State, t: nat)
    requires NodeInv(c, s) && s.closed == c.nodeThreads && t < c.nodeThreads && !s.nodes[t].pc.NodeGone?
    ensures exists a :: Enabled(c, s, a)
  {
    hide Base, NodeRecs, Deal, NodeGoing, Step, ProducerOk;
    if u: nat :| u < c.nodeThreads && NodeGoing(s.nodes[u]) {
      NodeThreadMoves(c, s, u);
    } else {
      forall u: nat | u < c.nodeThreads ensures s.nodes[u].pc.Waiting? || s.nodes[u].pc.NodeGone? { NotGoing(s.nodes[u]); }
      forall u: nat | u < c.nodeThreads ensures ThreadOk(c, s, u) {}
      if s.merged.None? { AllWait(c, s); } else { WaitEnds(c, s, t); }
    }
  }

  lemma NotGoing(th: NodeThread)
    requires !NodeGoing(th)
    ensures th.pc.Waiting? || th.pc.NodeGone?
  {}

  lemma AllWait(c: Config, s: State)
    requires Shape(c, s) && s.merged.None? && forall u: nat :: u < c.nodeThreads ==> ThreadOk(c, s, u)
    requires forall u: nat :: u < c.nodeThreads ==> s.nodes[u].pc.Waiting? || s.nodes[u].pc.NodeGone?
    ensures Enabled(c, s, Merge)
  {
    hide Base, NodeRecs, Deal, Held;
    forall u: nat | u < c.nodeThreads ensures s.nodes[u].pc.Waiting? { assert ThreadOk(c, s, u); }
  }

  lemma WaitEnds(c: Config, s: State, t: nat)
    requires Shape(c, s) && t < c.nodeThreads && s.nodes[t].pc.Waiting? && s.merged.Some?
    ensures Enabled(c, s, NodeAct(t))
  {}

  ghost predicate WayGoing(th: WayThread) { th.pc.Idle? || th.pc.Busy? || th.pc.Flushed? }

  lemma WayThreadMoves(c: Config, s: State, t: nat)
    requires Shape(c, s) && t < c.wayThreads && WayThreadOk(c, s, t)
    requires WayGoing(s.ways[t]) && (s.wayQueue != [] || s.wayClosed)
    ensures Enabled(c, s, WayAct(t))
  {
    hide Base, AllNodes, Owned, Taken, RowsOk, RelsOk, Flush, RowFor, Popped, NoWaysFrom;
  }

  lemma BarrierOpens(c: Config, s: State, t: nat)
    requires Shape(c, s) && WayInv(c, s) && t < c.wayThreads && s.ways[t].pc.AtBarrier?
    requires forall u: nat :: u < c.wayThreads ==> HasArrived(s.ways[u])
    ensures Enabled(c, s, WayAct(t))
  {
    hide Base, AllNodes, Owned, WayInv, Arrived, StoreNow;
    ArrivalsSmall(c, s);
    AllArrived(s.ways);
    assert forall u :: 0 <= u < |s.ways| ==> s.ways[u].arrivals == 1;
  }

  /** With work queued or the queue shut, way threads move until all have returned. */
  lemma WaysMove(c: Config, s: State, t: nat)
    requires Shape(c, s) && WayInv(c, s) && (s.wayQueue != [] || s.wayClosed) && t < c.wayThreads && !s.ways[t].pc.WayGone?
    ensures exists a :: Enabled(c, s, a)
  {
    hide Base, AllNodes, Owned, WayGoing, Arrived, WayOk, QueueOk, Popped, Step;
    if u: nat :| u < c.wayThreads && WayGoing(s.ways[u]) {
      assert WayThreadOk(c, s, u);
      WayThreadMoves(c, s, u);
    } else {
      forall u: nat | u < c.wayThreads ensures HasArrived(s.ways[u]) { NotWayGoing(s.ways[u]); }
      NotWayGoing(s.ways[t]);
      BarrierOpens(c, s, t);
    }
  }

  lemma NotWayGoing(th: WayThread)
    requires !WayGoing(th)
    ensures (th.pc.AtBarrier? || th.pc.WayGone?) && HasArrived(th)
  {}

  /** A full way queue has a way thread to empty it. */
  lemma QueueHasReader(c: Config, s: State)
    requires Shape(c, s) && WayInv(c, s) && s.wayQueue != []
    ensures !s.ways[0].pc.WayGone?
  {
    hide Base, AllNodes, Owned, Taken, RowsOk, RelsOk, QueueOk, Popped, NoWaysFrom, Released;
    assert WayThreadOk(c, s, 0);
  }

  /** A full node queue has a node thread to empty it. */
  lemma ReadingMoves(c: Config, s: State)
    requires GoodConfig(c) && NodeInv(c, s) && s.pc.Reading?
    ensures exists a :: Enabled(c, s, a)
  {
    hide Base, NodeRecs, Deal, TypeSorted, Turn, ProducerOk, MergeOk, Held;
    if Read(c, s).Some? {
      assert Enabled(c, s, Produce);
    } else {
      var t := Turn(s.rr, c.nodeThreads);
      assert ThreadOk(c, s, t);
      NodeThreadMoves(c, s, t);
    }
  }

  /** Every unfinished state the invariant allows has an enabled step. */
  lemma Moves(c: Config, s: State)
    requires GoodConfig(c) && Inv(c, s) && !s.pc.Done?
    ensures exists a :: Enabled(c, s, a)
  {
    hide Base, NodeRecs, ThreadsOk, MergeOk, NodeStep, WayStep, TypeSorted, WayInv, Read;
    if s.pc.Reading? {
      ReadingMoves(c, s);
    } else if Producer(c, s).Some? {
      assert Enabled(c, s, Produce);
    } else if s.pc.Feeding? {
      QueueHasReader(c, s);
      WaysMove(c, s, 0);
    } else if s.pc.JoiningWays? {
      var t :| 0 <= t < |s.ways| && !s.ways[t].pc.WayGone?;
      ClosedWhenJoining(c, s);
      WaysMove(c, s, t);
    } else if s.pc.JoiningNodes? {
      var t :| 0 <= t < |s.nodes| && !s.nodes[t].pc.NodeGone?;
      NodesMove(c, s, t);
    } else {
      NoneGone(c, s);
      NodesMove(c, s, 0);
    }
  }

  lemma ClosedWhenJoining(c: Config, s: State)
    requires Shape(c, s) && WayInv(c, s) && s.pc.JoiningWays?
    ensures s.wayClosed
  {
    hide WayThreadOk;
  }

  lemma NoneGone(c: Config, s: State)
    requires NodeInv(c, s) && s.merged.None?
    ensures !s.nodes[0].pc.NodeGone?
  {
    hide Base, NodeRecs, Deal, ProducerOk, MergeOk;
    assert ThreadOk(c, s, 0);
  }

  /** From every reachable state that is not finished, some thread can step. */
  lemma Progress(c: Config, schedule: seq<Action>)
    requires GoodConfig(c) && Run(c, schedule).Some? && !Run(c, schedule).value.pc.Done?
    ensures exists a :: Enabled(c, Run(c, schedule).value, a)
  {
    hide Inv, Run, TypeSorted;
    RunInv(c, schedule);
    Moves(c, Run(c, schedule).value);
  }

  // ---------------------------------------------------------------- every run ends

  function NodeRank(th: NodeThread): nat {
    match th.pc case Popping => 3 case Holding(_) => 5 case Leaving => 2 case Waiting => 1 case NodeGone => 0
  }

  function BarrierRank(th: WayThread): nat {
    if th.phaseDone then 0
    else match th.pc case Flushed(_) => 2 case AtBarrier(_) => 1 case WayGone => 0 case _ => 3
  }

  function WayRank(th: WayThread): nat {
    3 * |HeldPos(th.pc)| + |th.buffer| + BarrierRank(th) + (if th.pc.WayGone? then 0 else 1)
  }

  function NodesRank(nodes: seq<NodeThread>): nat {
    if nodes == [] then 0 else NodesRank(nodes[..|nodes| - 1]) + NodeRank(nodes[|nodes| - 1])
  }

  function QueuesRank(queues: seq<seq<Rec>>): nat {
    if queues == [] then 0 else QueuesRank(queues[..|queues| - 1]) + 3 * |queues[|queues| - 1]|
  }

  function WaysRank(ways: seq<WayThread>): nat {
    if ways == [] then 0 else WaysRank(ways[..|ways| - 1]) + WayRank(ways[|ways| - 1])
  }

  function PcRank(pc: ProducerPc): nat {
    match pc
    case Reading => 7 case Closing => 6 case Spinning => 5 case Feeding => 4
    case Ending => 3 case JoiningNodes => 2 case JoiningWays => 1 case Done => 0
  }

  function StateRank(c: Config, s: State): nat
    requires Shape(c, s)
  {
    5 * (|c.file| - s.next) + PcRank(s.pc) + (c.nodeThreads - s.closed) + (if s.merged.Some? then 0 else 1)
      + NodesRank(s.nodes) + QueuesRank(s.queues) + 4 * |s.wayQueue| + WaysRank(s.ways)
  }

  lemma {:induction false} NodesRankAt(nodes: seq<NodeThread>, t: nat, th: NodeThread)
    requires t < |nodes|
    ensures NodesRank(nodes[t := th]) + NodeRank(nodes[t]) == NodesRank(nodes) + NodeRank(th)
  {
    hide NodeRank;
    var init := nodes[..|nodes| - 1];
    if t == |nodes| - 1 {
      assert nodes[t := th][..|nodes| - 1] == init;
    } else {
      assert nodes[t := th][..|nodes| - 1] == init[t := th];
      NodesRankAt(init, t, th);
    }
  }

  lemma {:induction false} QueuesRankAt(queues: seq<seq<Rec>>, t: nat, q: seq<Rec>)
    requires t < |queues|
    ensures QueuesRank(queues[t := q]) + 3 * |queues[t]| == QueuesRank(queues) + 3 * |q|
  {
    var init := queues[..|queues| - 1];
    if t == |queues| - 1 {
      assert queues[t := q][..|queues| - 1] == init;
    } else {
      assert queues[t := q][..|queues| - 1] == init[t := q];
      QueuesRankAt(init, t, q);
    }
  }

  lemma {:induction false} WaysRankAt(ways: seq<WayThread>, t: nat, th: WayThread)
    requires t < |ways|
    ensures WaysRank(ways[t := th]) + WayRank(ways[t]) == WaysRank(ways) + WayRank(th)
  {
    hide WayRank;
    var init := ways[..|ways| - 1];
    if t == |ways| - 1 {
      assert ways[t := th][..|ways| - 1] == init;
    } else {
      assert ways[t := th][..|ways| - 1] == init[t := th];
      WaysRankAt(init, t, th);
    }
  }

  lemma ProducerLowers(c: Config, s: State)
    requires Shape(c, s) && Producer(c, s).Some?
    ensures Shape(c, Producer(c, s).value) && StateRank(c, Producer(c, s).value) < StateRank(c, s)
  {
    hide NodesRank, QueuesRank, WaysRank, Turn;
    if s.pc.Reading? && s.next < |c.file| && c.file[s.next].NodeE? {
      var t := Turn(s.rr, c.nodeThreads);
      QueuesRankAt(s.queues, t, s.queues[t] + [c.file[s.next].rec]);
    }
  }

  lemma NodeStepLowers(c: Config, s: State, t: nat)
    requires Shape(c, s) && t < c.nodeThreads && NodeStep(c, s, t).Some?
    ensures Shape(c, NodeStep(c, s, t).value) && StateRank(c, NodeStep(c, s, t).value) < StateRank(c, s)
  {
    hide NodesRank, QueuesRank, WaysRank, PcRank;
    var r := NodeStep(c, s, t).value;
    NodesRankAt(s.nodes, t, r.nodes[t]);
    if s.nodes[t].pc.Popping? && s.queues[t] != [] { QueuesRankAt(s.queues, t, s.queues[t][1..]); }
  }

  /** While a thread still has its barrier ahead, its phase is not done. */
  ghost predicate Consistent(th: WayThread) { th.pc.Flushed? || th.pc.AtBarrier? ==> !th.phaseDone }

  lemma MoveLowers(c: Config, store: seq<Rec>, drained: bool, released: bool, th: WayThread)
    requires Consistent(th) && WayMove(c, store, drained, released, th).Some?
    ensures WayRank(WayMove(c, store, drained, released, th).value) < WayRank(th)
  {
    hide RowFor;
  }

  lemma WayStepLowers(c: Config, s: State, t: nat)
    requires Shape(c, s) && t < c.wayThreads && WayStep(c, s, t).Some? && Consistent(s.ways[t])
    ensures Shape(c, WayStep(c, s, t).value) && StateRank(c, WayStep(c, s, t).value) < StateRank(c, s)
  {
    hide NodesRank, QueuesRank, WaysRank, PcRank, WayMove, Arrived;
    var r := WayStep(c, s, t).value;
    WaysRankAt(s.ways, t, r.ways[t]);
    if !(s.ways[t].pc.Idle? && s.wayQueue != []) {
      MoveLowers(c, StoreNow(s), Drained(s), Released(c, s), s.ways[t]);
    }
  }

  lemma SpillLowers(c: Config, s: State, t: nat)
    requires Shape(c, s) && t < c.wayThreads && SpillStep(c, s, t).Some?
    ensures Shape(c, SpillStep(c, s, t).value) && StateRank(c, SpillStep(c, s, t).value) < StateRank(c, s)
  {
    hide NodesRank, QueuesRank, WaysRank, PcRank;
    WaysRankAt(s.ways, t, Flush(s.ways[t], s.ways[t].pc));
  }

  lemma StepLowers(c: Config, s: State, a: Action)
    requires Shape(c, s) && Step(c, s, a).Some? && forall t: nat :: t < c.wayThreads ==> Consistent(s.ways[t])
    ensures StateRank(c, Step(c, s, a).value) < StateRank(c, s)
  {
    hide NodesRank, QueuesRank, WaysRank, Producer, NodeStep, WayStep, SpillStep, Consistent;
    match a
    case Produce => ProducerLowers(c, s);
    case NodeAct(t) => NodeStepLowers(c, s, t);
    case Merge =>
    case WayAct(t) => WayStepLowers(c, s, t);
    case Spill(t) => SpillLowers(c, s, t);
  }

  lemma ConsistentThreads(c: Config, s: State)
    requires Shape(c, s) && WayInv(c, s)
    ensures forall t: nat :: t < c.wayThreads ==> Consistent(s.ways[t])
  {
    hide Base, AllNodes, Owned, Taken, RowsOk, RelsOk, QueueOk, Popped, NoWaysFrom, Drained, Released;
    forall t: nat | t < c.wayThreads ensures Consistent(s.ways[t]) { assert WayThreadOk(c, s, t); }
  }

  lemma {:induction false} RunLowers(c: Config, schedule: seq<Action>)
    requires GoodConfig(c) && Run(c, schedule).Some?
    ensures Shape(c, Start(c)) && |schedule| + StateRank(c, Run(c, schedule).value) <= StateRank(c, Start(c))
  {
    hide Step, StateRank, Start, WayInv, NodeInv, TypeSorted;
    if schedule == [] {
    } else {
      var before := schedule[..|schedule| - 1];
      RunLowers(c, before);
      RunInv(c, before);
      var s := Run(c, before).value;
      ConsistentThreads(c, s);
      StepLowers(c, s, schedule[|schedule| - 1]);
    }
  }

  /**
   Every schedule is finite, and one that cannot be extended has finished the import:
   all nodes merged, every way and relation stored once, each thread through its barrier.
   */
  lemma ImportEnds(c: Config, schedule: seq<Action>)
    requires GoodConfig(c) && Run(c, schedule).Some?
    ensures Shape(c, Start(c)) && |schedule| <= StateRank(c, Start(c))
    ensures var s := Run(c, schedule).value;
      (forall a :: !Enabled(c, s, a)) ==> s.pc.Done? && Imported(c, s)
  {
    hide Run, Enabled, Inv, StateRank, Imported, Start, TypeSorted;
    RunLowers(c, schedule);
    RunInv(c, schedule);
    var s := Run(c, schedule).value;
    if forall a :: !Enabled(c, s, a) {
      if !s.pc.Done? { Progress(c, schedule); }
      DoneImported(c, s);
    }
  }

  lemma Extended(c: Config, schedule: seq<Action>, a: Action)
    requires GoodConfig(c) && Run(c, schedule).Some? && Enabled(c, Run(c, schedule).value, a)
    ensures Run(c, schedule + [a]) == Step(c, Run(c, schedule).value, a)
  {
    hide Step;
    assert (schedule + [a])[..|schedule|] == schedule;
  }

  lemma OneStep(c: Config, schedule: seq<Action>) returns (a: Action)
    requires GoodConfig(c) && Run(c, schedule).Some? && !Run(c, schedule).value.pc.Done?
    ensures Run(c, schedule + [a]).Some? && StateRank(c, Run(c, schedule + [a]).value) < StateRank(c, Run(c, schedule).value)
  {
    hide Run, StateRank, TypeSorted, Step, NodeInv, WayInv;
    var s := Run(c, schedule).value;
    RunInv(c, schedule);
    Progress(c, schedule);
    a :| Enabled(c, s, a);
    Extended(c, schedule, a);
    ConsistentThreads(c, s);
    StepLowers(c, s, a);
  }

  /** Whatever has happened so far, some continuation finishes the import with everything stored. */
  lemma {:induction false} CanFinish(c: Config, schedule: seq<Action>) returns (all: seq<Action>)
    requires GoodConfig(c) && Run(c, schedule).Some?
    ensures schedule <= all && Run(c, all).Some? && Run(c, all).value.pc.Done? && Imported(c, Run(c, all).value)
    decreases StateRank(c, Run(c, schedule).value)
  {
    hide Run, Inv, StateRank, Imported, TypeSorted;
    if Run(c, schedule).value.pc.Done? {
      RunInv(c, schedule);
      DoneImported(c, Run(c, schedule).value);
      all := schedule;
    } else {
      var a := OneStep(c, schedule);
      all := CanFinish(c, schedule + [a]);
    }
  }
}
