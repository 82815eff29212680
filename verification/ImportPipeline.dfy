/**
 The concurrent bulk import (src/main.cpp): one producer, node threads with a queue each, a
 node barrier whose completion merges the shards, and way threads on one shared queue with
 a barrier before relations. A run is any interleaving of the threads' atomic steps; pushes
 and pops are guarded steps.
 */
module ImportPipeline {
  import opened Core
  import opened Geometry
  import opened Shards

  datatype Entry = NodeE(rec: Rec) | WayE(refs: seq<int>) | RelE

  /** A file and the command-line settings; `idLimit` is the merged file's capacity. */
  datatype Config = Config(file: seq<Entry>, nodeThreads: nat, wayThreads: nat, queueSize: nat, idLimit: nat)

  function Rank(e: Entry): nat {
    match e case NodeE(_) => 0 case WayE(_) => 1 case RelE => 2
  }

  ghost predicate TypeSorted(file: seq<Entry>) {
    forall i, j :: 0 <= i < j < |file| ==> Rank(file[i]) <= Rank(file[j])
  }

  ghost predicate GoodConfig(c: Config) {
    TypeSorted(c.file) && c.nodeThreads >= 1 && c.wayThreads >= 1 && c.queueSize >= 1
  }

  // ---------------------------------------------------------------- state

  datatype ProducerPc = Reading | Closing | Spinning | Feeding | Ending | JoiningNodes | JoiningWays | Done

  /** Popping, holding a node, past its flush, at the barrier, returned. */
  datatype NodePc = Popping | Holding(rec: Rec) | Leaving | Waiting | NodeGone

  datatype NodeThread = NodeThread(pc: NodePc, shard: seq<Rec>)

  /** A way's outcome: its geometry, or none when fewer than two nodes resolve. */
  datatype WayRow = WayRow(pos: nat, geom: Option<Geom>)

  /** `Flushed` and `AtBarrier` remember the relation in hand, if any. */
  datatype WayPc = Idle | Busy(pos: nat) | Flushed(pending: Option<nat>) | AtBarrier(pending: Option<nat>) | WayGone

  datatype WayThread = WayThread(pc: WayPc, phaseDone: bool, arrivals: nat,
                                 buffer: seq<WayRow>, committed: seq<WayRow>, relations: seq<nat>)

  /**
   `closed` node queues are shut down, lowest first. Entries of the way queue are named by
   their position in the file; `owners` records which thread popped each of them, in order.
   */
  datatype State = State(pc: ProducerPc, next: nat, rr: nat, queues: seq<seq<Rec>>, closed: nat,
                         nodes: seq<NodeThread>, merged: Option<seq<Rec>>,
                         wayQueue: seq<nat>, wayClosed: bool, ways: seq<WayThread>, owners: seq<nat>)

  const FRESH_NODE := NodeThread(Popping, [])
  const FRESH_WAY := WayThread(Idle, false, 0, [], [], [])

  function Start(c: Config): State {
    State(Reading, 0, 0, seq(c.nodeThreads, i => []), 0, seq(c.nodeThreads, i => FRESH_NODE), None,
          [], false, seq(c.wayThreads, i => FRESH_WAY), [])
  }

  predicate Shape(c: Config, s: State) {
    && |s.queues| == |s.nodes| == c.nodeThreads && |s.ways| == c.wayThreads
    && s.next <= |c.file| && s.closed <= c.nodeThreads
    && c.nodeThreads >= 1 && c.wayThreads >= 1 && c.queueSize >= 1
  }

  // ---------------------------------------------------------------- the producer

  function Producer(c: Config, s: State): Option<State>
    requires Shape(c, s)
  {
    match s.pc
    case Reading => Read(c, s)
    case Closing => Some(if s.closed < c.nodeThreads then s.(closed := s.closed + 1) else s.(pc := Spinning))
    case Spinning => if s.merged.Some? then Some(s.(pc := Feeding)) else None
    case Feeding =>
      if s.next == |c.file| then Some(s.(pc := Ending))
      else if |s.wayQueue| < c.queueSize then Some(s.(wayQueue := s.wayQueue + [s.next], next := s.next + 1))
      else None
    case Ending => Some(if s.closed < c.nodeThreads then s.(closed := s.closed + 1) else s.(pc := JoiningNodes))
    case JoiningNodes =>
      if forall t :: 0 <= t < |s.nodes| ==> s.nodes[t].pc.NodeGone? then Some(s.(wayClosed := true, pc := JoiningWays)) else None
    case JoiningWays =>
      if forall t :: 0 <= t < |s.ways| ==> s.ways[t].pc.WayGone? then Some(s.(pc := Done)) else None
    case Done => None
  }

  /** Nodes go round the node queues; the first other entry ends the node phase. */
  function Read(c: Config, s: State): Option<State>
    requires Shape(c, s)
  {
    if s.next == |c.file| then Some(s.(pc := Ending))
    else match c.file[s.next]
      case NodeE(rec) =>
        var t := Turn(s.rr, c.nodeThreads);
        if |s.queues[t]| < c.queueSize
        then Some(s.(queues := s.queues[t := s.queues[t] + [rec]], rr := s.rr + 1, next := s.next + 1))
        else None
      case _ => Some(s.(pc := Closing))
  }

  // ---------------------------------------------------------------- node threads

  function NodeStep(c: Config, s: State, t: nat): Option<State>
    requires Shape(c, s) && t < c.nodeThreads
  {
    var th := s.nodes[t];
    match th.pc
    case Popping =>
      if s.queues[t] != [] then
        Some(s.(queues := s.queues[t := s.queues[t][1..]], nodes := s.nodes[t := th.(pc := Holding(s.queues[t][0]))]))
      else if t < s.closed then Some(s.(nodes := s.nodes[t := th.(pc := Leaving)]))
      else None
    case Holding(rec) => Some(s.(nodes := s.nodes[t := NodeThread(Popping, th.shard + [rec])]))
    case Leaving => Some(s.(nodes := s.nodes[t := th.(pc := Waiting)]))
    case Waiting => if s.merged.Some? then Some(s.(nodes := s.nodes[t := th.(pc := NodeGone)])) else None
    case NodeGone => None
  }

  function ShardsOf(nodes: seq<NodeThread>): seq<seq<Rec>> {
    seq(|nodes|, i requires 0 <= i < |nodes| => nodes[i].shard)
  }

  /** The barrier's completion step, once every node thread has arrived: `merge`. */
  function MergeStep(c: Config, s: State): Option<State> {
    if s.merged.None? && (forall t :: 0 <= t < |s.nodes| ==> s.nodes[t].pc.Waiting?)
    then Some(s.(merged := Some(Flatten(ShardsOf(s.nodes))))) else None
  }

  // ---------------------------------------------------------------- way threads

  /** `select` on the merged file: the last record of an id within capacity. */
  function Find(c: Config, store: seq<Rec>, id: int): Option<Coord> {
    if 0 <= id < c.idLimit then LastOf(store, id) else None
  }

  function Resolve(c: Config, store: seq<Rec>, refs: seq<int>): seq<Coord> {
    if refs == [] then []
    else
      var at := Find(c, store, refs[|refs| - 1]);
      Resolve(c, store, refs[..|refs| - 1]) + (if at.Some? then [at.value] else [])
  }

  function StoreNow(s: State): seq<Rec> { if s.merged.Some? then s.merged.value else [] }

  function RowFor(c: Config, store: seq<Rec>, pos: nat, refs: seq<int>): WayRow {
    WayRow(pos, BuildWay(Resolve(c, store, refs)))
  }

  function Flush(th: WayThread, pc: WayPc): WayThread {
    th.(pc := pc, committed := th.committed + th.buffer, buffer := [])
  }

  function Arrived(ways: seq<WayThread>): nat {
    if ways == [] then 0 else Arrived(ways[..|ways| - 1]) + ways[|ways| - 1].arrivals
  }

  /** What a way thread does next, apart from popping; none when it has to wait. */
  function WayMove(c: Config, store: seq<Rec>, drained: bool, released: bool, th: WayThread): Option<WayThread> {
    match th.pc
    case Idle =>
      if !drained then None
      else if th.phaseDone then Some(th.(pc := WayGone))
      else Some(Flush(th, Flushed(None)))
    case Busy(pos) =>
      if pos >= |c.file| then None
      else (
        match c.file[pos]
        case NodeE(_) => Some(th.(pc := Idle))
        case WayE(refs) => Some(th.(pc := Idle, buffer := th.buffer + [RowFor(c, store, pos, refs)]))
        case RelE =>
          if th.phaseDone then Some(th.(pc := Idle, relations := th.relations + [pos]))
          else Some(Flush(th, Flushed(Some(pos))))
      )
    case Flushed(pending) => Some(th.(pc := AtBarrier(pending), arrivals := th.arrivals + 1))
    case AtBarrier(pending) =>
      if !released then None
      else if pending.Some? then Some(th.(pc := Busy(pending.value), phaseDone := true))
      else Some(th.(pc := WayGone))
    case WayGone => None
  }

  predicate Drained(s: State) { s.wayClosed && s.wayQueue == [] }

  predicate Released(c: Config, s: State) { Arrived(s.ways) >= c.wayThreads }

  function WayStep(c: Config, s: State, t: nat): Option<State>
    requires Shape(c, s) && t < c.wayThreads
  {
    var th := s.ways[t];
    if th.pc.Idle? && s.wayQueue != [] then
      Some(s.(wayQueue := s.wayQueue[1..], owners := s.owners + [t], ways := s.ways[t := th.(pc := Busy(s.wayQueue[0]))]))
    else
      var moved := WayMove(c, StoreNow(s), Drained(s), Released(c, s), th);
      if moved.Some? then Some(s.(ways := s.ways[t := moved.value])) else None
  }

  /** A thread's row buffer reaching its limit is written out at once. */
  function SpillStep(c: Config, s: State, t: nat): Option<State>
    requires Shape(c, s) && t < c.wayThreads
  {
    var th := s.ways[t];
    if th.buffer != [] then Some(s.(ways := s.ways[t := Flush(th, th.pc)])) else None
  }

  // ---------------------------------------------------------------- runs

  datatype Action = Produce | NodeAct(t: nat) | Merge | WayAct(t: nat) | Spill(t: nat)

  /** One step of one thread; none when it is not enabled. */
  function Step(c: Config, s: State, a: Action): (r: Option<State>)
    requires Shape(c, s)
    ensures r.Some? ==> Shape(c, r.value)
  {
    match a
    case Produce => Producer(c, s)
    case NodeAct(t) => if t < c.nodeThreads then NodeStep(c, s, t) else None
    case Merge => MergeStep(c, s)
    case WayAct(t) => if t < c.wayThreads then WayStep(c, s, t) else None
    case Spill(t) => if t < c.wayThreads then SpillStep(c, s, t) else None
  }

  /** A schedule all of whose steps are enabled; none otherwise. */
  function Run(c: Config, schedule: seq<Action>): (r: Option<State>)
    requires c.nodeThreads >= 1 && c.wayThreads >= 1 && c.queueSize >= 1
    ensures r.Some? ==> Shape(c, r.value)
  {
    if schedule == [] then Some(Start(c))
    else match Run(c, schedule[..|schedule| - 1])
      case None => None
      case Some(s) => Step(c, s, schedule[|schedule| - 1])
  }
}
