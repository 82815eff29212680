/**
 Safety of the import over every run: any file sorted by type, any numbers of threads, any
 queue size, every schedule.
 */
module PipelineSafety {
  import opened Core
  import opened Geometry
  import opened Shards
  import opened ImportPipeline
  import opened PipelineNodes
  import opened PipelineWays

  ghost predicate Inv(c: Config, s: State) {
    NodeInv(c, s) && WayInv(c, s)
  }

  lemma {:induction false} RunInv(c: Config, schedule: seq<Action>)
    requires GoodConfig(c) && Run(c, schedule).Some?
    ensures Inv(c, Run(c, schedule).value)
  {
    hide NodeInv, WayInv, Step, Start, TypeSorted;
    if schedule == [] {
      NodeInvStart(c);
      WayInvStart(c);
    } else {
      var before := schedule[..|schedule| - 1];
      RunInv(c, before);
      var s, a := Run(c, before).value, schedule[|schedule| - 1];
      NodeInvKept(c, s, a);
      WayInvKept(c, s, a);
    }
  }

  // ---------------------------------------------------------------- bounded queues

  ghost predicate Bounded(c: Config, s: State) {
    |s.wayQueue| <= c.queueSize && forall t :: 0 <= t < |s.queues| ==> |s.queues[t]| <= c.queueSize
  }

  lemma StepBounded(c: Config, s: State, a: Action)
    requires Shape(c, s) && Bounded(c, s) && Step(c, s, a).Some?
    ensures Bounded(c, Step(c, s, a).value)
  {
    hide WayMove, Arrived, Turn;
  }

  /** No queue ever holds more than the configured number of entries. */
  lemma {:induction false} QueuesBounded(c: Config, schedule: seq<Action>)
    requires GoodConfig(c) && Run(c, schedule).Some?
    ensures Bounded(c, Run(c, schedule).value)
  {
    hide Step, Bounded;
    if schedule == [] {
      StartBounded(c);
    } else {
      QueuesBounded(c, schedule[..|schedule| - 1]);
      StepBounded(c, Run(c, schedule[..|schedule| - 1]).value, schedule[|schedule| - 1]);
    }
  }

  lemma StartBounded(c: Config)
    ensures Bounded(c, Start(c))
  {}

  // ---------------------------------------------------------------- nodes before ways

  /** Whenever a thread is about to resolve a way, the merge has run over every node. */
  lemma LookupsAfterMerge(c: Config, schedule: seq<Action>, t: nat)
    requires GoodConfig(c) && Run(c, schedule).Some? && t < c.wayThreads
    ensures var s := Run(c, schedule).value;
      s.ways[t].pc.Busy? ==>
        (s.merged == Some(AllNodes(c)) && multiset(s.merged.value) == multiset(NodeRecs(c.file)))
  {
    hide NodeInv, WayInv, Run, TypeSorted, AllNodes;
    RunInv(c, schedule);
    var s := Run(c, schedule).value;
    if s.ways[t].pc.Busy? {
      RelsOnly(c, s, t);
      StoreIsFull(c, s);
      MergedIsAll(c, s);
    }
  }

  // ---------------------------------------------------------------- ways before relations

  lemma {:induction false} AllArrived(ways: seq<WayThread>)
    requires forall t :: 0 <= t < |ways| ==> ways[t].arrivals <= 1
    ensures Arrived(ways) <= |ways|
    ensures Arrived(ways) >= |ways| ==> forall t :: 0 <= t < |ways| ==> ways[t].arrivals == 1
    ensures (forall t :: 0 <= t < |ways| ==> ways[t].arrivals == 1) ==> Arrived(ways) == |ways|
  {
    if ways != [] {
      var init := ways[..|ways| - 1];
      AllArrived(init);
      assert forall t :: 0 <= t < |init| ==> init[t] == ways[t];
    }
  }

  lemma ArrivalsSmall(c: Config, s: State)
    requires Shape(c, s) && WayInv(c, s)
    ensures forall t: nat :: t < |s.ways| ==> s.ways[t].arrivals <= 1
    ensures forall t: nat :: t < |s.ways| ==> (s.ways[t].arrivals == 1 <==> HasArrived(s.ways[t]))
  {
    hide Base, AllNodes, Owned, Taken, RowsOk, RelsOk, QueueOk, Popped, Drained, Released;
    forall t: nat | t < |s.ways|
      ensures s.ways[t].arrivals <= 1 && (s.ways[t].arrivals == 1 <==> HasArrived(s.ways[t]))
    {
      assert WayThreadOk(c, s, t);
    }
  }

  /** The way at `pos` has been written, by the thread that popped it, as the full store resolves it. */
  ghost predicate WayWritten(c: Config, s: State, pos: nat)
    requires Shape(c, s) && IsWay(c, pos)
  {
    exists t: nat :: t < c.wayThreads && RowFor(c, AllNodes(c), pos, c.file[pos].refs) in s.ways[t].committed
  }

  /** Past the barrier, everything a thread popped before its relations is written. */
  lemma ArrivedWrote(c: Config, s: State, t: nat, pos: nat)
    requires Shape(c, s) && t < c.wayThreads && WayThreadOk(c, s, t) && HasArrived(s.ways[t])
    requires IsWay(c, pos) && pos in Taken(s.ways[t])
    ensures WayWritten(c, s, pos)
  {
    hide Base, AllNodes, Owned, RowFor, Drained, Released, IsRel;
    var th := s.ways[t];
    NotRel(c, th, pos);
    var i :| 0 <= i < |th.committed| && th.committed[i].pos == pos;
    assert RowOk(c, AllNodes(c), th.committed[i]);
  }

  lemma NotRel(c: Config, th: WayThread, pos: nat)
    requires IsWay(c, pos) && pos in Taken(th) && RelsOk(c, th.relations) && th.buffer == [] && HasArrived(th)
    requires th.pc.Busy? ==> IsRel(c, th.pc.pos) || (IsWay(c, th.pc.pos) && !HasArrived(th))
    requires (th.pc.Flushed? || th.pc.AtBarrier?) && th.pc.pending.Some? ==> IsRel(c, th.pc.pending.value)
    ensures exists i :: 0 <= i < |th.committed| && th.committed[i].pos == pos
  {
    assert Positions(th.buffer) == [];
    RelsAre(c, th.relations);
    assert pos !in th.relations;
    assert pos !in HeldPos(th.pc);
    assert pos in Positions(th.committed);
  }

  /** Once the barrier has released a thread, every way of the file is written. */
  lemma ReleasedMeansWritten(c: Config, s: State, t: nat, pos: nat)
    requires GoodConfig(c) && Inv(c, s) && t < c.wayThreads && (s.ways[t].phaseDone || s.ways[t].pc.WayGone?) && IsWay(c, pos)
    ensures WayWritten(c, s, pos)
  {
    hide Base, AllNodes, Owned, RowsOk, RelsOk, Taken, Arrived, ThreadsOk, MergeOk, ProducerOk, WayWritten, TypeSorted, Positions;
    assert WayThreadOk(c, s, t);
    ArrivalsSmall(c, s);
    AllArrived(s.ways);
    assert PcOk(c, Popped(c, s), Drained(s), Released(c, s), s.ways[t]);
    assert NoWaysFrom(c, Popped(c, s));
    BaseIs(c.file, pos);
    var b := Base(c.file);
    assert b <= pos < Popped(c, s);
    var u := s.owners[pos - b];
    OwnedIs(s.owners, b, u);
    assert WayThreadOk(c, s, u);
    ArrivedWrote(c, s, u, pos);
  }

  /** No relation is processed before every way of the file is written. */
  lemma RelationsAfterWays(c: Config, schedule: seq<Action>, t: nat, pos: nat)
    requires GoodConfig(c) && Run(c, schedule).Some? && t < c.wayThreads && IsWay(c, pos)
    ensures var s := Run(c, schedule).value; s.ways[t].phaseDone || s.ways[t].relations != [] ==> WayWritten(c, s, pos)
  {
    hide NodeInv, Run, TypeSorted, AllNodes, WayWritten, Arrived, IsWay;
    RunInv(c, schedule);
    var s := Run(c, schedule).value;
    assert Shape(c, s);
    assert WayThreadOk(c, s, t);
    if s.ways[t].phaseDone { ReleasedMeansWritten(c, s, t, pos); }
  }

  /** A way thread arrives at the barrier at most once, and has arrived when it returns. */
  lemma ArrivesOnce(c: Config, schedule: seq<Action>, t: nat)
    requires GoodConfig(c) && Run(c, schedule).Some? && t < c.wayThreads
    ensures var th := Run(c, schedule).value.ways[t];
      th.arrivals <= 1 && (th.arrivals == 1 <==> HasArrived(th)) && (th.pc.WayGone? ==> th.arrivals == 1)
  {
    hide NodeInv, WayInv, Run, TypeSorted;
    RunInv(c, schedule);
    ArrivalsSmall(c, Run(c, schedule).value);
  }

  // ---------------------------------------------------------------- the finished import

  /** Everything is stored once: each entry after the nodes by the one thread that popped it. */
  ghost predicate Imported(c: Config, s: State)
    requires Shape(c, s)
  {
    var b := Base(c.file);
    && s.merged == Some(AllNodes(c))
    && |s.owners| == |c.file| - b
    && forall t: nat :: t < c.wayThreads ==> Stored(c, s.ways[t], Owned(s.owners, b, t))
  }

  ghost predicate Stored(c: Config, th: WayThread, owned: seq<nat>)
    requires c.nodeThreads >= 1
  {
    && th.buffer == [] && th.arrivals == 1
    && Positions(th.committed) + th.relations == owned
    && RowsOk(c, AllNodes(c), th.committed) && RelsOk(c, th.relations)
  }

  lemma GoneStored(c: Config, s: State, t: nat)
    requires Shape(c, s) && t < c.wayThreads && WayThreadOk(c, s, t) && s.ways[t].pc.WayGone?
    ensures Stored(c, s.ways[t], Owned(s.owners, Base(c.file), t))
  {
    hide Base, AllNodes, Owned, RowsOk, RelsOk, Drained, Released, Popped;
    var th := s.ways[t];
    assert Positions(th.buffer) == [];
    assert Positions(th.committed) + [] + th.relations + [] == Positions(th.committed) + th.relations;
  }

  lemma DoneImported(c: Config, s: State)
    requires GoodConfig(c) && Inv(c, s) && s.pc.Done?
    ensures Imported(c, s)
  {
    hide Base, AllNodes, Owned, RowsOk, RelsOk, Taken, Arrived, PcOk, Positions, ThreadsOk, TypeSorted, NodeRecs, Stored;
    assert WayThreadOk(c, s, 0);
    DrainedAt(c, s);
    MergedAtDone(c, s);
    forall t: nat | t < c.wayThreads ensures Stored(c, s.ways[t], Owned(s.owners, Base(c.file), t)) {
      assert WayThreadOk(c, s, t);
      GoneStored(c, s, t);
    }
  }

  lemma DrainedAt(c: Config, s: State)
    requires Shape(c, s) && WayThreadOk(c, s, 0) && s.ways[0].pc.WayGone?
    ensures s.wayQueue == []
  {
    hide Base, AllNodes, Owned, RowsOk, RelsOk, Taken, NoWaysFrom, Released, Popped;
  }

  lemma MergedAtDone(c: Config, s: State)
    requires GoodConfig(c) && NodeInv(c, s) && s.pc.Done?
    ensures s.merged == Some(AllNodes(c))
  {
    hide Base, AllNodes, TypeSorted, NodeRecs, Deal, ProducerOk;
    assert ThreadOk(c, s, 0);
    assert s.nodes[0].pc.NodeGone?;
    MergedIsAll(c, s);
  }

  /** In a finished import each way and relation is in one thread's output, at one place. */
  lemma StoredOnce(c: Config, s: State, pos: nat, t: nat)
    requires Shape(c, s) && Imported(c, s) && t < c.wayThreads && (IsWay(c, pos) || IsRel(c, pos)) && Base(c.file) <= pos
    ensures var th := s.ways[t]; var mine := s.owners[pos - Base(c.file)] == t;
      && (IsWay(c, pos) ==> multiset(Positions(th.committed))[pos] == if mine then 1 else 0)
      && (IsRel(c, pos) ==> multiset(th.relations)[pos] == if mine then 1 else 0)
  {
    hide Base, AllNodes, Owned, RowsOk, RelsOk, Positions;
    var b, th := Base(c.file), s.ways[t];
    assert Stored(c, th, Owned(s.owners, b, t));
    OwnedIs(s.owners, b, t);
    AscendingCount(Owned(s.owners, b, t), pos);
    assert multiset(Positions(th.committed) + th.relations) == multiset(Positions(th.committed)) + multiset(th.relations);
    RelsAre(c, th.relations);
    RowsAre(c, AllNodes(c), th.committed);
    CountAbsent(th.relations, pos);
    CountAbsent(Positions(th.committed), pos);
  }

  lemma RelsAre(c: Config, rels: seq<nat>)
    requires RelsOk(c, rels)
    ensures forall p :: p in rels ==> IsRel(c, p)
  {
    hide IsRel;
  }

  lemma RowsAre(c: Config, store: seq<Rec>, rows: seq<WayRow>)
    requires RowsOk(c, store, rows)
    ensures forall p :: p in Positions(rows) ==> IsWay(c, p)
  {
    forall p | p in Positions(rows) ensures IsWay(c, p) {
      var k :| 0 <= k < |rows| && Positions(rows)[k] == p;
      assert RowOk(c, store, rows[k]);
    }
  }

  lemma CountAbsent(s: seq<nat>, x: nat)
    ensures multiset(s)[x] == 0 <==> x !in s
  {
    assert x in s <==> x in multiset(s);
  }

  lemma {:induction false} AscendingCount(s: seq<nat>, x: nat)
    requires forall i, j :: 0 <= i < j < |s| ==> s[i] < s[j]
    ensures multiset(s)[x] == if x in s then 1 else 0
  {
    if s != [] {
      var init := s[..|s| - 1];
      AscendingCount(init, x);
      assert s == init + [s[|s| - 1]];
    }
  }

  // ---------------------------------------------------------------- thread counts do not matter

  lemma LastOfDeal(c: Config, id: int)
    requires c.nodeThreads >= 1 && DistinctIds(NodeRecs(c.file))
    ensures LastOf(AllNodes(c), id) == LastOf(NodeRecs(c.file), id)
  {
    hide NodeRecs, DealAll, LastOf, DistinctIds;
    var a, b := AllNodes(c), NodeRecs(c.file);
    DealIsPermutation(b, c.nodeThreads);
    DistinctFromCounts(a, b);
    SameMembers(a, b);
    LastOfDistinct(a, id);
    LastOfDistinct(b, id);
    if LastOf(a, id).Some? { assert Rec(id, LastOf(a, id).value) in b; }
    if LastOf(b, id).Some? { assert Rec(id, LastOf(b, id).value) in a; }
  }

  /** With distinct node ids, a way's row is what the file alone determines. */
  lemma {:induction false} RowsDependOnFileOnly(c: Config, refs: seq<int>)
    requires c.nodeThreads >= 1 && DistinctIds(NodeRecs(c.file))
    ensures Resolve(c, AllNodes(c), refs) == Resolve(c, NodeRecs(c.file), refs)
  {
    hide AllNodes, NodeRecs, LastOf, DistinctIds;
    if refs != [] {
      LastOfDeal(c, refs[|refs| - 1]);
      RowsDependOnFileOnly(c, refs[..|refs| - 1]);
    }
  }
}
