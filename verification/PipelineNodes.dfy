/**
 The node half of the import pipeline: what every interleaving keeps until the merge, and
 that the merged store holds every node of the file.
 */
module PipelineNodes {
  import opened Core
  import opened Shards
  import opened ImportPipeline

  function NodeRecs(file: seq<Entry>): seq<Rec> {
    if file == [] then []
    else NodeRecs(file[..|file| - 1]) + RecOf(file[|file| - 1])
  }

  function RecOf(e: Entry): seq<Rec> { match e case NodeE(rec) => [rec] case _ => [] }

  /** How many nodes a type-sorted file starts with. */
  function Base(file: seq<Entry>): (b: nat)
    ensures b <= |file|
  {
    if file == [] || !file[0].NodeE? then 0 else 1 + Base(file[1..])
  }

  lemma {:induction false} BaseIs(file: seq<Entry>, i: nat)
    requires TypeSorted(file) && i < |file|
    ensures file[i].NodeE? <==> i < Base(file)
  {
    if !file[0].NodeE? {
      assert Rank(file[0]) <= Rank(file[i]) by { if i > 0 {} }
    } else if i > 0 {
      assert file[i] == file[1..][i - 1];
      BaseIs(file[1..], i - 1);
    }
  }

  lemma NextRec(file: seq<Entry>, k: nat)
    requires k < |file|
    ensures NodeRecs(file[..k + 1]) == NodeRecs(file[..k]) + RecOf(file[k])
  {
    assert file[..k + 1][..k] == file[..k];
  }

  lemma {:induction false} NoMoreRecs(file: seq<Entry>, k: nat)
    requires TypeSorted(file) && Base(file) <= k <= |file|
    ensures NodeRecs(file[..k]) == NodeRecs(file)
    decreases |file| - k
  {
    hide TypeSorted, Base, NodeRecs;
    if k == |file| {
      assert file[..k] == file;
    } else {
      BaseIs(file, k);
      NextRec(file, k);
      NoMoreRecs(file, k + 1);
    }
  }

  // ---------------------------------------------------------------- one thread

  function Held(pc: NodePc): seq<Rec> { match pc case Holding(rec) => [rec] case _ => [] }

  /** Nothing dealt to a thread is lost, repeated or out of order. */
  ghost predicate NodeOk(dealt: seq<Rec>, t: nat, closed: nat, merged: bool, th: NodeThread, queue: seq<Rec>) {
    && th.shard + Held(th.pc) + queue == dealt
    && (th.pc.Leaving? || th.pc.Waiting? || th.pc.NodeGone? ==> queue == [] && t < closed)
    && (th.pc.NodeGone? ==> merged)
  }

  function Dealt(c: Config, s: State, t: nat): seq<Rec>
    requires Shape(c, s)
  {
    Deal(NodeRecs(c.file[..s.next]), c.nodeThreads, t)
  }

  ghost predicate ThreadOk(c: Config, s: State, t: nat)
    requires Shape(c, s) && t < c.nodeThreads
  {
    NodeOk(Dealt(c, s, t), t, s.closed, s.merged.Some?, s.nodes[t], s.queues[t])
  }

  ghost predicate ThreadsOk(c: Config, s: State)
    requires Shape(c, s)
  {
    forall t: nat :: t < c.nodeThreads ==> ThreadOk(c, s, t)
  }

  // ---------------------------------------------------------------- the invariant

  ghost predicate ProducerOk(c: Config, s: State)
    requires Shape(c, s)
  {
    var b := Base(c.file);
    && s.rr == |NodeRecs(c.file[..s.next])|
    && (s.pc.Reading? ==> s.closed == 0)
    && (s.pc.Reading? || s.pc.Closing? || s.pc.Spinning? ==> s.next <= b)
    && (!s.pc.Reading? ==> s.next >= b)
    && (!s.pc.Reading? && !s.pc.Closing? && !s.pc.Ending? ==> s.closed == c.nodeThreads)
    && (s.pc.Feeding? || s.next > b ==> s.merged.Some?)
    && (s.pc.Ending? || s.pc.JoiningNodes? || s.pc.JoiningWays? || s.pc.Done? ==> s.next == |c.file|)
  }

  ghost predicate AllGone(s: State) {
    forall t: nat :: t < |s.nodes| ==> s.nodes[t].pc.NodeGone?
  }

  ghost predicate MergeOk(s: State) {
    && (s.merged.Some? ==> s.merged.value == Flatten(ShardsOf(s.nodes)))
    && (s.merged.Some? ==> forall t: nat :: t < |s.nodes| ==> s.nodes[t].pc.Waiting? || s.nodes[t].pc.NodeGone?)
    && (s.pc.JoiningWays? || s.pc.Done? ==> AllGone(s))
  }

  ghost predicate NodeInv(c: Config, s: State) {
    Shape(c, s) && ProducerOk(c, s) && ThreadsOk(c, s) && MergeOk(s)
  }

  lemma NodeInvStart(c: Config)
    requires GoodConfig(c)
    ensures Shape(c, Start(c)) && NodeInv(c, Start(c))
  {
    hide TypeSorted, Base;
    var s := Start(c);
    assert c.file[..0] == [];
    forall t: nat | t < c.nodeThreads ensures ThreadOk(c, s, t) {
      assert Deal([], c.nodeThreads, t) == [];
    }
  }

  /** Handing out the next node extends one thread's deal by it. */
  lemma DealNext(c: Config, s: State, t: nat)
    requires Shape(c, s) && s.next < |c.file| && t < c.nodeThreads && c.file[s.next].NodeE?
    requires s.rr == |NodeRecs(c.file[..s.next])|
    ensures var rec := c.file[s.next].rec;
      Deal(NodeRecs(c.file[..s.next + 1]), c.nodeThreads, t)
        == Dealt(c, s, t) + (if Turn(s.rr, c.nodeThreads) == t then [rec] else [])
  {
    hide Turn, NodeRecs;
    NextRec(c.file, s.next);
    var recs := NodeRecs(c.file[..s.next]);
    var rec := c.file[s.next].rec;
    assert (recs + [rec])[..|recs|] == recs;
  }

  lemma ReadKeeps(c: Config, s: State)
    requires GoodConfig(c) && NodeInv(c, s) && s.pc.Reading? && Read(c, s).Some?
    ensures NodeInv(c, Read(c, s).value)
  {
    hide NodeRecs, Base, TypeSorted, Turn, Deal, NodeOk, Held;
    var r := Read(c, s).value;
    if s.next == |c.file| {
      SameThreads(c, s, r);
    } else {
      BaseIs(c.file, s.next);
      if c.file[s.next].NodeE? {
        NextRec(c.file, s.next);
        forall t: nat | t < c.nodeThreads ensures ThreadOk(c, r, t) {
          assert ThreadOk(c, s, t);
          DealNext(c, s, t);
          PushOk(Dealt(c, s, t), t, s.closed, s.merged.Some?, s.nodes[t], s.queues[t], c.file[s.next].rec);
          assert Dealt(c, s, t) + [] == Dealt(c, s, t);
          assert Dealt(c, r, t) == Dealt(c, s, t) + (if Turn(s.rr, c.nodeThreads) == t then [c.file[s.next].rec] else []);
        }
        NoneMerged(c, s);
      } else {
        SameThreads(c, s, r);
      }
    }
  }

  /** While node queues are open no thread has reached the barrier. */
  lemma NoneMerged(c: Config, s: State)
    requires NodeInv(c, s) && s.closed == 0
    ensures s.merged.None?
  {
    hide Base, NodeRecs, Deal;
    assert ThreadOk(c, s, 0);
  }

  lemma PushOk(dealt: seq<Rec>, t: nat, closed: nat, merged: bool, th: NodeThread, queue: seq<Rec>, rec: Rec)
    requires NodeOk(dealt, t, closed, merged, th, queue) && closed == 0
    ensures NodeOk(dealt + [rec], t, closed, merged, th, queue + [rec])
  {
    assert th.shard + Held(th.pc) + (queue + [rec]) == (th.shard + Held(th.pc) + queue) + [rec];
  }

  /** Steps that leave the node side alone, or only close queues or merge. */
  lemma SameThreads(c: Config, s: State, r: State)
    requires Shape(c, s) && Shape(c, r) && ThreadsOk(c, s)
    requires r.nodes == s.nodes && r.queues == s.queues && r.closed >= s.closed && (s.merged.Some? ==> r.merged.Some?)
    requires NodeRecs(c.file[..r.next]) == NodeRecs(c.file[..s.next])
    ensures ThreadsOk(c, r)
  {
    hide NodeRecs, Deal, Held;
    forall t: nat | t < c.nodeThreads ensures ThreadOk(c, r, t) { assert ThreadOk(c, s, t); }
  }

  lemma ProducerKeeps(c: Config, s: State)
    requires GoodConfig(c) && NodeInv(c, s) && Producer(c, s).Some?
    ensures NodeInv(c, Producer(c, s).value)
  {
    hide NodeRecs, Base, TypeSorted, Read, Deal, NodeOk;
    if s.pc.Reading? {
      ReadKeeps(c, s);
    } else {
      var r := Producer(c, s).value;
      if r.next == s.next + 1 {
        NoMoreRecs(c.file, s.next);
        NoMoreRecs(c.file, s.next + 1);
      }
      SameThreads(c, s, r);
    }
  }

  lemma NodeMoveOk(c: Config, s: State, t: nat)
    requires NodeInv(c, s) && t < c.nodeThreads && NodeStep(c, s, t).Some?
    ensures var r := NodeStep(c, s, t).value; Shape(c, r) && ThreadOk(c, r, t)
  {
    hide NodeRecs, Base, Deal;
    var r, th := NodeStep(c, s, t).value, s.nodes[t];
    assert ThreadOk(c, s, t);
    if th.pc.Popping? && s.queues[t] != [] {
      assert s.queues[t] == [s.queues[t][0]] + s.queues[t][1..];
    }
  }

  lemma NodeStepKeeps(c: Config, s: State, t: nat)
    requires NodeInv(c, s) && t < c.nodeThreads && NodeStep(c, s, t).Some?
    ensures NodeInv(c, NodeStep(c, s, t).value)
  {
    hide NodeRecs, Base, Deal, NodeOk;
    var r := NodeStep(c, s, t).value;
    NodeMoveOk(c, s, t);
    forall u: nat | u < c.nodeThreads ensures ThreadOk(c, r, u) {
      if u != t { assert ThreadOk(c, s, u); }
    }
    if s.merged.Some? {
      assert r.nodes[t].shard == s.nodes[t].shard;
      assert ShardsOf(r.nodes) == ShardsOf(s.nodes);
    }
  }

  lemma MergeKeeps(c: Config, s: State)
    requires NodeInv(c, s) && MergeStep(c, s).Some?
    ensures NodeInv(c, MergeStep(c, s).value)
  {
    hide NodeRecs, Base, Deal, NodeOk;
    SameThreads(c, s, MergeStep(c, s).value);
  }

  /** Steps of way threads touch nothing on the node side. */
  lemma WayStepsKeep(c: Config, s: State, r: State)
    requires NodeInv(c, s) && Shape(c, r)
    requires r == s.(wayQueue := r.wayQueue, ways := r.ways, owners := r.owners)
    ensures NodeInv(c, r)
  {
    hide NodeRecs, Base, Deal, NodeOk;
    SameThreads(c, s, r);
  }

  lemma NodeInvKept(c: Config, s: State, a: Action)
    requires GoodConfig(c) && NodeInv(c, s) && Step(c, s, a).Some?
    ensures NodeInv(c, Step(c, s, a).value)
  {
    hide NodeInv, GoodConfig, Producer, NodeStep, MergeStep, WayMove, Flush;
    assert Shape(c, s) by { ShapeOf(c, s); }
    match a
    case Produce => ProducerKeeps(c, s);
    case NodeAct(t) => NodeStepKeeps(c, s, t);
    case Merge => MergeKeeps(c, s);
    case WayAct(t) => WayStepsKeep(c, s, Step(c, s, a).value);
    case Spill(t) => WayStepsKeep(c, s, Step(c, s, a).value);
  }

  lemma ShapeOf(c: Config, s: State)
    requires NodeInv(c, s)
    ensures Shape(c, s)
  {
    hide ProducerOk, ThreadsOk, MergeOk;
  }

  // ---------------------------------------------------------------- the merged store

  lemma {:induction false} FlattenDeals(c: Config, recs: seq<Rec>, shards: seq<seq<Rec>>, k: nat)
    requires c.nodeThreads > 0 && k <= |shards| <= c.nodeThreads
    requires forall t: nat :: t < |shards| ==> shards[t] == Deal(recs, c.nodeThreads, t)
    ensures Flatten(shards[..k]) == DealAll(recs, c.nodeThreads, k)
  {
    hide Deal, Flatten;
    if k > 0 {
      FlattenDeals(c, recs, shards, k - 1);
      assert shards[..k] == shards[..k - 1] + [shards[k - 1]];
      FlattenSnoc(shards[..k - 1], shards[k - 1]);
    } else {
      assert shards[..0] == [];
      EmptyFlat();
    }
  }

  lemma EmptyFlat()
    ensures Flatten<Rec>([]) == []
  {}

  /** Every node of the file, in shard order. */
  function AllNodes(c: Config): seq<Rec>
    requires c.nodeThreads >= 1
  {
    DealAll(NodeRecs(c.file), c.nodeThreads, c.nodeThreads)
  }

  /** Once merged, the store holds every node of the file, each once. */
  lemma MergedIsAll(c: Config, s: State)
    requires GoodConfig(c) && NodeInv(c, s) && s.merged.Some?
    ensures s.merged.value == AllNodes(c) && multiset(s.merged.value) == multiset(NodeRecs(c.file))
  {
    hide NodeRecs, Base, TypeSorted, Deal, DealAll;
    var shards := ShardsOf(s.nodes);
    assert ThreadOk(c, s, 0);
    NoMoreRecs(c.file, s.next);
    forall t: nat | t < |shards| ensures shards[t] == Deal(NodeRecs(c.file), c.nodeThreads, t) {
      assert ThreadOk(c, s, t);
    }
    FlattenDeals(c, NodeRecs(c.file), shards, |shards|);
    assert shards[..|shards|] == shards;
    DealIsPermutation(NodeRecs(c.file), c.nodeThreads);
  }
}
