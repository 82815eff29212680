/**
 The rows of a finished import against the node store (src/main.cpp, the way branch of
 `wayThread`; src/OSMMMap.cpp, `select`): each way's geometry is the one its references find
 in the merged file.
 */
module ImportRows {
  import opened Core
  import opened Geometry
  import opened Lists
  import opened Shards
  import opened ImportPipeline
  import opened PipelineNodes
  import opened PipelineWays
  import opened PipelineSafety
  import NodeStore

  /** A new merged file of this capacity: no record, and a bit for each. */
  ghost predicate EmptyStore(s: NodeStore.Store, capacity: nat) {
    && NodeStore.Valid(s) && NodeStore.Coverage(s) && NodeStore.Capacity(s) == capacity
    && forall id :: NodeStore.Select(s, id) == None
  }

  ghost predicate AllPlain(recs: seq<Rec>) { forall r :: r in recs ==> Plain(r) }

  /** The merged file the way threads look ids up in. */
  ghost function MergedFile(c: Config, s: NodeStore.Store): (m: NodeStore.Store)
    requires c.nodeThreads >= 1 && EmptyStore(s, c.idLimit) && AllPlain(AllNodes(c))
    ensures NodeStore.Valid(m)
  {
    MergeSelects(s, AllNodes(c), 0);
    MergeAll(s, AllNodes(c))
  }

  /** `coords` are the references that are found, in order: those at the positions `ks`. */
  ghost predicate FoundAt(m: NodeStore.Store, refs: seq<int>, ks: seq<nat>, coords: seq<Coord>)
    requires NodeStore.Valid(m)
  {
    && Ascends(ks, |refs|) && |coords| == |ks|
    && (forall i :: 0 <= i < |refs| ==> (i in ks <==> NodeStore.Select(m, refs[i]).Some?))
    && (forall j :: 0 <= j < |ks| ==> NodeStore.Select(m, refs[ks[j]]) == Some(coords[j]))
  }

  lemma FindIsSelect(c: Config, s: NodeStore.Store, id: int)
    requires c.nodeThreads >= 1 && EmptyStore(s, c.idLimit) && AllPlain(AllNodes(c))
    ensures Find(c, AllNodes(c), id) == NodeStore.Select(MergedFile(c, s), id)
  {
    hide NodeStore.Valid, NodeStore.Select, MergeAll, LastOf, AllNodes;
    MergeSelects(s, AllNodes(c), id);
  }

  lemma {:induction false} ResolveFinds(c: Config, s: NodeStore.Store, refs: seq<int>) returns (ks: seq<nat>)
    requires c.nodeThreads >= 1 && EmptyStore(s, c.idLimit) && AllPlain(AllNodes(c))
    ensures FoundAt(MergedFile(c, s), refs, ks, Resolve(c, AllNodes(c), refs))
  {
    hide NodeStore.Valid, NodeStore.Select, MergedFile, Find, AllNodes, EmptyStore, AllPlain;
    if refs == [] {
      ks := [];
    } else {
      var n := |refs| - 1;
      var init := ResolveFinds(c, s, refs[..n]);
      FindIsSelect(c, s, refs[n]);
      ks := if Find(c, AllNodes(c), refs[n]).Some? then init + [n] else init;
      OneMore(MergedFile(c, s), refs, init, Resolve(c, AllNodes(c), refs[..n]));
    }
  }

  lemma OneMore(m: NodeStore.Store, refs: seq<int>, ks: seq<nat>, coords: seq<Coord>)
    requires NodeStore.Valid(m) && refs != [] && FoundAt(m, refs[..|refs| - 1], ks, coords)
    ensures match NodeStore.Select(m, refs[|refs| - 1])
      case Some(at) => FoundAt(m, refs, ks + [|refs| - 1], coords + [at])
      case None => FoundAt(m, refs, ks, coords)
  {
    hide NodeStore.Valid, NodeStore.Select, Ascends;
    var n := |refs| - 1;
    AscendsMore(ks, n);
    assert forall i :: 0 <= i < n ==> refs[..n][i] == refs[i];
    assert forall j :: 0 <= j < |ks| ==> ks[j] in ks;
  }

  /** The thread that popped the way at `pos` wrote its row. */
  lemma WrittenRow(c: Config, schedule: seq<Action>, pos: nat) returns (t: nat)
    requires GoodConfig(c) && Run(c, schedule).Some? && Run(c, schedule).value.pc.Done?
    requires pos < |c.file| && c.file[pos].WayE?
    ensures t < c.wayThreads && RowFor(c, AllNodes(c), pos, c.file[pos].refs) in Run(c, schedule).value.ways[t].committed
  {
    hide Run, NodeInv, TypeSorted, AllNodes, RowFor, Arrived, WayThreadOk, Base, Owned, Stored;
    RunInv(c, schedule);
    var s := Run(c, schedule).value;
    DoneImported(c, s);
    AllGone(c, s);
    ReleasedMeansWritten(c, s, 0, pos);
    t :| t < c.wayThreads && RowFor(c, AllNodes(c), pos, c.file[pos].refs) in s.ways[t].committed;
  }

  lemma AllGone(c: Config, s: State)
    requires Shape(c, s) && WayInv(c, s) && s.pc.Done?
    ensures s.ways[0].pc.WayGone?
  {
    hide AllNodes, Base, Owned, WayThreadOk, Popped;
  }

  /**
   In a finished import the row of every way is the geometry of the coordinates that the
   merged file selects for its references, misses skipped, in reference order.
   */
  lemma ImportedRow(c: Config, schedule: seq<Action>, s: NodeStore.Store, pos: nat)
      returns (t: nat, row: WayRow, ks: seq<nat>, coords: seq<Coord>)
    requires GoodConfig(c) && Run(c, schedule).Some? && Run(c, schedule).value.pc.Done?
    requires EmptyStore(s, c.idLimit) && AllPlain(AllNodes(c)) && pos < |c.file| && c.file[pos].WayE?
    ensures t < c.wayThreads && row in Run(c, schedule).value.ways[t].committed && row.pos == pos
    ensures FoundAt(MergedFile(c, s), c.file[pos].refs, ks, coords) && Shaped(coords, row.geom)
  {
    hide Run, TypeSorted, AllNodes, EmptyStore, AllPlain, MergedFile, FoundAt;
    var refs := c.file[pos].refs;
    t := WrittenRow(c, schedule, pos);
    row := RowFor(c, AllNodes(c), pos, refs);
    ks := ResolveFinds(c, s, refs);
    coords := Resolve(c, AllNodes(c), refs);
    WayShapeIs(coords);
  }

  // ---------------------------------------------------------------- every reference in the file

  lemma {:induction false} NodeRecsHas(file: seq<Entry>, r: Rec)
    ensures r in NodeRecs(file) <==> NodeE(r) in file
  {
    if file != [] {
      var init, last := file[..|file| - 1], file[|file| - 1];
      NodeRecsHas(init, r);
      assert forall e :: e in file <==> e in init || e == last;
    }
  }

  lemma FindsIts(c: Config, r: Rec)
    requires c.nodeThreads >= 1 && DistinctIds(NodeRecs(c.file)) && NodeE(r) in c.file && 0 <= r.id < c.idLimit
    ensures Find(c, AllNodes(c), r.id) == Some(r.at)
  {
    hide AllNodes, NodeRecs, LastOf, DistinctIds;
    LastOfDeal(c, r.id);
    NodeRecsHas(c.file, r);
    LastOfDistinct(NodeRecs(c.file), r.id);
    assert Rec(r.id, r.at) == r;
  }

  lemma {:induction false} ResolvesAll(c: Config, refs: seq<int>, at: seq<Coord>)
    requires c.nodeThreads >= 1 && DistinctIds(NodeRecs(c.file)) && |at| == |refs|
    requires forall i :: 0 <= i < |refs| ==> NodeE(Rec(refs[i], at[i])) in c.file && 0 <= refs[i] < c.idLimit
    ensures Resolve(c, AllNodes(c), refs) == at
  {
    hide AllNodes, NodeRecs, DistinctIds, Find;
    if refs != [] {
      var n := |refs| - 1;
      ResolvesAll(c, refs[..n], at[..n]);
      FindsIts(c, Rec(refs[n], at[n]));
      assert at == at[..n] + [at[n]];
    }
  }

  /**
   With distinct node ids, a way all of whose references are nodes of the file, in range, is
   stored through exactly their coordinates: as many vertices as references, in order.
   */
  lemma FullRow(c: Config, schedule: seq<Action>, pos: nat, at: seq<Coord>) returns (t: nat, row: WayRow)
    requires GoodConfig(c) && Run(c, schedule).Some? && Run(c, schedule).value.pc.Done?
    requires pos < |c.file| && c.file[pos].WayE? && DistinctIds(NodeRecs(c.file)) && |at| == |c.file[pos].refs|
    requires forall i :: 0 <= i < |at| ==> NodeE(Rec(c.file[pos].refs[i], at[i])) in c.file && 0 <= c.file[pos].refs[i] < c.idLimit
    ensures t < c.wayThreads && row in Run(c, schedule).value.ways[t].committed && row.pos == pos && Shaped(at, row.geom)
  {
    hide Run, TypeSorted, AllNodes, DistinctIds, NodeRecs;
    t := WrittenRow(c, schedule, pos);
    row := RowFor(c, AllNodes(c), pos, c.file[pos].refs);
    ResolvesAll(c, c.file[pos].refs, at);
    WayShapeIs(at);
  }
}
