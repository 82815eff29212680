/**
 From the master to an installed database: every bundle is what some run of the exporter
 gathered, every region may have been exported with its own chunking, threads and schedules.
 */
module EndToEnd {
  import opened Core
  import opened Geometry
  import opened WorkPool
  import opened RegionalExport
  import opened Install
  import Ewkb

  /** One export run: its plan and the schedules of its two passes. */
  datatype Export = Export(plan: Plan, threads: nat, first: seq<nat>, second: seq<nat>)

  ghost predicate Completed(matches: (nat, Geom) -> bool, regions: nat, m: Master, r: nat, e: Export) {
    var p, threads, first, second := e.plan, e.threads, e.first, e.second;
    && GoodPlan(p) && Spans(p, m) && threads > 0
    && Drained(Run(Start(threads), p.nchunks, (ci: nat) => ParentChunk(matches, m, p, r, ci), first))
    && Drained(Run(Start(threads), p.nchunks, (ci: nat) => ChildChunk(matches, regions, m, p, r, ci), second))
  }

  /** The bundle is what the run's temp files hold, joined in chunk order. */
  ghost predicate MadeBy(matches: (nat, Geom) -> bool, regions: nat, m: Master, r: nat, e: Export, b: Bundle) {
    var p, threads, first, second := e.plan, e.threads, e.first, e.second;
    var parents := Run(Start(threads), p.nchunks, (ci: nat) => ParentChunk(matches, m, p, r, ci), first).results;
    var children := Run(Start(threads), p.nchunks, (ci: nat) => ChildChunk(matches, regions, m, p, r, ci), second).results;
    && (forall ci: nat :: ci < p.nchunks ==> ci in parents && ci in children)
    && b == Bundle(Gather(parents, p.nchunks), Gather(children, p.nchunks))
  }

  lemma MadeIsBundle(matches: (nat, Geom) -> bool, regions: nat, m: Master, r: nat, e: Export, b: Bundle)
    requires PrimaryKey(m.parents) && r < regions
    requires Completed(matches, regions, m, r, e) && MadeBy(matches, regions, m, r, e, b)
    ensures IsBundle(matches, m, r, b)
  {
    hide GoodPlan, Spans, Run, Gather, ExactParents, ExactChildren, ParentChunk, ChildChunk, PrimaryKey, Drained;
    ExportExact(matches, regions, m, e.plan, r, e.threads, e.first, e.second);
  }

  /**
   Export, then install: for any region test, any list of regions in any order and with
   repeats, each exported from one master snapshot by any completed run, the database holds
   exactly the master's matching rows and exactly their tags.
   */
  lemma ExportInstallExact(matches: (nat, Geom) -> bool, regions: nat, m: Master,
                           list: seq<nat>, exports: seq<Export>, bundles: seq<Bundle>)
    requires PrimaryKey(m.parents) && |list| == |exports| == |bundles|
    requires forall i :: 0 <= i < |list| ==> list[i] < regions
    requires forall i :: 0 <= i < |list| ==>
      Completed(matches, regions, m, list[i], exports[i]) && MadeBy(matches, regions, m, list[i], exports[i], bundles[i])
    ensures Holds(matches, m, list, InstallAll(Db(map[], multiset{}), bundles))
  {
    hide Completed, MadeBy, IsBundle, Holds, InstallAll, PrimaryKey;
    forall i | 0 <= i < |list| ensures IsBundle(matches, m, list[i], bundles[i]) {
      MadeIsBundle(matches, regions, m, list[i], exports[i], bundles[i]);
    }
    InstallExact(matches, m, list, bundles);
  }

  /** The geometry a master row holds, if it holds one that decodes. */
  ghost predicate HasGeometry(row: ParentRow, g: Option<Geom>, srid: nat) {
    match g
    case Some(shape) => Ewkb.Encodable(shape) && row.geog == Some(Ewkb.Encode(shape, Some(srid), Some(srid)))
    case None => row.geog.None? || Ewkb.DecodeOne(row.geog.value).None?
  }

  lemma MatchIs(matches: (nat, Geom) -> bool, r: nat, row: ParentRow, g: Option<Geom>, srid: nat)
    requires HasGeometry(row, g, srid) && srid < 0x8000_0000
    ensures RowMatches(matches, r, row) <==> g.Some? && matches(r, g.value)
  {
    hide Ewkb.Encode, Ewkb.DecodeOne, Ewkb.Encodable;
    if g.Some? {
      Ewkb.RoundTrip(g.value, Some(srid), Some(srid), []);
      assert row.geog.value + [] == row.geog.value;
    }
  }

  /**
   The installed database, row by row: a master row is there exactly when its geometry matches
   one of the regions, as the master has it, and each tag row of those as often as in the master.
   */
  lemma InstalledIff(matches: (nat, Geom) -> bool, regions: nat, m: Master, list: seq<nat>, exports: seq<Export>,
                     bundles: seq<Bundle>, geoms: seq<Option<Geom>>, srid: nat)
    requires PrimaryKey(m.parents) && |list| == |exports| == |bundles| && |geoms| == |m.parents| && srid < 0x8000_0000
    requires forall i :: 0 <= i < |m.parents| ==> HasGeometry(m.parents[i], geoms[i], srid)
    requires forall i :: 0 <= i < |list| ==> list[i] < regions
    requires forall i :: 0 <= i < |list| ==>
      Completed(matches, regions, m, list[i], exports[i]) && MadeBy(matches, regions, m, list[i], exports[i], bundles[i])
    ensures var db := InstallAll(Db(map[], multiset{}), bundles);
      && (forall i :: 0 <= i < |m.parents| ==>
            (m.parents[i].id in db.parents <==> geoms[i].Some? && exists r :: r in list && matches(r, geoms[i].value)))
      && (forall id :: id in db.parents ==> db.parents[id].id == id && db.parents[id] in m.parents)
      && (forall c :: db.children[c] == if c.id in db.parents then multiset(m.children)[c] else 0)
  {
    hide Completed, MadeBy, InstallAll, HasGeometry, RowMatches, PrimaryKey;
    ExportInstallExact(matches, regions, m, list, exports, bundles);
    var db := InstallAll(Db(map[], multiset{}), bundles);
    forall i | 0 <= i < |m.parents|
      ensures m.parents[i].id in db.parents <==> geoms[i].Some? && exists r :: r in list && matches(r, geoms[i].value)
    {
      InSomeIs(matches, m, list, geoms, srid, i);
    }
  }

  lemma InSomeIs(matches: (nat, Geom) -> bool, m: Master, list: seq<nat>, geoms: seq<Option<Geom>>, srid: nat, i: nat)
    requires PrimaryKey(m.parents) && |geoms| == |m.parents| && srid < 0x8000_0000 && i < |m.parents|
    requires forall k :: 0 <= k < |m.parents| ==> HasGeometry(m.parents[k], geoms[k], srid)
    ensures InSome(matches, m, list, m.parents[i].id) <==> geoms[i].Some? && exists r :: r in list && matches(r, geoms[i].value)
  {
    hide HasGeometry, RowMatches;
    forall r ensures ParentMatches(matches, m, r, m.parents[i].id) <==> geoms[i].Some? && matches(r, geoms[i].value) {
      MatchIs(matches, r, m.parents[i], geoms[i], srid);
      if ParentMatches(matches, m, r, m.parents[i].id) {
        var row :| row in m.parents && row.id == m.parents[i].id && RowMatches(matches, r, row);
        var k :| 0 <= k < |m.parents| && m.parents[k] == row;
        assert k == i;
      }
      assert m.parents[i] in m.parents;
    }
  }
}
