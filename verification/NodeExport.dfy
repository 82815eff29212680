/**
 The regional node files (src/regional_export.cpp): a parallel scan of the planet node
 store that keeps, per region, the nodes inside the region's polygon and the vertices of
 exported geometries that lie outside it (src/regional_db_export.cpp, extra vertices).
 */
module NodeExport {
  import opened Core
  import opened Geometry
  import opened Lists
  import opened WorkPool
  import opened NodeStore
  import opened Scan
  import NodeFile
  import RegionalExport
  import Ewkb

  // ---------------------------------------------------------------- extra vertices

  /** Vertices of a matched row outside the region's own polygon. */
  function OutsideVertices(matches: (nat, Geom) -> bool, r: nat, row: RegionalExport.ParentRow): seq<Coord> {
    if RegionalExport.RowMatches(matches, r, row)
    then Filter(Vertices(RegionalExport.Decoded(row).value), (v: Coord) => !matches(r, Point(v)))
    else []
  }

  function ExtraChunk(matches: (nat, Geom) -> bool, r: nat, rows: seq<RegionalExport.ParentRow>): seq<Coord> {
    if rows == [] then []
    else ExtraChunk(matches, r, rows[..|rows| - 1]) + OutsideVertices(matches, r, rows[|rows| - 1])
  }

  /** One pair's extra vertices for region `r`: its chunks' temp files, appended. */
  function ExtraResults(matches: (nat, Geom) -> bool, m: RegionalExport.Master, p: RegionalExport.Plan, r: nat): map<nat, seq<Coord>> {
    map ci: nat | ci < p.nchunks :: ExtraChunk(matches, r, RegionalExport.ParentsOf(m, p, ci))
  }

  lemma {:induction false} ExtraChunkHas(matches: (nat, Geom) -> bool, r: nat, rows: seq<RegionalExport.ParentRow>,
                                         row: RegionalExport.ParentRow, v: Coord)
    requires row in rows && v in OutsideVertices(matches, r, row)
    ensures v in ExtraChunk(matches, r, rows)
  {
    hide OutsideVertices;
    if row != rows[|rows| - 1] { ExtraChunkHas(matches, r, rows[..|rows| - 1], row, v); }
  }

  lemma {:induction false} GatherHas<T>(results: map<nat, seq<T>>, n: nat, ci: nat, x: T)
    requires forall k: nat :: k < n ==> k in results
    requires ci < n && x in results[ci]
    ensures x in RegionalExport.Gather(results, n)
  {
    if ci < n - 1 { GatherHas(results, n - 1, ci, x); }
  }

  /** Every outside vertex of every exported row reaches the region's extra-vertex file. */
  lemma ExtraComplete(matches: (nat, Geom) -> bool, m: RegionalExport.Master, p: RegionalExport.Plan, r: nat,
                      row: RegionalExport.ParentRow, v: Coord)
    requires RegionalExport.GoodPlan(p) && RegionalExport.Spans(p, m)
    requires row in m.parents && RegionalExport.RowMatches(matches, r, row)
    requires v in Vertices(RegionalExport.Decoded(row).value) && !matches(r, Point(v))
    ensures v in RegionalExport.Gather(ExtraResults(matches, m, p, r), p.nchunks)
  {
    hide RegionalExport.InWindow, RegionalExport.GoodPlan, RegionalExport.Decoded, RegionalExport.Gather, Vertices, ExtraChunk;
    RegionalExport.WindowIs(p, 0, row.id);
    var ci := RegionalExport.ChunkOf(p, row.id);
    RegionalExport.WindowIs(p, ci, row.id);
    FilterIn(m.parents, (x: RegionalExport.ParentRow) => RegionalExport.InWindow(p, ci, x.id), row);
    FilterIn(Vertices(RegionalExport.Decoded(row).value), (w: Coord) => !matches(r, Point(w)), v);
    ExtraChunkHas(matches, r, RegionalExport.ParentsOf(m, p, ci), row, v);
    GatherHas(ExtraResults(matches, m, p, r), p.nchunks, ci, v);
  }

  /** The coordinate is a record of region `r`, one of the first `n` extra-vertex files. */
  predicate InFile(files: seq<seq<Coord>>, n: nat, c: Coord, r: nat)
    requires n <= |files|
  {
    r < n && c in files[r]
  }

  /** `loadExtraVertices`: bits ORed into a hash keyed by the exact coordinate words. */
  method LoadExtraVertices(files: seq<seq<Coord>>) returns (extra: map<Coord, set<nat>>)
    ensures forall c: Coord, r: nat :: r in MaskAt(extra, c) <==> InFile(files, |files|, c, r)
    ensures forall c: Coord, r: nat :: r in MaskAt(extra, c) ==> r < |files| && c in files[r]
    ensures forall r, i :: 0 <= r < |files| && 0 <= i < |files[r]| ==> files[r][i] in extra && r in extra[files[r][i]]
  {
    extra := map[];
    assert forall c: Coord, r: nat :: r !in MaskAt(extra, c);
    for ri := 0 to |files|
      invariant forall c: Coord, r: nat :: r in MaskAt(extra, c) <==> InFile(files, ri, c, r)
    {
      extra := LoadOne(extra, files[ri], ri);
    }
    forall r, i | 0 <= r < |files| && 0 <= i < |files[r]| ensures files[r][i] in extra && r in extra[files[r][i]] {
      assert InFile(files, |files|, files[r][i], r);
    }
  }

  method LoadOne(before: map<Coord, set<nat>>, file: seq<Coord>, ri: nat) returns (extra: map<Coord, set<nat>>)
    ensures forall c: Coord, r: nat :: r in MaskAt(extra, c) <==> r in MaskAt(before, c) || (r == ri && c in file)
  {
    extra := before;
    for i := 0 to |file|
      invariant forall c: Coord, r: nat :: r in MaskAt(extra, c) <==> r in MaskAt(before, c) || (r == ri && c in file[..i])
    {
      assert file[..i + 1] == file[..i] + [file[i]];
      ghost var was := extra;
      extra := extra[file[i] := MaskAt(extra, file[i]) + {ri}];
      assert forall c: Coord :: MaskAt(extra, c) == if c == file[i] then MaskAt(was, c) + {ri} else MaskAt(was, c);
    }
    assert file[..|file|] == file;
  }

  function MaskAt(extra: map<Coord, set<nat>>, c: Coord): set<nat> { if c in extra then extra[c] else {} }

  // ---------------------------------------------------------------- the scan

  predicate Accepts(matches: (nat, Geom) -> bool, extra: map<Coord, set<nat>>, r: nat, rec: Rec) {
    matches(r, Point(rec.at)) || r in MaskAt(extra, rec.at)
  }

  /** One node: the polygon test first, then only the extra bits it did not already set. */
  method ClassifyNode(matches: (nat, Geom) -> bool, extra: map<Coord, set<nat>>, regions: nat, rec: Rec, out: seq<seq<Rec>>)
    returns (now: seq<seq<Rec>>)
    requires |out| == regions
    ensures |now| == regions
    ensures forall r :: 0 <= r < regions ==>
              now[r] == out[r] + if matches(r, Point(rec.at)) || (rec.at in extra && r in extra[rec.at]) then [rec] else []
  {
    now := out;
    var polymask: set<nat> := {};
    for ri := 0 to regions
      invariant |now| == regions
      invariant forall r: nat :: r in polymask <==> r < ri && matches(r, Point(rec.at))
      invariant forall r :: 0 <= r < regions ==>
                  now[r] == out[r] + if r < ri && matches(r, Point(rec.at)) then [rec] else []
    {
      if matches(ri, Point(rec.at)) {
        polymask := polymask + {ri};
        now := now[ri := now[ri] + [rec]];
      }
    }
    var extraOnly := MaskAt(extra, rec.at) - polymask;
    ghost var mid := now;
    for ri := 0 to regions
      invariant |now| == regions
      invariant forall r :: 0 <= r < regions ==>
                  now[r] == mid[r] + if r < ri && r in extraOnly then [rec] else []
    {
      if ri in extraOnly { now := now[ri := now[ri] + [rec]]; }
    }
  }

  /** Bytes `[0, used)` of the bitmap cut into `nchunks` windows. */
  datatype ScanPlan = ScanPlan(used: nat, nchunks: nat, width: nat)

  predicate GoodScan(p: ScanPlan) {
    p.nchunks > 0 && p.width == (p.used + p.nchunks - 1) / p.nchunks
  }

  function Min(a: nat, b: nat): nat { if a < b then a else b }

  function ScanChunk(matches: (nat, Geom) -> bool, extra: map<Coord, set<nat>>, s: Store, p: ScanPlan, r: nat, ci: nat): seq<Rec>
    requires Valid(s)
  {
    Filter(Populated(s, 8 * Min(ci * p.width, p.used), 8 * Min((ci + 1) * p.width, p.used)),
           (rec: Rec) => Accepts(matches, extra, r, rec))
  }

  /** The bound taken from the highest populated id. */
  function RealBytes(s: Store, highest: int): nat
    requires highest >= -1
  {
    if highest < 0 then |s.bitmap| else Min(|s.bitmap|, highest / 8 + 1)
  }

  lemma {:induction false} FilterConcat<T>(a: seq<T>, b: seq<T>, p: T -> bool)
    ensures Filter(a + b, p) == Filter(a, p) + Filter(b, p)
  {
    if b == [] {
      assert a + b == a;
    } else {
      var init, last := b[..|b| - 1], b[|b| - 1];
      FilterConcat(a, init, p);
      assert a + b == (a + init) + [last];
      FilterSnoc(a + init, last, p);
    }
  }

  function RegionFile(matches: (nat, Geom) -> bool, extra: map<Coord, set<nat>>, s: Store, r: nat): seq<Rec>
    requires Valid(s)
  {
    Filter(Populated(s, 0, 8 * |s.bitmap|), (rec: Rec) => Accepts(matches, extra, r, rec))
  }

  lemma {:induction false} GatherScan(matches: (nat, Geom) -> bool, extra: map<Coord, set<nat>>, s: Store, p: ScanPlan,
                                      r: nat, results: map<nat, seq<Rec>>, n: nat)
    requires Valid(s) && n <= p.nchunks
    requires forall ci: nat :: ci < p.nchunks ==> ci in results && results[ci] == ScanChunk(matches, extra, s, p, r, ci)
    ensures RegionalExport.Gather(results, n)
         == Filter(Populated(s, 0, 8 * Min(n * p.width, p.used)), (rec: Rec) => Accepts(matches, extra, r, rec))
  {
    hide Valid, Populated, Accepts;
    if n == 0 {
      assert 0 * p.width == 0;
      NothingScanned(s, matches, extra, r);
    } else {
      GatherScan(matches, extra, s, p, r, results, n - 1);
      var a, b := Min((n - 1) * p.width, p.used), Min(n * p.width, p.used);
      assert a <= b by { assert n * p.width == (n - 1) * p.width + p.width; }
      PopulatedSplit(s, 0, 8 * a, 8 * b);
      FilterConcat(Populated(s, 0, 8 * a), Populated(s, 8 * a, 8 * b), (rec: Rec) => Accepts(matches, extra, r, rec));
      assert n - 1 + 1 == n;
    }
  }

  lemma NothingScanned(s: Store, matches: (nat, Geom) -> bool, extra: map<Coord, set<nat>>, r: nat)
    requires Valid(s)
    ensures Filter(Populated(s, 0, 8 * 0), (rec: Rec) => Accepts(matches, extra, r, rec)) == []
  {}

  lemma ScanReaches(p: ScanPlan)
    requires GoodScan(p)
    ensures p.nchunks * p.width >= p.used
  {
    if p.used > 0 { RegionalExport.DivUp(p.used, p.nchunks, p.width); }
    else { RegionalExport.MulNonNegative(p.nchunks, p.width); }
  }

  /** Stopping after the highest populated id loses nothing. */
  lemma RealBytesLoseNothing(s: Store, highest: int)
    requires Valid(s) && highest >= -1 && (highest >= 0 ==> BitGet(s.bitmap, highest))
    requires forall id :: BitGet(s.bitmap, id) ==> id <= highest
    ensures Populated(s, 0, 8 * RealBytes(s, highest)) == Populated(s, 0, 8 * |s.bitmap|)
  {
    hide Valid, BitGet;
    var used := RealBytes(s, highest);
    assert highest >= 0 ==> highest < 8 * (highest / 8 + 1);
    forall id | BitGet(s.bitmap, id) ensures id < 8 * used { BitInBitmap(s, id); }
    PopulatedBound(s, 0, 8 * used, 8 * |s.bitmap|);
  }

  lemma BitInBitmap(s: Store, id: int)
    requires BitGet(s.bitmap, id)
    ensures id < 8 * |s.bitmap|
  {}

  lemma RegionFileAccepted(matches: (nat, Geom) -> bool, extra: map<Coord, set<nat>>, s: Store, r: nat)
    requires Valid(s)
    ensures Ascending(RegionFile(matches, extra, s, r))
    ensures forall id :: NodeFile.Lookup(RegionFile(matches, extra, s, r), id) ==
              match Select(s, id)
              case Some(at) => if Accepts(matches, extra, r, Rec(id, at)) then Some(at) else None
              case None => None
  {
    hide Valid, Populated, Accepts, Select;
    var all := Populated(s, 0, 8 * |s.bitmap|);
    var p := (rec: Rec) => Accepts(matches, extra, r, rec);
    var file := RegionFile(matches, extra, s, r);
    PopulatedExact(s, 0, 8 * |s.bitmap|);
    FilterAscending(all, p);
    forall id ensures NodeFile.Lookup(file, id) ==
              match Select(s, id)
              case Some(at) => if Accepts(matches, extra, r, Rec(id, at)) then Some(at) else None
              case None => None
    {
      if Select(s, id).Some? && Accepts(matches, extra, r, Rec(id, Select(s, id).value)) {
        var rec := Rec(id, Select(s, id).value);
        SelectedInRange(s, id);
        assert rec in all;
        FilterIn(all, p, rec);
        var i :| 0 <= i < |file| && file[i] == rec;
        NodeFile.LookupAt(file, i);
      } else {
        forall i | 0 <= i < |file| ensures file[i].id != id { FilterIn(all, p, file[i]); }
        NodeFile.LookupNone(file, id);
      }
    }
  }

  /** The region's file answers for the populated ids inside the polygon or on an extra vertex. */
  lemma RegionFileExact(matches: (nat, Geom) -> bool, extra: map<Coord, set<nat>>, s: Store, r: nat)
    requires Valid(s)
    ensures Ascending(RegionFile(matches, extra, s, r))
    ensures forall id :: NodeFile.Lookup(RegionFile(matches, extra, s, r), id) ==
              match Select(s, id)
              case Some(at) => if matches(r, Point(at)) || (at in extra && r in extra[at]) then Some(at) else None
              case None => None
  {
    hide Valid, Populated, Accepts, Select, RegionFile;
    RegionFileAccepted(matches, extra, s, r);
    forall rec ensures Accepts(matches, extra, r, rec) <==> matches(r, Point(rec.at)) || (rec.at in extra && r in extra[rec.at]) {
      AcceptsIs(matches, extra, r, rec);
    }
  }

  lemma AcceptsIs(matches: (nat, Geom) -> bool, extra: map<Coord, set<nat>>, r: nat, rec: Rec)
    ensures Accepts(matches, extra, r, rec) <==> matches(r, Point(rec.at)) || (rec.at in extra && r in extra[rec.at])
  {}

  lemma SelectedInRange(s: Store, id: int)
    requires Valid(s) && Select(s, id).Some?
    ensures 0 <= id < 8 * |s.bitmap|
  {}

  lemma {:induction false} FilterAscending(recs: seq<Rec>, p: Rec -> bool)
    requires Ascending(recs)
    ensures Ascending(Filter(recs, p))
  {
    if recs != [] {
      var init, last := recs[..|recs| - 1], recs[|recs| - 1];
      FilterAscending(init, p);
      var f := Filter(init, p);
      forall i | 0 <= i < |f| ensures f[i].id < last.id {
        FilterIn(init, p, f[i]);
        var j :| 0 <= j < |init| && init[j] == f[i];
        assert recs[j].id < last.id;
      }
    }
  }

  /**
   For any thread count, chunk count and schedule, a region's file holds, strictly ascending,
   exactly the populated ids that the polygon test or the extra-vertex mask accepts, and
   looking an id up in it is looking it up in the planet store, restricted to those ids.
   */
  lemma ParallelScanExact(matches: (nat, Geom) -> bool, extra: map<Coord, set<nat>>, s: Store, highest: int, p: ScanPlan,
                          r: nat, threads: nat, schedule: seq<nat>)
    requires Valid(s) && GoodScan(p) && threads > 0
    requires highest >= -1 && (highest >= 0 ==> BitGet(s.bitmap, highest))
    requires (forall id :: BitGet(s.bitmap, id) ==> id <= highest) && p.used == RealBytes(s, highest)
    requires RegionalExport.Drained(Run(Start(threads), p.nchunks, (ci: nat) => ScanChunk(matches, extra, s, p, r, ci), schedule))
    ensures var results := Run(Start(threads), p.nchunks, (ci: nat) => ScanChunk(matches, extra, s, p, r, ci), schedule).results;
            && (forall ci: nat :: ci < p.nchunks ==> ci in results)
            && RegionalExport.Gather(results, p.nchunks) == RegionFile(matches, extra, s, r)
            && Ascending(RegionFile(matches, extra, s, r))
            && forall id :: NodeFile.Lookup(RegionFile(matches, extra, s, r), id) ==
                 match Select(s, id)
                 case Some(at) => if matches(r, Point(at)) || (at in extra && r in extra[at]) then Some(at) else None
                 case None => None
  {
    hide Valid, Accepts, Select, ScanChunk, GoodScan, Run, BitGet, Populated, RealBytes;
    var work := (ci: nat) => ScanChunk(matches, extra, s, p, r, ci);
    PoolComplete(threads, p.nchunks, work, schedule);
    var results := Run(Start(threads), p.nchunks, work, schedule).results;
    GatherScan(matches, extra, s, p, r, results, p.nchunks);
    ScanReaches(p);
    RealBytesLoseNothing(s, highest);
    RegionFileExact(matches, extra, s, r);
  }

  // ---------------------------------------------------------------- widening

  function ResolvedFrom(s: Store, refs: seq<int>): seq<Coord>
    requires Valid(s)
  {
    if refs == [] then []
    else (match Select(s, refs[0]) case Some(c) => [c] case None => []) + ResolvedFrom(s, refs[1..])
  }

  lemma {:induction false} ResolvedHas(s: Store, refs: seq<int>, ref: int)
    requires Valid(s) && ref in refs && Select(s, ref).Some?
    ensures Select(s, ref).value in ResolvedFrom(s, refs)
  {
    hide Valid, Select;
    if refs[0] != ref { ResolvedHas(s, refs[1..], ref); }
  }

  /** A stored way geometry decodes to exactly the coordinates it was built from. */
  lemma StoredWayVertices(coords: seq<Coord>, srid: nat, row: RegionalExport.ParentRow)
    requires 2 <= |coords| < Ewkb.COUNT_LIMIT && srid < 0x8000_0000
    requires row.geog == Some(Ewkb.Encode(BuildWay(coords).value, Some(srid), None))
    ensures RegionalExport.Decoded(row).Some? && Vertices(RegionalExport.Decoded(row).value) == coords
  {
    hide Ewkb.Encode, Ewkb.DecodeOne, Vertices;
    var g := BuildWay(coords).value;
    var bytes := Ewkb.Encode(g, Some(srid), None);
    Ewkb.RoundTrip(g, Some(srid), None, []);
    assert bytes + [] == bytes;
    WayVertices(coords);
  }

  /**
   Widening completeness, end to end. If a way's geometry was built from the node store and
   its row is exported to region r, every node reference that resolves in the store resolves
   in r's node file, to the same words.
   */
  lemma WideningComplete(matches: (nat, Geom) -> bool, m: RegionalExport.Master, p: RegionalExport.Plan, s: Store,
                         extra: map<Coord, set<nat>>, r: nat, row: RegionalExport.ParentRow, refs: seq<int>, srid: nat, ref: int)
    requires Valid(s) && RegionalExport.GoodPlan(p) && RegionalExport.Spans(p, m)
    requires forall v :: v in RegionalExport.Gather(ExtraResults(matches, m, p, r), p.nchunks) ==> r in MaskAt(extra, v)
    requires 2 <= |ResolvedFrom(s, refs)| < Ewkb.COUNT_LIMIT && srid < 0x8000_0000
    requires row.geog == Some(Ewkb.Encode(BuildWay(ResolvedFrom(s, refs)).value, Some(srid), None))
    requires row in m.parents && RegionalExport.RowMatches(matches, r, row)
    requires ref in refs && Select(s, ref).Some?
    ensures NodeFile.Lookup(RegionFile(matches, extra, s, r), ref) == Select(s, ref)
  {
    hide Valid, Select, Ewkb.Encode, RegionalExport.GoodPlan, RegionalExport.Gather, RegionalExport.Decoded, RegionFile, Vertices;
    var coords := ResolvedFrom(s, refs);
    var at := Select(s, ref).value;
    StoredWayVertices(coords, srid, row);
    ResolvedHas(s, refs, ref);
    if !matches(r, Point(at)) { ExtraComplete(matches, m, p, r, row, at); }
    RegionFileExact(matches, extra, s, r);
  }

  /** Any vertex of an exported row that a node of the store stands on: the region has the node. */
  lemma VertexCovered(matches: (nat, Geom) -> bool, m: RegionalExport.Master, p: RegionalExport.Plan, s: Store,
                      extra: map<Coord, set<nat>>, r: nat, row: RegionalExport.ParentRow, ref: int)
    requires Valid(s) && RegionalExport.GoodPlan(p) && RegionalExport.Spans(p, m)
    requires forall v :: v in RegionalExport.Gather(ExtraResults(matches, m, p, r), p.nchunks) ==> r in MaskAt(extra, v)
    requires row in m.parents && RegionalExport.RowMatches(matches, r, row)
    requires Select(s, ref).Some? && Select(s, ref).value in Vertices(RegionalExport.Decoded(row).value)
    ensures NodeFile.Lookup(RegionFile(matches, extra, s, r), ref) == Select(s, ref)
  {
    hide Valid, Select, RegionalExport.GoodPlan, RegionalExport.Gather, RegionalExport.Decoded, RegionFile, Vertices;
    var at := Select(s, ref).value;
    if !matches(r, Point(at)) { ExtraComplete(matches, m, p, r, row, at); }
    RegionFileExact(matches, extra, s, r);
  }

  lemma JoinedDecodes(row: RegionalExport.ParentRow, parts: seq<Geom>, srid: nat)
    requires srid < 0x8000_0000 && |parts| < Ewkb.COUNT_LIMIT
    requires forall i :: 0 <= i < |parts| ==> parts[i].Line? && |parts[i].points| < Ewkb.COUNT_LIMIT
    requires row.geog == Some(Ewkb.Encode(MultiLine(parts), Some(srid), Some(srid)))
    ensures RegionalExport.Decoded(row) == Some(MultiLine(parts))
  {
    hide Ewkb.Encode, Ewkb.DecodeOne;
    var bytes := row.geog.value;
    Ewkb.RoundTrip(MultiLine(parts), Some(srid), Some(srid), []);
    assert bytes + [] == bytes;
  }

  /**
   Widening for relations and roads: if the row is a multi-line, encoded as the importer joins
   its members, every reference of a way among its lines resolves in the region's file as in the
   store.
   */
  lemma JoinedWideningComplete(matches: (nat, Geom) -> bool, m: RegionalExport.Master, p: RegionalExport.Plan, s: Store,
                               extra: map<Coord, set<nat>>, r: nat, row: RegionalExport.ParentRow, parts: seq<Geom>, srid: nat,
                               k: nat, refs: seq<int>, ref: int)
    requires Valid(s) && RegionalExport.GoodPlan(p) && RegionalExport.Spans(p, m)
    requires forall v :: v in RegionalExport.Gather(ExtraResults(matches, m, p, r), p.nchunks) ==> r in MaskAt(extra, v)
    requires srid < 0x8000_0000 && |parts| < Ewkb.COUNT_LIMIT
    requires forall i :: 0 <= i < |parts| ==> parts[i].Line? && |parts[i].points| < Ewkb.COUNT_LIMIT
    requires row.geog == Some(Ewkb.Encode(MultiLine(parts), Some(srid), Some(srid)))
    requires row in m.parents && RegionalExport.RowMatches(matches, r, row)
    requires k < |parts| && parts[k].points == ResolvedFrom(s, refs) && ref in refs && Select(s, ref).Some?
    ensures NodeFile.Lookup(RegionFile(matches, extra, s, r), ref) == Select(s, ref)
  {
    hide Valid, Select, Ewkb.Encode, RegionalExport.GoodPlan, RegionalExport.Gather, RegionalExport.Decoded, RegionFile, Vertices,
         ResolvedFrom, RegionalExport.Spans, RegionalExport.RowMatches, ExtraResults;
    JoinedDecodes(row, parts, srid);
    ResolvedHas(s, refs, ref);
    var j :| 0 <= j < |parts[k].points| && parts[k].points[j] == Select(s, ref).value;
    MultiLineVertices(parts, Select(s, ref).value);
    VertexCovered(matches, m, p, s, extra, r, row, ref);
  }
}
