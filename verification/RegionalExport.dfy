/**
 Export of one parent/child table pair to every region (src/regional_db_export.cpp,
 `processPair`), for an arbitrary region test `matches`. The parent's id range is cut into
 chunks; a chunk's child rows are classified by that chunk's own local map only.
 */
module RegionalExport {
  import opened Core
  import opened Geometry
  import opened Lists
  import opened WorkPool
  import Ewkb

  /** A parent row: its exact bytes and its geometry field (none for NULL). */
  datatype ParentRow = ParentRow(id: int, raw: seq<Byte>, geog: Option<seq<Byte>>)
  datatype ChildRow = ChildRow(id: int, raw: seq<Byte>)

  /** One table pair of the master; the id is the parent's primary key. */
  datatype Master = Master(parents: seq<ParentRow>, children: seq<ChildRow>)

  ghost predicate PrimaryKey(parents: seq<ParentRow>) {
    forall i, j :: 0 <= i < j < |parents| ==> parents[i].id != parents[j].id
  }

  // ---------------------------------------------------------------- classification

  /** NULL and undecodable geometries match no region. */
  function Decoded(row: ParentRow): Option<Geom> {
    match row.geog
    case None => None
    case Some(bytes) => match Ewkb.DecodeOne(bytes) case None => None case Some(d) => Some(d.value.geom)
  }

  predicate RowMatches(matches: (nat, Geom) -> bool, r: nat, row: ParentRow) {
    Decoded(row).Some? && matches(r, Decoded(row).value)
  }

  /** The regions of `regions` that a row belongs to (the bitmask). */
  function Mask(matches: (nat, Geom) -> bool, regions: nat, row: ParentRow): set<nat> {
    set r: nat | r < regions && RowMatches(matches, r, row)
  }

  /** `local_maps[ci]`: ids of the chunk's rows that matched some region. */
  function LocalMap(matches: (nat, Geom) -> bool, regions: nat, rows: seq<ParentRow>): map<int, set<nat>> {
    if rows == [] then map[]
    else
      var m := LocalMap(matches, regions, rows[..|rows| - 1]);
      var last := rows[|rows| - 1];
      var mask := Mask(matches, regions, last);
      if mask == {} then m else m[last.id := mask]
  }

  function MaskOf(m: map<int, set<nat>>, id: int): set<nat> { if id in m then m[id] else {} }

  // ---------------------------------------------------------------- chunks

  datatype Plan = Plan(minId: int, maxId: int, nchunks: nat, width: nat)

  /** `nchunks` windows of `width` ids from `minId`; together they reach `maxId`. */
  predicate GoodPlan(p: Plan) {
    && p.minId <= p.maxId && p.nchunks > 0
    && p.width == (p.maxId - p.minId + 1 + p.nchunks - 1) / p.nchunks
  }

  predicate InWindow(p: Plan, ci: nat, id: int) {
    var lo := p.minId + ci * p.width;
    lo <= id <= (if lo + p.width - 1 < p.maxId then lo + p.width - 1 else p.maxId)
  }

  function ChunkOf(p: Plan, id: int): int
    requires p.width > 0
  {
    (id - p.minId) / p.width
  }

  lemma WidthCovers(p: Plan)
    requires GoodPlan(p)
    ensures p.width > 0 && p.nchunks * p.width >= p.maxId - p.minId + 1
  {
    var span, n, w := p.maxId - p.minId + 1, p.nchunks, p.width;
    DivUp(span, n, w);
  }

  lemma DivUp(span: nat, n: nat, w: nat)
    requires n > 0 && span > 0 && w == (span + n - 1) / n
    ensures w > 0 && n * w >= span
  {
    assert (span + n - 1) == n * w + (span + n - 1) % n;
    assert w == 0 ==> n * w == 0;
  }

  /** The windows partition the id range. */
  lemma WindowIs(p: Plan, ci: nat, id: int)
    requires GoodPlan(p)
    ensures p.width > 0
    ensures InWindow(p, ci, id) <==> p.minId <= id <= p.maxId && ChunkOf(p, id) == ci
    ensures p.minId <= id <= p.maxId ==> 0 <= ChunkOf(p, id) < p.nchunks
  {
    WidthCovers(p);
    var w := p.width;
    if p.minId <= id {
      DivBounds(id - p.minId, w, ci);
      DivBounds(id - p.minId, w, p.nchunks);
    } else {
      assert ci * w >= 0;
      NegDiv(id - p.minId, w);
    }
  }

  lemma DivBounds(x: nat, w: nat, k: nat)
    requires w > 0
    ensures x / w == k <==> k * w <= x < k * w + w
    ensures x < k * w ==> x / w < k
    ensures x / w >= 0
  {
    var q := x / w;
    DivRest(x, w);
    MulMono(q, k, w);
    MulMono(k, q, w);
  }

  lemma DivRest(x: nat, w: nat)
    requires w > 0
    ensures x / w >= 0 && (x / w) * w <= x < (x / w) * w + w
  {
    assert x == (x / w) * w + x % w;
  }

  lemma MulMono(a: int, b: int, w: nat)
    ensures a < b ==> a * w + w <= b * w
  {
    if a < b {
      var d: nat := b - a - 1;
      MulSplit(a, d, w);
      MulNonNegative(d, w);
    }
  }

  lemma MulSplit(a: int, d: int, w: int)
    ensures (a + 1 + d) * w == a * w + w + d * w
  {}

  lemma MulNonNegative(d: nat, w: nat)
    ensures d * w >= 0
  {}

  lemma NegDiv(x: int, w: nat)
    requires w > 0 && x < 0
    ensures x / w < 0
  {}

  // ---------------------------------------------------------------- the two passes

  function ParentsOf(m: Master, p: Plan, ci: nat): seq<ParentRow> {
    Filter(m.parents, (row: ParentRow) => InWindow(p, ci, row.id))
  }

  function ChildrenOf(m: Master, p: Plan, ci: nat): seq<ChildRow> {
    Filter(m.children, (row: ChildRow) => InWindow(p, ci, row.id))
  }

  /** What one chunk writes to region `r`'s parent temp file. */
  function ParentChunk(matches: (nat, Geom) -> bool, m: Master, p: Plan, r: nat, ci: nat): seq<ParentRow> {
    Filter(ParentsOf(m, p, ci), (row: ParentRow) => RowMatches(matches, r, row))
  }

  /** What one chunk writes to region `r`'s child temp file, from its own local map. */
  function ChildChunk(matches: (nat, Geom) -> bool, regions: nat, m: Master, p: Plan, r: nat, ci: nat): seq<ChildRow> {
    var local := LocalMap(matches, regions, ParentsOf(m, p, ci));
    Filter(ChildrenOf(m, p, ci), (row: ChildRow) => r in MaskOf(local, row.id))
  }

  /** Temp files of all chunks in chunk order, as the merge step reads them. */
  function Gather<T>(results: map<nat, seq<T>>, n: nat): seq<T>
    requires forall ci: nat :: ci < n ==> ci in results
  {
    if n == 0 then [] else Gather(results, n - 1) + results[n - 1]
  }

  // ---------------------------------------------------------------- local maps are enough

  /** Some parent with this id matches the region. */
  ghost predicate ParentMatches(matches: (nat, Geom) -> bool, m: Master, r: nat, id: int) {
    exists row :: row in m.parents && row.id == id && RowMatches(matches, r, row)
  }

  lemma {:induction false} LocalMapIs(matches: (nat, Geom) -> bool, regions: nat, rows: seq<ParentRow>, r: nat, id: int)
    requires PrimaryKey(rows) && r < regions
    ensures r in MaskOf(LocalMap(matches, regions, rows), id)
       <==> exists row :: row in rows && row.id == id && RowMatches(matches, r, row)
  {
    hide RowMatches;
    if rows != [] {
      var init, last := rows[..|rows| - 1], rows[|rows| - 1];
      LocalMapIs(matches, regions, init, r, id);
      assert forall row :: row in rows <==> row in init || row == last;
      if last.id == id {
        forall row | row in init ensures row.id != id { var i :| 0 <= i < |init| && init[i] == row; assert rows[i].id != last.id; }
        NotInLocal(matches, regions, init, id);
      }
    }
  }

  lemma {:induction false} NotInLocal(matches: (nat, Geom) -> bool, regions: nat, rows: seq<ParentRow>, id: int)
    requires forall row :: row in rows ==> row.id != id
    ensures id !in LocalMap(matches, regions, rows)
  {
    if rows != [] {
      assert rows[|rows| - 1] in rows;
      NotInLocal(matches, regions, rows[..|rows| - 1], id);
    }
  }

  lemma {:induction false} FilterKeepsKey(rows: seq<ParentRow>, p: ParentRow -> bool)
    requires PrimaryKey(rows)
    ensures PrimaryKey(Filter(rows, p))
  {
    if rows != [] {
      var init, last := rows[..|rows| - 1], rows[|rows| - 1];
      FilterKeepsKey(init, p);
      var f := Filter(init, p);
      forall i | 0 <= i < |f| ensures f[i].id != last.id {
        FilterIn(init, p, f[i]);
        var j :| 0 <= j < |init| && init[j] == f[i];
        assert rows[j].id != last.id;
      }
    }
  }

  /** For the ids of its window, a chunk's local map knows what the whole table knows. */
  lemma LocalIsGlobal(matches: (nat, Geom) -> bool, regions: nat, m: Master, p: Plan, r: nat, ci: nat, id: int)
    requires PrimaryKey(m.parents) && r < regions && InWindow(p, ci, id)
    ensures r in MaskOf(LocalMap(matches, regions, ParentsOf(m, p, ci)), id) <==> ParentMatches(matches, m, r, id)
  {
    hide RowMatches, InWindow, LocalMap, MaskOf;
    var inWindow := (row: ParentRow) => InWindow(p, ci, row.id);
    FilterKeepsKey(m.parents, inWindow);
    LocalMapIs(matches, regions, ParentsOf(m, p, ci), r, id);
    forall row ensures row in ParentsOf(m, p, ci) <==> row in m.parents && InWindow(p, ci, row.id) {
      FilterIn(m.parents, inWindow, row);
    }
  }

  // ---------------------------------------------------------------- what each region gets

  /** A region's bundle is exact: its matching parents, and every tag row of those parents. */
  ghost predicate ExactParents(matches: (nat, Geom) -> bool, m: Master, r: nat, rows: seq<ParentRow>) {
    forall row :: multiset(rows)[row] == if RowMatches(matches, r, row) then multiset(m.parents)[row] else 0
  }

  ghost predicate ExactChildren(matches: (nat, Geom) -> bool, m: Master, r: nat, rows: seq<ChildRow>) {
    forall row :: multiset(rows)[row] == if ParentMatches(matches, m, r, row.id) then multiset(m.children)[row] else 0
  }

  /** The plan spans every parent id (`MIN(id)`, `MAX(id)`). */
  ghost predicate Spans(p: Plan, m: Master) {
    forall row :: row in m.parents ==> p.minId <= row.id <= p.maxId
  }

  function ParentResults(matches: (nat, Geom) -> bool, m: Master, p: Plan, r: nat): map<nat, seq<ParentRow>> {
    map ci: nat | ci < p.nchunks :: ParentChunk(matches, m, p, r, ci)
  }

  function ChildResults(matches: (nat, Geom) -> bool, regions: nat, m: Master, p: Plan, r: nat): map<nat, seq<ChildRow>> {
    map ci: nat | ci < p.nchunks :: ChildChunk(matches, regions, m, p, r, ci)
  }

  lemma ParentChunkCount(matches: (nat, Geom) -> bool, m: Master, p: Plan, r: nat, ci: nat, row: ParentRow)
    ensures multiset(ParentChunk(matches, m, p, r, ci))[row]
         == if InWindow(p, ci, row.id) && RowMatches(matches, r, row) then multiset(m.parents)[row] else 0
  {
    hide InWindow, RowMatches;
    FilterCount(m.parents, (x: ParentRow) => InWindow(p, ci, x.id), row);
    FilterCount(ParentsOf(m, p, ci), (x: ParentRow) => RowMatches(matches, r, x), row);
  }

  lemma ChildChunkCount(matches: (nat, Geom) -> bool, regions: nat, m: Master, p: Plan, r: nat, ci: nat, row: ChildRow)
    requires PrimaryKey(m.parents) && r < regions
    ensures multiset(ChildChunk(matches, regions, m, p, r, ci))[row]
         == if InWindow(p, ci, row.id) && ParentMatches(matches, m, r, row.id) then multiset(m.children)[row] else 0
  {
    hide InWindow, RowMatches, LocalMap, MaskOf, ParentMatches;
    var local := LocalMap(matches, regions, ParentsOf(m, p, ci));
    FilterCount(m.children, (x: ChildRow) => InWindow(p, ci, x.id), row);
    FilterCount(ChildrenOf(m, p, ci), (x: ChildRow) => r in MaskOf(local, x.id), row);
    if InWindow(p, ci, row.id) { LocalIsGlobal(matches, regions, m, p, r, ci, row.id); }
  }

  /** A row is counted in its own chunk and in no other. */
  lemma {:induction false} GatherCount<T>(results: map<nat, seq<T>>, n: nat, x: T, home: int, count: nat)
    requires forall ci: nat :: ci < n ==> ci in results
    requires forall ci: nat :: ci < n ==> multiset(results[ci])[x] == if ci == home then count else 0
    ensures multiset(Gather(results, n))[x] == if 0 <= home < n then count else 0
  {
    if n > 0 { GatherCount(results, n - 1, x, home, count); }
  }

  lemma ParentsExact(matches: (nat, Geom) -> bool, m: Master, p: Plan, r: nat)
    requires GoodPlan(p) && Spans(p, m)
    ensures ExactParents(matches, m, r, Gather(ParentResults(matches, m, p, r), p.nchunks))
  {
    hide InWindow, RowMatches, ParentChunk, GoodPlan, Gather;
    var results := ParentResults(matches, m, p, r);
    forall row ensures multiset(Gather(results, p.nchunks))[row]
      == if RowMatches(matches, r, row) then multiset(m.parents)[row] else 0
    {
      WindowIs(p, 0, row.id);
      var home := if p.minId <= row.id <= p.maxId then ChunkOf(p, row.id) else -1;
      var count := if RowMatches(matches, r, row) then multiset(m.parents)[row] else 0;
      forall ci: nat | ci < p.nchunks
        ensures multiset(results[ci])[row] == if ci == home then count else 0
      {
        ParentChunkCount(matches, m, p, r, ci, row);
        WindowIs(p, ci, row.id);
      }
      GatherCount(results, p.nchunks, row, home, count);
      assert multiset(m.parents)[row] > 0 <==> row in m.parents;
    }
  }

  lemma ChildrenExact(matches: (nat, Geom) -> bool, regions: nat, m: Master, p: Plan, r: nat)
    requires GoodPlan(p) && Spans(p, m) && PrimaryKey(m.parents) && r < regions
    ensures ExactChildren(matches, m, r, Gather(ChildResults(matches, regions, m, p, r), p.nchunks))
  {
    hide InWindow, RowMatches, ChildChunk, GoodPlan, Gather, PrimaryKey;
    var results := ChildResults(matches, regions, m, p, r);
    forall row: ChildRow ensures multiset(Gather(results, p.nchunks))[row]
      == if ParentMatches(matches, m, r, row.id) then multiset(m.children)[row] else 0
    {
      WindowIs(p, 0, row.id);
      var home := if p.minId <= row.id <= p.maxId then ChunkOf(p, row.id) else -1;
      var count := if ParentMatches(matches, m, r, row.id) then multiset(m.children)[row] else 0;
      forall ci: nat | ci < p.nchunks
        ensures multiset(results[ci])[row] == if ci == home then count else 0
      {
        ChildChunkCount(matches, regions, m, p, r, ci, row);
        WindowIs(p, ci, row.id);
      }
      GatherCount(results, p.nchunks, row, home, count);
    }
  }

  /**
   Export exactness. For any region test, number of chunks, number of worker threads and
   schedule of either pass, once the pools have drained, what is gathered for a region is
   exactly its matching parents and all tag rows of those parents.
   */
  lemma ExportExact(matches: (nat, Geom) -> bool, regions: nat, m: Master, p: Plan, r: nat,
                    threads: nat, first: seq<nat>, second: seq<nat>)
    requires GoodPlan(p) && Spans(p, m) && PrimaryKey(m.parents) && r < regions && threads > 0
    requires Drained(Run(Start(threads), p.nchunks, (ci: nat) => ParentChunk(matches, m, p, r, ci), first))
    requires Drained(Run(Start(threads), p.nchunks, (ci: nat) => ChildChunk(matches, regions, m, p, r, ci), second))
    ensures var parents := Run(Start(threads), p.nchunks, (ci: nat) => ParentChunk(matches, m, p, r, ci), first).results;
            var children := Run(Start(threads), p.nchunks, (ci: nat) => ChildChunk(matches, regions, m, p, r, ci), second).results;
            && (forall ci: nat :: ci < p.nchunks ==> ci in parents && ci in children)
            && ExactParents(matches, m, r, Gather(parents, p.nchunks))
            && ExactChildren(matches, m, r, Gather(children, p.nchunks))
  {
    hide GoodPlan, ParentChunk, ChildChunk, Run, Gather, ExactParents, ExactChildren;
    var parentWork := (ci: nat) => ParentChunk(matches, m, p, r, ci);
    var childWork := (ci: nat) => ChildChunk(matches, regions, m, p, r, ci);
    PoolComplete(threads, p.nchunks, parentWork, first);
    PoolComplete(threads, p.nchunks, childWork, second);
    assert Run(Start(threads), p.nchunks, parentWork, first).results == ParentResults(matches, m, p, r);
    assert Run(Start(threads), p.nchunks, childWork, second).results == ChildResults(matches, regions, m, p, r);
    ParentsExact(matches, m, p, r);
    ChildrenExact(matches, regions, m, p, r);
  }

  ghost predicate Drained<T>(p: Pool<T>) {
    forall t :: 0 <= t < |p.exited| ==> p.exited[t]
  }
}
