/**
 The export workers as they run (`processPair`): the loops that classify a chunk's rows,
 the binary search in its local map, and the temp files joined into one COPY file.
 */
module ExportWork {
  import opened Core
  import opened Geometry
  import opened Lists
  import opened Wire
  import opened RegionalExport
  import NodeExport
  import PgCopy

  datatype Entry = Entry(id: int, mask: set<nat>)

  // ---------------------------------------------------------------- parent pass

  /** `parentWorkForChunk`: per-region parent rows and extra vertices, and the local map. */
  method ParentWork(matches: (nat, Geom) -> bool, regions: nat, emitExtra: bool, extraOnly: bool, rows: seq<ParentRow>)
      returns (kept: seq<seq<ParentRow>>, extra: seq<seq<Coord>>, entries: seq<Entry>)
    ensures |kept| == |extra| == regions
    ensures forall r: nat :: r < regions ==>
      kept[r] == if extraOnly then [] else Filter(rows, (row: ParentRow) => RowMatches(matches, r, row))
    ensures forall r: nat :: r < regions ==> extra[r] == if emitExtra then NodeExport.ExtraChunk(matches, r, rows) else []
    ensures entries == Entries(matches, regions, rows)
  {
    hide RowMatches, Mask, NodeExport.OutsideVertices;
    kept, extra, entries := seq(regions, _ => []), seq(regions, _ => []), [];
    assert rows[..0] == [];
    for i := 0 to |rows|
      invariant |kept| == |extra| == regions
      invariant forall r: nat :: r < regions ==> kept[r] == KeptRows(matches, extraOnly, r, rows[..i])
      invariant forall r: nat :: r < regions ==> extra[r] == ExtraRows(matches, emitExtra, r, rows[..i])
      invariant entries == Entries(matches, regions, rows[..i])
    {
      assert rows[..i + 1][..i] == rows[..i];
      var mask: set<nat>;
      mask, kept, extra := ClassifyRow(matches, regions, emitExtra, extraOnly, rows[i], kept, extra);
      if mask != {} { entries := entries + [Entry(rows[i].id, mask)]; }
    }
    assert rows[..|rows|] == rows;
  }

  function KeptRows(matches: (nat, Geom) -> bool, extraOnly: bool, r: nat, rows: seq<ParentRow>): seq<ParentRow> {
    if extraOnly then [] else Filter(rows, (row: ParentRow) => RowMatches(matches, r, row))
  }

  function ExtraRows(matches: (nat, Geom) -> bool, emitExtra: bool, r: nat, rows: seq<ParentRow>): seq<Coord> {
    if emitExtra then NodeExport.ExtraChunk(matches, r, rows) else []
  }

  /** The local map as the worker appends it: one entry for every row some region matched. */
  function Entries(matches: (nat, Geom) -> bool, regions: nat, rows: seq<ParentRow>): seq<Entry> {
    if rows == [] then []
    else
      var last := rows[|rows| - 1];
      var mask := Mask(matches, regions, last);
      Entries(matches, regions, rows[..|rows| - 1]) + (if mask == {} then [] else [Entry(last.id, mask)])
  }

  /** One row against every region. */
  method ClassifyRow(matches: (nat, Geom) -> bool, regions: nat, emitExtra: bool, extraOnly: bool, row: ParentRow,
                     kept0: seq<seq<ParentRow>>, extra0: seq<seq<Coord>>)
      returns (mask: set<nat>, kept: seq<seq<ParentRow>>, extra: seq<seq<Coord>>)
    requires |kept0| == |extra0| == regions
    ensures mask == Mask(matches, regions, row)
    ensures |kept| == |extra| == regions
    ensures forall r: nat :: r < regions ==>
      kept[r] == kept0[r] + (if !extraOnly && RowMatches(matches, r, row) then [row] else [])
    ensures forall r: nat :: r < regions ==>
      extra[r] == extra0[r] + (if emitExtra then NodeExport.OutsideVertices(matches, r, row) else [])
  {
    hide Vertices, Decoded;
    mask, kept, extra := {}, kept0, extra0;
    var geom := Decoded(row);
    if geom.None? { return; }
    var verts := if emitExtra then Vertices(geom.value) else [];
    for ri := 0 to regions
      invariant |kept| == |extra| == regions
      invariant mask == set r: nat | r < ri && RowMatches(matches, r, row)
      invariant forall r: nat :: r < regions ==>
        kept[r] == kept0[r] + (if r < ri && !extraOnly && RowMatches(matches, r, row) then [row] else [])
      invariant forall r: nat :: r < regions ==>
        extra[r] == extra0[r] + (if r < ri && emitExtra then NodeExport.OutsideVertices(matches, r, row) else [])
    {
      if matches(ri, geom.value) {
        mask := mask + {ri};
        if !extraOnly { kept := kept[ri := kept[ri] + [row]]; }
        if emitExtra {
          var outside := AppendOutside(matches, ri, verts);
          extra := extra[ri := extra[ri] + outside];
        }
      }
    }
  }

  method AppendOutside(matches: (nat, Geom) -> bool, r: nat, verts: seq<Coord>) returns (outside: seq<Coord>)
    ensures outside == Filter(verts, (v: Coord) => !matches(r, Point(v)))
  {
    outside := [];
    assert verts[..0] == [];
    for i := 0 to |verts|
      invariant outside == Filter(verts[..i], (v: Coord) => !matches(r, Point(v)))
    {
      assert verts[..i + 1][..i] == verts[..i];
      if !matches(r, Point(verts[i])) { outside := outside + [verts[i]]; }
    }
    assert verts[..|verts|] == verts;
  }

  // ---------------------------------------------------------------- local map lookup

  ghost predicate Ascending(entries: seq<Entry>) {
    forall i, j :: 0 <= i < j < |entries| ==> entries[i].id <= entries[j].id
  }

  /** `std::sort` between the passes. */
  ghost predicate SortedForm(sorted: seq<Entry>, entries: seq<Entry>) {
    Ascending(sorted) && multiset(sorted) == multiset(entries)
  }

  /** `lookupBitmask`: the first entry not below the id, when it has the id. */
  method LookupBitmask(entries: seq<Entry>, id: int) returns (mask: set<nat>)
    requires Ascending(entries)
    ensures (exists e :: e in entries && e.id == id && e.mask == mask)
         || (mask == {} && forall e :: e in entries ==> e.id != id)
  {
    var lo, hi := 0, |entries|;
    while lo < hi
      invariant 0 <= lo <= hi <= |entries|
      invariant forall i :: 0 <= i < lo ==> entries[i].id < id
      invariant forall i :: hi <= i < |entries| ==> entries[i].id >= id
    {
      var mid := lo + (hi - lo) / 2;
      if entries[mid].id < id { lo := mid + 1; } else { hi := mid; }
    }
    if lo < |entries| && entries[lo].id == id { return entries[lo].mask; }
    return {};
  }

  lemma {:induction false} EntriesAreLocal(matches: (nat, Geom) -> bool, regions: nat, rows: seq<ParentRow>, e: Entry)
    requires PrimaryKey(rows)
    ensures e in Entries(matches, regions, rows)
       <==> e.id in LocalMap(matches, regions, rows) && LocalMap(matches, regions, rows)[e.id] == e.mask
  {
    hide Mask;
    if rows != [] {
      var init, last := rows[..|rows| - 1], rows[|rows| - 1];
      EntriesAreLocal(matches, regions, init, e);
      if e.id == last.id {
        forall row | row in init ensures row.id != e.id { var i :| 0 <= i < |init| && init[i] == row; assert rows[i].id != last.id; }
        NotInLocal(matches, regions, init, e.id);
      }
    }
  }

  /** Searching the sorted entries is reading the chunk's local map. */
  method LookupLocal(matches: (nat, Geom) -> bool, regions: nat, ghost rows: seq<ParentRow>, sorted: seq<Entry>, id: int)
      returns (mask: set<nat>)
    requires PrimaryKey(rows) && SortedForm(sorted, Entries(matches, regions, rows))
    ensures mask == MaskOf(LocalMap(matches, regions, rows), id)
  {
    hide Entries, LocalMap, PrimaryKey;
    mask := LookupBitmask(sorted, id);
    forall e ensures e in sorted <==> e in Entries(matches, regions, rows) {
      assert e in sorted <==> e in multiset(sorted);
    }
    var local := LocalMap(matches, regions, rows);
    if id in local {
      EntriesAreLocal(matches, regions, rows, Entry(id, local[id]));
    }
    EntriesAreLocal(matches, regions, rows, Entry(id, mask));
  }

  // ---------------------------------------------------------------- child pass

  /** `childWorkForChunk`: exactly the child chunks of the export theorem. */
  method ChildWork(matches: (nat, Geom) -> bool, regions: nat, ghost m: Master, ghost p: Plan, ghost ci: nat,
                   sorted: seq<Entry>, rows: seq<ChildRow>) returns (kept: seq<seq<ChildRow>>)
    requires PrimaryKey(m.parents) && SortedForm(sorted, Entries(matches, regions, ParentsOf(m, p, ci)))
    requires rows == ChildrenOf(m, p, ci)
    ensures |kept| == regions
    ensures forall r: nat :: r < regions ==> kept[r] == ChildChunk(matches, regions, m, p, r, ci)
  {
    hide LocalMap, MaskOf, PrimaryKey, SortedForm, ParentsOf, ChildrenOf;
    KeyOf(m, p, ci);
    ghost var local := LocalMap(matches, regions, ParentsOf(m, p, ci));
    kept := seq(regions, _ => []);
    assert rows[..0] == [];
    for i := 0 to |rows|
      invariant |kept| == regions
      invariant forall r: nat :: r < regions ==> kept[r] == Filter(rows[..i], (row: ChildRow) => r in MaskOf(local, row.id))
    {
      assert rows[..i + 1][..i] == rows[..i];
      var mask := LookupLocal(matches, regions, ParentsOf(m, p, ci), sorted, rows[i].id);
      kept := AppendMasked(regions, mask, rows[i], kept);
    }
    assert rows[..|rows|] == rows;
  }

  lemma KeyOf(m: Master, p: Plan, ci: nat)
    requires PrimaryKey(m.parents)
    ensures PrimaryKey(ParentsOf(m, p, ci))
  {
    FilterKeepsKey(m.parents, (row: ParentRow) => InWindow(p, ci, row.id));
  }

  method AppendMasked(regions: nat, mask: set<nat>, row: ChildRow, kept0: seq<seq<ChildRow>>) returns (kept: seq<seq<ChildRow>>)
    requires |kept0| == regions
    ensures |kept| == regions
    ensures forall r: nat :: r < regions ==> kept[r] == kept0[r] + (if r in mask then [row] else [])
  {
    kept := kept0;
    if mask == {} { return; }
    for ri := 0 to regions
      invariant |kept| == regions
      invariant forall r: nat :: r < regions ==> kept[r] == kept0[r] + (if r < ri && r in mask then [row] else [])
    {
      if ri in mask { kept := kept[ri := kept[ri] + [row]]; }
    }
  }

  // ---------------------------------------------------------------- temp files

  /** `TempRowWriter`: a 4-byte length in host order, then the row's bytes. */
  function Framed(raws: seq<seq<Byte>>): seq<Byte> {
    if raws == [] then [] else LE(|raws[0]|, 4) + raws[0] + Framed(raws[1..])
  }

  ghost predicate Framable(raws: seq<seq<Byte>>) {
    forall i :: 0 <= i < |raws| ==> |raws[i]| < 0x1_0000_0000
  }

  /** The whole rows of a temp file; one cut short inside a row ends there. */
  function Frames(file: seq<Byte>): seq<seq<Byte>>
    decreases |file|
  {
    if |file| < 4 then []
    else
      var len := FromLE(file[..4]);
      if |file| < 4 + len then [] else [file[4..4 + len]] + Frames(file[4 + len..])
  }

  /** Framing is undone whatever the rows hold. */
  lemma {:induction false} FramesBack(raws: seq<seq<Byte>>)
    requires Framable(raws)
    ensures Frames(Framed(raws)) == raws
  {
    hide FromLE, LE;
    if raws != [] {
      Widths();
      LERoundTrip(|raws[0]|, 4);
      FramesBack(raws[1..]);
      var rest := Framed(raws[1..]);
      var f := LE(|raws[0]|, 4) + raws[0] + rest;
      assert f[..4] == LE(|raws[0]|, 4) && f[4..4 + |raws[0]|] == raws[0] && f[4 + |raws[0]|..] == rest;
      assert raws == [raws[0]] + raws[1..];
    }
  }

  function AllFrames(files: seq<seq<Byte>>): seq<seq<Byte>> {
    if files == [] then [] else AllFrames(files[..|files| - 1]) + Frames(files[|files| - 1])
  }

  /** `mergeTempFiles`: header once, every temp file's whole rows in order, trailer once. */
  method MergeTempFiles(files: seq<seq<Byte>>) returns (w: PgCopy.Writer, count: nat)
    ensures fresh(w) && w.closed
    ensures w.bytes == PgCopy.SIGNATURE + PgCopy.ZEROS + Flatten(AllFrames(files)) + PgCopy.TRAILER
    ensures count == |AllFrames(files)|
  {
    hide Frames, Flatten;
    w := new PgCopy.Writer();
    count := 0;
    ghost var head := w.bytes;
    assert files[..0] == [];
    NoRows();
    for i := 0 to |files|
      invariant fresh(w) && !w.closed
      invariant w.bytes == head + Flatten(AllFrames(files[..i]))
      invariant count == |AllFrames(files[..i])|
    {
      assert files[..i + 1][..i] == files[..i];
      FlattenAppend(AllFrames(files[..i]), Frames(files[i]));
      var n := CopyRows(w, files[i]);
      count := count + n;
    }
    assert files[..|files|] == files;
    w.Close();
  }

  /** One temp file, read until its end or a row cut short. */
  method CopyRows(w: PgCopy.Writer, file: seq<Byte>) returns (count: nat)
    requires !w.closed
    modifies w
    ensures !w.closed && w.bytes == old(w.bytes) + Flatten(Frames(file)) && count == |Frames(file)|
  {
    hide FromLE, Flatten;
    var rest := file;
    count := 0;
    NoRows();
    while |rest| >= 4
      invariant !w.closed
      invariant w.bytes + Flatten(Frames(rest)) == old(w.bytes) + Flatten(Frames(file))
      invariant count + |Frames(rest)| == |Frames(file)|
      decreases |rest|
    {
      var len := FromLE(rest[..4]);
      if |rest| < 4 + len { break; }
      FirstFrame(rest[4..4 + len], Frames(rest[4 + len..]));
      var ok := w.WriteRow(rest[4..4 + len]);
      rest := rest[4 + len..];
      count := count + 1;
    }
  }

  lemma FirstFrame(a: seq<Byte>, more: seq<seq<Byte>>)
    ensures Flatten([a] + more) == a + Flatten(more)
  {
    assert ([a] + more)[1..] == more;
  }

  lemma NoRows()
    ensures Flatten<Byte>([]) == []
  {}

  // ---------------------------------------------------------------- the bundle file

  function RawsOf(rows: seq<PgCopy.Row>): seq<seq<Byte>> {
    seq(|rows|, i requires 0 <= i < |rows| => rows[i].raw)
  }

  /** The bytes a chunk's writer leaves in its temp file. */
  function TempFile(rows: seq<PgCopy.Row>): seq<Byte> { Framed(RawsOf(rows)) }

  function TempFiles(chunks: seq<seq<PgCopy.Row>>): seq<seq<Byte>> {
    seq(|chunks|, i requires 0 <= i < |chunks| => TempFile(chunks[i]))
  }

  ghost predicate GoodRows(rows: seq<PgCopy.Row>) {
    forall i :: 0 <= i < |rows| ==> PgCopy.WellFormed(rows[i]) && |rows[i].raw| < 0x1_0000_0000
  }

  lemma {:induction false} RawsAreFlat(rows: seq<PgCopy.Row>)
    ensures Flatten(RawsOf(rows)) == PgCopy.Raws(rows)
  {
    if rows != [] {
      RawsAreFlat(rows[1..]);
      assert RawsOf(rows)[1..] == RawsOf(rows[1..]);
    }
  }

  lemma {:induction false} ChunkFrames(chunks: seq<seq<PgCopy.Row>>)
    requires forall i :: 0 <= i < |chunks| ==> GoodRows(chunks[i])
    ensures AllFrames(TempFiles(chunks)) == RawsOf(Flatten(chunks)) && GoodRows(Flatten(chunks))
  {
    hide Frames, Framed, Flatten, PgCopy.WellFormed;
    if chunks == [] {
      NoChunks();
    } else {
      var init, last := chunks[..|chunks| - 1], chunks[|chunks| - 1];
      ChunkFrames(init);
      assert chunks == init + [last];
      FlattenSnoc(init, last);
      assert TempFiles(chunks)[..|chunks| - 1] == TempFiles(init);
      FramesBack(RawsOf(last));
      assert RawsOf(Flatten(init) + last) == RawsOf(Flatten(init)) + RawsOf(last);
    }
  }

  lemma NoChunks()
    ensures Flatten<PgCopy.Row>([]) == []
  {}

  /**
   From the workers' rows to the bundle file and back: the file joined from the chunks' temp
   files reads as exactly their rows, in chunk order, and ends cleanly.
   */
  lemma BundleReadsBack(chunks: seq<seq<PgCopy.Row>>)
    requires forall i :: 0 <= i < |chunks| ==> GoodRows(chunks[i])
    ensures PgCopy.ParseStream(PgCopy.SIGNATURE + PgCopy.ZEROS + Flatten(AllFrames(TempFiles(chunks))) + PgCopy.TRAILER)
         == PgCopy.Outcome(Flatten(chunks), true, [])
  {
    hide Flatten, Frames, PgCopy.WellFormed, PgCopy.ParseStream;
    ChunkFrames(chunks);
    RawsAreFlat(Flatten(chunks));
    PgCopy.ReadBack(Flatten(chunks));
  }
}
