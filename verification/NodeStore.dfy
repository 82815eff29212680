/**
 The planet node store (src/OSMMMap.cpp): a flat file of 16-byte coordinates addressed by
 node id, and a bitmap of the ids that are populated. Sizes are bytes and need not be
 multiples of 16; offsets are computed modulo 2^64 as `size_t` does.
 */
module NodeStore {
  import opened Core
  import opened Bits

  const REC_SIZE := 16
  const MAX_SANE_ID := 100_000_000_000
  const SIZE_LIMIT := 0x1_0000_0000_0000_0000
  const SLOT_LIMIT := 0x1000_0000_0000_0000
  const ZERO := Coord(0, 0)

  /** `cells` are the whole records of a data file of `size` bytes. */
  datatype Store = Store(size: nat, cells: seq<Coord>, bitmap: seq<bv8>)

  function Capacity(s: Store): nat { s.size / REC_SIZE }

  function BytesFor(bits: nat): nat { (bits + 7) / 8 }

  // ---------------------------------------------------------------- bitmap helpers

  predicate BitGet(bitmap: seq<bv8>, id: int) {
    0 <= id && id / 8 < |bitmap| && Bit(bitmap[id / 8], id % 8)
  }

  /** Ids past the end of the bitmap are ignored. */
  function BitSet(bitmap: seq<bv8>, id: nat): seq<bv8> {
    if id / 8 < |bitmap| then bitmap[id / 8 := With(bitmap[id / 8], id % 8)] else bitmap
  }

  function BitClear(bitmap: seq<bv8>, id: nat): seq<bv8> {
    if id / 8 < |bitmap| then bitmap[id / 8 := Without(bitmap[id / 8], id % 8)] else bitmap
  }

  lemma BitSetGet(bitmap: seq<bv8>, id: nat, j: int)
    ensures BitGet(BitSet(bitmap, id), j) <==> (j == id && id / 8 < |bitmap|) || BitGet(bitmap, j)
    ensures BitGet(BitClear(bitmap, id), j) <==> j != id && BitGet(bitmap, j)
  {
    hide Bit, With, Without;
    if 0 <= j && j / 8 == id / 8 && j / 8 < |bitmap| {
      OneBit(bitmap[id / 8], id % 8, j % 8);
    }
  }

  // ---------------------------------------------------------------- file growth

  /** `ftruncate`: cut, or extend with zeros. */
  function Resize<T>(s: seq<T>, n: nat, zero: T): (r: seq<T>)
    ensures |r| == n
    ensures forall i :: 0 <= i < n ==> r[i] == if i < |s| then s[i] else zero
  {
    if n <= |s| then s[..n] else s + seq(n - |s|, i => zero)
  }

  function ResizeData(s: Store, size: nat): Store {
    s.(size := size, cells := Resize(s.cells, size / REC_SIZE, ZERO))
  }

  function ResizeBitmap(s: Store, bytes: nat): Store {
    s.(bitmap := Resize(s.bitmap, bytes, 0))
  }

  lemma ResizedBits(bitmap: seq<bv8>, bytes: nat, j: int)
    requires |bitmap| <= bytes
    ensures BitGet(Resize(bitmap, bytes, 0), j) <==> BitGet(bitmap, j)
  {
    if 0 <= j && j / 8 < bytes { ZeroByte(0); }
  }

  function Max(a: nat, b: nat): nat { if a < b then b else a }

  /** Data size after a grow for `id`; unchanged when nothing has to grow. */
  function GrownSize(size: nat, id: nat): nat {
    if id > MAX_SANE_ID || (id + 1) * REC_SIZE <= size then size
    else Max(Max((id + 1) * REC_SIZE, size + size / 4), size + 1_000_000 * REC_SIZE)
  }

  /** The data file first: what a crash between the two truncations leaves on disk. */
  function HalfGrown(s: Store, id: nat): Store { ResizeData(s, GrownSize(s.size, id)) }

  function Grow(s: Store, id: nat): Store {
    if GrownSize(s.size, id) == s.size then s
    else ResizeBitmap(HalfGrown(s, id), BytesFor(GrownSize(s.size, id) / REC_SIZE))
  }

  /** `createFile` followed by opening. */
  function Create(maxId: nat): Store {
    Store((maxId + 1) * REC_SIZE, seq(maxId + 1, i => ZERO), seq(BytesFor(maxId + 1), i => 0))
  }

  /** Opening existing files: both are grown to the requested id range, neither is ever cut. */
  function Reopen(s: Store, maxId: nat): Store {
    ResizeBitmap(ResizeData(s, Max((maxId + 1) * REC_SIZE, s.size)), Max(BytesFor(maxId + 1), |s.bitmap|))
  }

  // ---------------------------------------------------------------- reads and writes

  /** The record a 64-bit offset computation addresses. */
  function Slot(id: nat): nat { id % SLOT_LIMIT }

  function Offset(id: nat): nat { id * REC_SIZE % SIZE_LIMIT }

  /** `offset + REC_SIZE > merged_size_` with the sum taken modulo 2^64. */
  predicate InRange(s: Store, id: nat) { (Offset(id) + REC_SIZE) % SIZE_LIMIT <= s.size }

  /** For the one slot whose end is 2^64 itself the range test is meaningless. */
  predicate Addressable(id: int) { id < 0 || Slot(id) != SLOT_LIMIT - 1 }

  lemma SlotRange(s: Store, id: nat)
    requires Addressable(id)
    ensures Offset(id) == Slot(id) * REC_SIZE
    ensures InRange(s, id) <==> Slot(id) < Capacity(s)
    ensures id < SLOT_LIMIT ==> Slot(id) == id
  {
    var q := id / SLOT_LIMIT;
    assert id == q * SLOT_LIMIT + Slot(id);
    assert id * REC_SIZE == q * SIZE_LIMIT + Slot(id) * REC_SIZE;
    assert 0 <= Slot(id) * REC_SIZE < SIZE_LIMIT - REC_SIZE;
    DivModUnique(id * REC_SIZE, SIZE_LIMIT, q, Slot(id) * REC_SIZE);
  }

  lemma DivModUnique(x: int, d: int, q: int, r: int)
    requires d > 0 && x == q * d + r && 0 <= r < d
    ensures x % d == r
  {
    var k := x / d - q;
    assert k > 0 ==> k * d >= d;
    assert k < 0 ==> k * d <= -d;
    assert x % d == r - k * d;
  }

  function Select(s: Store, id: int): Option<Coord>
    requires Valid(s)
  {
    if BitGet(s.bitmap, id) && Slot(id) < |s.cells| then Some(s.cells[Slot(id)]) else None
  }

  function Update(s: Store, id: int, c: Coord): Store
    requires Valid(s) && Addressable(id)
  {
    if id < 0 then s
    else
      var g := Grow(s, id);
      if Slot(id) >= |g.cells| then g
      else g.(cells := g.cells[Slot(id) := c], bitmap := BitSet(g.bitmap, id))
  }

  function Remove(s: Store, id: int): Store
    requires Valid(s) && Addressable(id)
  {
    if id < 0 || Slot(id) >= |s.cells| then s
    else s.(cells := s.cells[Slot(id) := ZERO], bitmap := BitClear(s.bitmap, id))
  }

  // ---------------------------------------------------------------- invariants

  /** Every set bit points at a record the data file covers. */
  ghost predicate BitsCovered(s: Store) {
    forall id :: BitGet(s.bitmap, id) ==> id < Capacity(s)
  }

  ghost predicate Valid(s: Store) {
    && s.size < SIZE_LIMIT
    && |s.cells| == Capacity(s)
    && |s.bitmap| <= BytesFor(Capacity(s))
    && BitsCovered(s)
  }

  /** The bitmap has a bit for every record; lost only by a crash inside a grow. */
  predicate Coverage(s: Store) { Capacity(s) <= 8 * |s.bitmap| }

  lemma SelectPlain(s: Store, id: int)
    requires Valid(s)
    ensures Select(s, id) == if BitGet(s.bitmap, id) then Some(s.cells[id]) else None
  {
    if BitGet(s.bitmap, id) { assert id < Capacity(s); assert Capacity(s) < SLOT_LIMIT; }
  }

  lemma CreateValid(maxId: nat, id: int)
    requires (maxId + 1) * REC_SIZE < SIZE_LIMIT
    ensures Valid(Create(maxId)) && Coverage(Create(maxId)) && Select(Create(maxId), id) == None
  {
    var s := Create(maxId);
    forall j ensures !BitGet(s.bitmap, j) {
      if 0 <= j && j / 8 < |s.bitmap| { ZeroByte(0); assert s.bitmap[j / 8] == 0; }
    }
  }

  /** Growing a file pair, in any of its three ways, keeps every readable id as it was. */
  lemma ResizeKeeps(s: Store, size: nat, bytes: nat)
    requires Valid(s) && s.size <= size < SIZE_LIMIT
    requires |s.bitmap| <= bytes <= BytesFor(size / REC_SIZE)
    ensures var r := ResizeBitmap(ResizeData(s, size), bytes);
            && Valid(r) && (8 * bytes >= size / REC_SIZE ==> Coverage(r))
            && forall id :: Select(r, id) == Select(s, id)
  {
    hide Bit;
    var r := ResizeBitmap(ResizeData(s, size), bytes);
    assert Capacity(s) <= Capacity(r) by { DivMono(s.size, size); }
    forall id ensures BitGet(r.bitmap, id) == BitGet(s.bitmap, id) { ResizedBits(s.bitmap, bytes, id); }
    forall id ensures Select(r, id) == Select(s, id) {
      SelectPlain(s, id);
      SelectPlain(r, id);
      if BitGet(s.bitmap, id) { assert id < Capacity(s); }
    }
  }

  lemma DivMono(a: nat, b: nat)
    requires a <= b
    ensures a / REC_SIZE <= b / REC_SIZE
  {}

  lemma GrownSizeFacts(s: Store, id: nat)
    requires Valid(s)
    ensures var n := GrownSize(s.size, id);
            && s.size <= n < SIZE_LIMIT
            && (n > s.size ==> id <= MAX_SANE_ID)
            && (id <= MAX_SANE_ID ==> (id + 1) * REC_SIZE <= n)
  {}

  lemma GrowKeeps(s: Store, id: nat)
    requires Valid(s)
    ensures Valid(Grow(s, id)) && (Coverage(s) ==> Coverage(Grow(s, id)))
    ensures forall j :: Select(Grow(s, id), j) == Select(s, j)
    ensures Capacity(s) <= Capacity(Grow(s, id))
    ensures id <= MAX_SANE_ID ==> id < Capacity(Grow(s, id))
    ensures id > MAX_SANE_ID ==> Grow(s, id) == s
  {
    hide BitsCovered, Select, GrownSize;
    var n := GrownSize(s.size, id);
    GrownSizeFacts(s, id);
    DivMono(s.size, n);
    if n != s.size { ResizeKeeps(s, n, BytesFor(n / REC_SIZE)); }
    if id <= MAX_SANE_ID { DivMono((id + 1) * REC_SIZE, n); assert (id + 1) * REC_SIZE / REC_SIZE == id + 1; }
  }

  /**
   When and how far the files grow: for an id up to the ceiling whose 16 bytes lie past the end,
   to the largest of that end, a quarter more, and a million records more, with a bit for each
   record.
   */
  lemma GrowthIs(s: Store, id: nat)
    requires Valid(s)
    ensures var g := Grow(s, id); var end := 16 * (id + 1);
      if id > 100_000_000_000 || end <= s.size then g == s
      else
        && g.size >= end && g.size >= s.size + s.size / 4 && g.size >= s.size + 16_000_000
        && (g.size == end || g.size == s.size + s.size / 4 || g.size == s.size + 16_000_000)
        && |g.cells| == g.size / 16 && 8 * |g.bitmap| >= g.size / 16 && 8 * (|g.bitmap| - 1) < g.size / 16
  {
    hide BitsCovered;
  }

  /** New files, and files reopened: 16 bytes and one bit an id, and no file is ever cut. */
  lemma FileSizes(s: Store, maxId: nat)
    ensures Create(maxId).size == 16 * (maxId + 1) && |Create(maxId).cells| == maxId + 1
    ensures forall i :: 0 <= i <= maxId ==> Create(maxId).cells[i].x == Create(maxId).cells[i].y == 0
    ensures 8 * |Create(maxId).bitmap| > maxId >= 8 * (|Create(maxId).bitmap| - 1)
    ensures var r := Reopen(s, maxId); var n := |Create(maxId).bitmap|;
      && r.size == (if s.size < 16 * (maxId + 1) then 16 * (maxId + 1) else s.size)
      && |r.bitmap| == (if |s.bitmap| < n then n else |s.bitmap|)
  {}

  /** A removed record is zeroed and its bit cleared; the other records stay. */
  lemma RemovedRecord(s: Store, id: nat)
    requires Valid(s) && id < Capacity(s)
    ensures Addressable(id)
    ensures var r := Remove(s, id);
      && r.size == s.size && r.cells == s.cells[id := Coord(0, 0)] && !BitGet(r.bitmap, id)
      && forall j :: j != id ==> (BitGet(r.bitmap, j) <==> BitGet(s.bitmap, j))
  {
    hide Bit, BitClear;
    forall j ensures BitGet(BitClear(s.bitmap, id), j) <==> j != id && BitGet(s.bitmap, j) { BitSetGet(s.bitmap, id, j); }
  }

  // ---------------------------------------------------------------- what update and remove do

  predicate Dropped(s: Store, id: int) { id < 0 || (id > MAX_SANE_ID && id >= Capacity(s)) }

  /** An id past 2^60 whose offset wraps onto a populated record. */
  predicate Wraps(s: Store, id: int) {
    id >= SLOT_LIMIT && BitGet(s.bitmap, Slot(id))
  }

  /** The update reaches a record of its own whose bit exists. */
  predicate Lands(s: Store, id: int) {
    0 <= id && id < Capacity(Grow(s, id)) && id / 8 < |Grow(s, id).bitmap|
  }

  /** The write itself, once the record is in range; a bit past the bitmap is not set. */
  lemma WriteAt(s: Store, id: nat, c: Coord, put: bool, j: int)
    requires Valid(s) && Addressable(id) && Slot(id) < Capacity(s)
    ensures var r := s.(cells := s.cells[Slot(id) := c],
                        bitmap := if put then BitSet(s.bitmap, id) else BitClear(s.bitmap, id));
            && Valid(r) && (Coverage(s) ==> Coverage(r))
            && Select(r, j) == if j == id && !put then None
                               else if j == id && id / 8 < |s.bitmap| then Some(c)
                               else if j == Slot(id) && Wraps(s, id) then Some(c)
                               else Select(s, j)
  {
    hide Bit, BitSet, BitClear;
    var r := s.(cells := s.cells[Slot(id) := c],
                bitmap := if put then BitSet(s.bitmap, id) else BitClear(s.bitmap, id));
    SameLength(s.bitmap, id);
    SlotRange(s, id);
    if id >= SLOT_LIMIT { PastTheBitmap(s, id); }
    forall k ensures BitGet(r.bitmap, k) ==> k < Capacity(r) {
      BitSetGet(s.bitmap, id, k);
    }
    BitSetGet(s.bitmap, id, j);
    SelectPlain(s, j);
    SelectPlain(r, j);
  }

  lemma SameLength(bitmap: seq<bv8>, id: nat)
    ensures |BitSet(bitmap, id)| == |BitClear(bitmap, id)| == |bitmap|
  {}

  lemma PastTheBitmap(s: Store, id: nat)
    requires Valid(s) && id >= SLOT_LIMIT
    ensures id / 8 >= |s.bitmap| && !BitGet(s.bitmap, id)
  {
    assert Capacity(s) <= SLOT_LIMIT - 1;
    assert BytesFor(Capacity(s)) <= (SLOT_LIMIT + 6) / 8;
    assert id / 8 >= SLOT_LIMIT / 8;
  }

  lemma UpdateEffect(s: Store, id: int, c: Coord, j: int)
    requires Valid(s) && Addressable(id)
    ensures Valid(Update(s, id, c)) && (Coverage(s) ==> Coverage(Update(s, id, c)))
    ensures Select(Update(s, id, c), j) ==
              if j == id && Lands(s, id) then Some(c)
              else if id >= 0 && j == Slot(id) && Wraps(s, id) then Some(c)
              else Select(s, j)
  {
    hide Valid, Select, Grow, BitGet, BitSet, GrownSize;
    if id >= 0 {
      var g := Grow(s, id);
      GrowKeeps(s, id);
      CellsAre(g);
      SlotRange(g, id);
      if id >= SLOT_LIMIT { CapacityBound(g); CapacityBound(s); }
      if Slot(id) < Capacity(g) {
        WriteAt(g, id, c, true, j);
        if id >= SLOT_LIMIT { PastTheBitmap(g, id); }
      } else {
        NoWrap(s, id);
      }
    }
  }

  /** With a covering bitmap every id lands but the negative and the over-ceiling past capacity. */
  lemma CoveredLands(s: Store, id: int)
    requires Valid(s) && Coverage(s)
    ensures Lands(s, id) <==> !Dropped(s, id)
  {
    hide Valid, Select, Grow, GrownSize;
    if id >= 0 { GrowKeeps(s, id); }
  }

  lemma CellsAre(s: Store)
    requires Valid(s)
    ensures |s.cells| == Capacity(s)
  {}

  lemma CapacityBound(s: Store)
    requires Valid(s)
    ensures Capacity(s) < SLOT_LIMIT
  {}

  lemma NoWrap(s: Store, id: nat)
    requires Valid(s) && Slot(id) >= Capacity(s)
    ensures !Wraps(s, id)
  {}

  lemma RemoveEffect(s: Store, id: int, j: int)
    requires Valid(s) && Addressable(id)
    ensures Valid(Remove(s, id)) && (Coverage(s) ==> Coverage(Remove(s, id)))
    ensures Select(Remove(s, id), j) ==
              if j == id then None
              else if id >= 0 && j == Slot(id) && Wraps(s, id) then Some(ZERO)
              else Select(s, j)
  {
    hide Bit, BitClear;
    SelectPlain(s, j);
    if id >= 0 {
      SlotRange(s, id);
      if Slot(id) < Capacity(s) {
        WriteAt(s, id, ZERO, false, j);
        if id >= SLOT_LIMIT { PastTheBitmap(s, id); }
      }
    }
  }

  /**
   Exactly when an update behaves as a map update (or, for a dropped id, as no update), for
   any store: its offset must not wrap onto a populated record holding another coordinate,
   and the bitmap must have, or grow, a bit for it.
   */
  lemma UpdateFaithfulIff(s: Store, id: int, c: Coord)
    requires Valid(s) && Addressable(id)
    ensures Valid(Update(s, id, c))
    ensures (forall j :: Select(Update(s, id, c), j) == if j == id && !Dropped(s, id) then Some(c) else Select(s, j))
       <==> !(id >= SLOT_LIMIT && Wraps(s, id) && s.cells[Slot(id)] != c) && (Dropped(s, id) || Lands(s, id))
  {
    hide Valid, Select, Update, BitGet, Lands, Dropped;
    UpdateEffect(s, id, c, 0);
    forall j ensures Select(Update(s, id, c), j) ==
              if j == id && Lands(s, id) then Some(c)
              else if id >= 0 && j == Slot(id) && Wraps(s, id) then Some(c)
              else Select(s, j)
    { UpdateEffect(s, id, c, j); }
    LandsOrDropped(s, id);
    if id >= SLOT_LIMIT && Wraps(s, id) {
      SelectPlain(s, Slot(id));
      assert Slot(id) < SLOT_LIMIT;
    }
    if !Lands(s, id) && !Dropped(s, id) { NoBitYet(s, id); }
  }

  lemma LandsOrDropped(s: Store, id: int)
    requires Valid(s)
    ensures Lands(s, id) ==> !Dropped(s, id)
    ensures id >= SLOT_LIMIT ==> Dropped(s, id)
  {
    hide Valid, Select, Grow, GrownSize;
    if id >= 0 { GrowKeeps(s, id); }
    CapacityBound(s);
  }

  /** An id that does not land reads as nothing. */
  lemma NoBitYet(s: Store, id: int)
    requires Valid(s) && Addressable(id) && !Lands(s, id) && !Dropped(s, id)
    ensures Select(s, id) == None && !Wraps(s, id)
  {
    hide Bit, GrownSize, BitsCovered;
    GrowKeeps(s, id);
    LandsOrDropped(s, id);
    SelectPlain(s, id);
    SelectPlain(Grow(s, id), id);
  }

  // ---------------------------------------------------------------- crashes inside a grow

  /**
   A crash at any point of a grow, then reopening with any id range: every set bit still
   points at a covered record and every readable id reads as before.
   */
  lemma GrowCrashSafe(s: Store, id: nat, halfway: bool, maxId: nat)
    requires Valid(s) && (maxId + 1) * REC_SIZE < SIZE_LIMIT
    ensures var disk := if halfway then HalfGrown(s, id) else s;
            var r := Reopen(disk, maxId);
            && Valid(r) && forall j :: Select(r, j) == Select(s, j)
  {
    hide BitsCovered, Select;
    GrownSizeFacts(s, id);
    var n := if halfway then GrownSize(s.size, id) else s.size;
    var disk := ResizeData(s, n);
    DivMono(s.size, n);
    ResizeKeeps(s, n, |s.bitmap|);
    assert Resize(s.bitmap, |s.bitmap|, 0) == s.bitmap;
    assert ResizeBitmap(disk, |s.bitmap|) == disk;
    if !halfway { assert disk.cells == s.cells; }
    ReopenKeeps(disk, maxId);
  }

  lemma ReopenKeeps(s: Store, maxId: nat)
    requires Valid(s) && (maxId + 1) * REC_SIZE < SIZE_LIMIT
    ensures Valid(Reopen(s, maxId)) && (Coverage(s) ==> Coverage(Reopen(s, maxId)))
    ensures forall j :: Select(Reopen(s, maxId), j) == Select(s, j)
  {
    hide BitsCovered, Select;
    var size := Max((maxId + 1) * REC_SIZE, s.size);
    DivMono(s.size, size);
    DivMono((maxId + 1) * REC_SIZE, size);
    assert (maxId + 1) * REC_SIZE / REC_SIZE == maxId + 1;
    ResizeKeeps(s, size, Max(BytesFor(maxId + 1), |s.bitmap|));
  }

  /**
   Write-then-read, exactly, for any store a crash can leave: the bitmap has the bit already,
   or this very update grows the files.
   */
  lemma WriteReadIff(s: Store, id: nat, c: Coord)
    requires Valid(s) && id <= MAX_SANE_ID
    ensures Addressable(id) && Valid(Update(s, id, c))
    ensures Select(Update(s, id, c), id) == Some(c) <==> id < 8 * |s.bitmap| || GrownSize(s.size, id) != s.size
  {
    hide Valid, Select, GrownSize, BitGet;
    UpdateEffect(s, id, c, id);
    GrowKeeps(s, id);
    LandsIff(s, id);
    if !Lands(s, id) { NoBitYet(s, id); }
  }

  lemma LandsIff(s: Store, id: nat)
    requires Valid(s) && id <= MAX_SANE_ID
    ensures Lands(s, id) <==> id < 8 * |s.bitmap| || GrownSize(s.size, id) != s.size
  {
    hide BitsCovered, Select, GrownSize;
    GrowKeeps(s, id);
    var n := GrownSize(s.size, id);
    GrownSizeFacts(s, id);
    DivMono((id + 1) * REC_SIZE, n);
    assert (id + 1) * REC_SIZE / REC_SIZE == id + 1;
    if n != s.size { assert |Grow(s, id).bitmap| == BytesFor(n / REC_SIZE); }
  }

  /** When the store a half-finished grow leaves still has a bit for every record. */
  lemma CoverageAfterCrashIff(s: Store, id: nat, maxId: nat)
    requires Valid(s)
    ensures Coverage(Reopen(HalfGrown(s, id), maxId)) <==>
      GrownSize(s.size, id) / REC_SIZE <= 8 * Max(BytesFor(maxId + 1), |s.bitmap|)
  {
    hide GrownSize, BitsCovered;
    var n := GrownSize(s.size, id);
    var size := Max((maxId + 1) * REC_SIZE, n);
    assert (maxId + 1) * REC_SIZE / REC_SIZE == maxId + 1;
    if n < (maxId + 1) * REC_SIZE {
      DivMono(n, (maxId + 1) * REC_SIZE);
    }
    assert maxId + 1 <= 8 * BytesFor(maxId + 1);
  }

  /** One grow of a fresh store, cut short and reopened: a million slots, eight bits, id 8 lost. */
  lemma CrashLosesWrite(c: Coord)
    ensures var s := Reopen(HalfGrown(Create(0), 1), 0);
      && Valid(s) && Capacity(s) == 1_000_001 && |s.bitmap| == 1 && !Coverage(s)
      && Select(Update(s, 8, c), 8) == None
  {
    hide Select, Update;
    CreateValid(0, 0);
    GrowCrashSafe(Create(0), 1, true, 0);
    var s := Reopen(HalfGrown(Create(0), 1), 0);
    assert s.size == 1_000_001 * REC_SIZE && |s.bitmap| == 1;
    LostWithoutCoverage(s, 8, c);
  }

  /** After such a crash a write may be lost: in range, but past the end of the bitmap. */
  lemma LostWithoutCoverage(s: Store, id: nat, c: Coord)
    requires Valid(s) && id < Capacity(s) && 8 * |s.bitmap| <= id
    ensures Addressable(id) && Select(Update(s, id, c), id) == None
  {
    hide Bit;
    assert id < SLOT_LIMIT - 1 by { assert Capacity(s) <= SLOT_LIMIT - 1; assert id <= SLOT_LIMIT - 2; }
    var n := GrownSize(s.size, id);
    assert (id + 1) * REC_SIZE <= s.size;
    assert Grow(s, id) == s;
    assert BitSet(s.bitmap, id) == s.bitmap;
    var r := Update(s, id, c);
    assert Valid(r);
    SelectPlain(r, id);
  }
}
