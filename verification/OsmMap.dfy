/** The node store object of src/OSMMMap.cpp, over arrays standing for the two mapped files. */
module OsmMap {
  import opened Core
  import opened Bits
  import opened NodeStore
  import opened Scan

  class OSMMMap {
    var size: nat
    var data: array<Coord>
    var bm: array<bv8>

    function Value(): Store
      reads this, data, bm
    {
      Store(size, data[..], bm[..])
    }

    ghost predicate Ok()
      reads this, data, bm
    {
      NodeStore.Valid(Value()) && (data as object) != (bm as object)
    }

    constructor CreateFile(maxId: nat)
      requires (maxId + 1) * REC_SIZE < SIZE_LIMIT
      ensures Value() == Create(maxId) && Ok() && fresh(data) && fresh(bm)
    {
      size := (maxId + 1) * REC_SIZE;
      data := new Coord[maxId + 1](i => ZERO);
      bm := new bv8[BytesFor(maxId + 1)](i => 0);
      new;
      CreateValid(maxId, 0);
      assert data[..] == Create(maxId).cells;
      assert bm[..] == Create(maxId).bitmap;
    }

    method Select(id: int) returns (at: Option<Coord>)
      requires Ok()
      ensures at == NodeStore.Select(Value(), id)
    {
      hide Bit;
      ghost var s := Value();
      SelectPlain(s, id);
      if id < 0 || id / 8 >= bm.Length || !Bit(bm[id / 8], id % 8) { return None; }
      assert BitGet(s.bitmap, id);
      assert id < Capacity(s) == data.Length;
      return Some(data[id]);
    }

    method GrowMergedIfNeeded(id: nat)
      requires Ok()
      modifies this
      ensures Ok() && Value() == Grow(old(Value()), id)
      ensures data == old(data) || fresh(data)
      ensures bm == old(bm) || fresh(bm)
    {
      hide BitsCovered;
      ghost var s := Value();
      GrowKeeps(s, id);
      if id > MAX_SANE_ID { return; }
      var needed := (id + 1) * REC_SIZE;
      if needed <= size { return; }
      var newSize := Max(Max(needed, size + size / 4), size + 1_000_000 * REC_SIZE);
      assert newSize == GrownSize(size, id);
      var newBytes := BytesFor(newSize / REC_SIZE);
      var oldData, oldBm := data, bm;
      var grown := new Coord[newSize / REC_SIZE](i reads oldData => if 0 <= i < oldData.Length then oldData[i] else ZERO);
      assert grown[..] == Resize(s.cells, newSize / REC_SIZE, ZERO);
      data := grown;
      size := newSize;
      assert Value() == HalfGrown(s, id);
      var bits := new bv8[newBytes](i reads oldBm => if 0 <= i < oldBm.Length then oldBm[i] else 0);
      assert bits[..] == Resize(s.bitmap, newBytes, 0);
      bm := bits;
    }

    method SetBit(id: nat)
      modifies bm
      ensures bm[..] == BitSet(old(bm[..]), id)
    {
      hide With;
      if id / 8 >= bm.Length { return; }
      bm[id / 8] := With(bm[id / 8], id % 8);
    }

    method ClearBit(id: nat)
      modifies bm
      ensures bm[..] == BitClear(old(bm[..]), id)
    {
      hide Without;
      if id / 8 >= bm.Length { return; }
      bm[id / 8] := Without(bm[id / 8], id % 8);
    }

    method Update(id: int, at: Coord)
      requires Ok() && Addressable(id)
      modifies this, data, bm
      ensures Value() == NodeStore.Update(old(Value()), id, at)
    {
      hide BitsCovered, BitSet, GrownSize;
      if id < 0 { return; }
      GrowMergedIfNeeded(id);
      ghost var g := Value();
      SlotRange(g, id);
      var offset := Offset(id);
      if (offset + REC_SIZE) % SIZE_LIMIT > size { return; }
      RecordIndex(Slot(id));
      data[offset / REC_SIZE] := at;
      assert data[..] == g.cells[Slot(id) := at];
      SetBit(id);
      assert Value() == g.(cells := g.cells[Slot(id) := at], bitmap := BitSet(g.bitmap, id));
    }

    method Remove(id: int)
      requires Ok() && Addressable(id)
      modifies data, bm
      ensures Value() == NodeStore.Remove(old(Value()), id)
    {
      hide BitsCovered, BitClear;
      if id < 0 { return; }
      ghost var s := Value();
      SlotRange(s, id);
      var offset := Offset(id);
      if (offset + REC_SIZE) % SIZE_LIMIT > size { return; }
      RecordIndex(Slot(id));
      data[offset / REC_SIZE] := ZERO;
      assert data[..] == s.cells[Slot(id) := ZERO];
      ClearBit(id);
      assert Value() == s.(cells := s.cells[Slot(id) := ZERO], bitmap := BitClear(s.bitmap, id));
    }

    /** The scan skips empty bytes, then unset bits. */
    method ForEachPopulatedRange(byteStart: nat, byteEnd: nat) returns (out: seq<Rec>)
      requires Ok()
      ensures var last := if byteEnd < bm.Length then byteEnd else bm.Length;
              out == if byteStart < last then Populated(Value(), 8 * byteStart, 8 * last) else []
    {
      hide NodeStore.Valid, Populated, BitGet;
      ghost var s := Value();
      var last := if byteEnd < bm.Length then byteEnd else bm.Length;
      out := [];
      if byteStart >= last { return; }
      var byte := byteStart;
      StartScan(s, 8 * byteStart);
      while byte < last
        invariant byteStart <= byte <= last
        invariant out == Populated(s, 8 * byteStart, 8 * byte)
      {
        PopulatedSplit(s, 8 * byteStart, 8 * byte, 8 * byte + 8);
        if bm[byte] == 0 {
          EmptyByte(s, byte);
        } else {
          var here := ScanByte(byte);
          out := out + here;
        }
        assert 8 * (byte + 1) == 8 * byte + 8;
        byte := byte + 1;
      }
    }

    method ScanByte(byte: nat) returns (out: seq<Rec>)
      requires Ok() && byte < bm.Length
      ensures out == Populated(Value(), 8 * byte, 8 * byte + 8)
    {
      hide NodeStore.Valid, NodeStore.Select, Bit, BitGet;
      ghost var s := Value();
      out := [];
      StartScan(s, 8 * byte);
      for bit := 0 to 8
        invariant out == Populated(s, 8 * byte, 8 * byte + bit)
      {
        var id := 8 * byte + bit;
        SelectPlain(s, id);
        BitOfByte(s.bitmap, byte, bit);
        if Bit(bm[byte], bit) {
          BitCovered(s, id);
          if id < data.Length { out := out + [Rec(id, data[id])]; }
        }
      }
    }

    method HighestPopulatedId() returns (id: int)
      requires Ok()
      ensures -1 <= id && (id >= 0 ==> BitGet(Value().bitmap, id))
      ensures forall j :: BitGet(Value().bitmap, j) ==> j <= id
    {
      hide NodeStore.Valid, Bit;
      ghost var bits := bm[..];
      var byte := bm.Length;
      while byte > 0
        invariant 0 <= byte <= bm.Length
        invariant forall j :: BitGet(bits, j) ==> j < 8 * byte
      {
        byte := byte - 1;
        if bm[byte] != 0 {
          var bit := 7;
          while bit >= 0
            invariant -1 <= bit <= 7
            invariant forall j :: BitGet(bits, j) ==> j < 8 * byte + bit + 1
          {
            var top := 8 * byte + bit;
            assert top / 8 == byte && top % 8 == bit;
            if Bit(bm[byte], bit) {
              assert BitGet(bits, top);
              return top;
            }
            assert !BitGet(bits, top);
            bit := bit - 1;
          }
        } else {
          EmptyBits(bits, byte);
        }
      }
      return -1;
    }
  }

  lemma RecordIndex(slot: nat)
    ensures slot * REC_SIZE / REC_SIZE == slot
  {}

  lemma StartScan(s: Store, lo: nat)
    requires NodeStore.Valid(s)
    ensures Populated(s, lo, lo) == []
  {}

  lemma BitCovered(s: Store, id: nat)
    requires NodeStore.Valid(s) && BitGet(s.bitmap, id)
    ensures id < |s.cells|
  {}

  lemma BitOfByte(bits: seq<bv8>, byte: nat, bit: nat)
    requires byte < |bits| && bit < 8
    ensures BitGet(bits, 8 * byte + bit) <==> Bit(bits[byte], bit)
  {
    hide Bit;
    assert (8 * byte + bit) / 8 == byte && (8 * byte + bit) % 8 == bit;
  }

  lemma EmptyBits(bits: seq<bv8>, byte: nat)
    requires byte < |bits| && bits[byte] == 0
    ensures forall j :: 8 * byte <= j < 8 * byte + 8 ==> !BitGet(bits, j)
  {
    ZeroByte(0);
    forall j | 8 * byte <= j < 8 * byte + 8 ensures !BitGet(bits, j) { assert j / 8 == byte; }
  }

  lemma EmptyByte(s: Store, byte: nat)
    requires NodeStore.Valid(s) && byte < |s.bitmap| && s.bitmap[byte] == 0
    ensures Populated(s, 8 * byte, 8 * byte + 8) == []
  {
    hide NodeStore.Valid, BitGet;
    EmptyBits(s.bitmap, byte);
    PopulatedNone(s, 8 * byte, 8 * byte + 8);
  }
}
