/**
 The decoder as it runs (src/WkbDecode.cpp): a bounds-checked cursor and a recursive
 reader with loops. It accepts exactly what the decoding function accepts.
 */
module WkbCursor {
  import opened Core
  import opened Wire
  import opened Geometry
  import opened Ewkb

  class Cursor {
    const data: seq<Byte>
    var pos: nat
    var failed: bool

    constructor (bytes: seq<Byte>)
      ensures data == bytes && pos == 0 && !failed
    {
      data, pos, failed := bytes, 0, false;
    }

    predicate Valid()
      reads this
    {
      pos <= |data|
    }

    function Rest(): seq<Byte>
      reads this
      requires Valid()
    {
      data[pos..]
    }

    method U8() returns (v: Byte)
      requires Valid()
      modifies this
      ensures Valid()
      ensures |old(Rest())| < 1 ==> failed && pos == old(pos)
      ensures |old(Rest())| >= 1 ==> failed == old(failed) && v == old(Rest())[0] && Rest() == old(Rest())[1..]
    {
      if pos + 1 > |data| { failed := true; return 0; }
      v := data[pos];
      pos := pos + 1;
    }

    method U32() returns (v: nat)
      requires Valid()
      modifies this
      ensures Valid()
      ensures |old(Rest())| < 4 ==> failed && pos == old(pos)
      ensures |old(Rest())| >= 4 ==> failed == old(failed) && DecodeU32(old(Rest())) == Some(Decoded(v, Rest()))
    {
      hide FromLE;
      if pos + 4 > |data| { failed := true; return 0; }
      var s := data[pos..pos + 4];
      assert s == Rest()[..4];
      v := FourLE(s[0], s[1], s[2], s[3]);
      FourBytes(s);
      pos := pos + 4;
    }

    method F64() returns (v: Word)
      requires Valid()
      modifies this
      ensures Valid()
      ensures |old(Rest())| < 8 ==> failed && pos == old(pos)
      ensures |old(Rest())| >= 8 ==> failed == old(failed) && v == FromLE(old(Rest())[..8]) && Rest() == old(Rest())[8..]
    {
      hide FromLE;
      if pos + 8 > |data| { failed := true; return 0; }
      Widths();
      LEBytes(data[pos..pos + 8]);
      assert data[pos..pos + 8] == Rest()[..8];
      v := FromLE(data[pos..pos + 8]);
      pos := pos + 8;
    }
  }

  function FourLE(a: int, b: int, c: int, d: int): (v: int)
    ensures a >= 0 && b >= 0 && c >= 0 && d >= 0 ==> v >= 0
  {
    a + 0x100 * b + 0x1_0000 * c + 0x100_0000 * d
  }

  lemma FourBytes(s: seq<Byte>)
    requires |s| == 4
    ensures FromLE(s) == FourLE(s[0], s[1], s[2], s[3])
  {
    assert FromLE(s) == s[0] + 256 * FromLE(s[1..]);
    assert FromLE(s[1..]) == s[1] + 256 * FromLE(s[1..][1..]);
    assert s[1..][1..] == s[2..] && s[2..][1..] == s[3..] && s[3..][1..] == [];
    assert FromLE(s[2..]) == s[2] + 256 * FromLE(s[3..]);
    assert FromLE(s[3..]) == s[3];
  }

  /** The reading ended where the decoding function says, or failed where it fails. */
  ghost predicate Matches<T>(spec: Option<Decoded<T>>, r: Option<T>, c: Cursor)
    reads c
  {
    match spec
    case None => r == None
    case Some(d) => r == Some(d.value) && !c.failed && c.Valid() && c.Rest() == d.rest
  }

  /** What a loop has read, in front of what is still to be read. */
  ghost function Prefix<T>(done: seq<T>, r: Option<Decoded<seq<T>>>): Option<Decoded<seq<T>>> {
    match r case None => None case Some(d) => Some(Decoded(done + d.value, d.rest))
  }

  lemma PrefixEnds<T>(done: seq<T>, r: Option<Decoded<seq<T>>>)
    ensures Prefix([], r) == r
    ensures r.Some? && r.value.value == [] ==> Prefix(done, r) == Some(Decoded(done, r.value.rest))
  {
    if r.Some? { assert [] + r.value.value == r.value.value; }
    assert done + [] == done;
  }

  method ReadCoord(c: Cursor) returns (r: Option<Coord>)
    requires c.Valid() && !c.failed
    modifies c
    ensures c.Valid() && Matches(DecodeCoord(old(c.Rest())), r, c)
  {
    hide FromLE;
    ghost var b := c.Rest();
    var x := c.F64();
    assert |b| >= 8 ==> |c.Rest()| == |b| - 8;
    var y := c.F64();
    if c.failed {
      assert |b| < 16;
      return None;
    }
    assert b[8..][..8] == b[8..16] && b[8..][8..] == b[16..];
    return Some(Coord(x, y));
  }

  method ReadCoords(c: Cursor, n: nat) returns (r: Option<seq<Coord>>)
    requires c.Valid() && !c.failed
    modifies c
    ensures c.Valid() && Matches(DecodeCoords(n, old(c.Rest())), r, c)
  {
    hide DecodeCoord;
    var points: seq<Coord> := [];
    ghost var b := c.Rest();
    PrefixEnds([], DecodeCoords(n, b));
    for i := 0 to n
      invariant c.Valid() && !c.failed
      invariant DecodeCoords(n, b) == Prefix(points, DecodeCoords(n - i, c.Rest()))
    {
      ghost var before := c.Rest();
      var p := ReadCoord(c);
      if p.None? { return None; }
      PrefixOneCoord(points, p.value, n - i, before, c.Rest());
      points := points + [p.value];
    }
    PrefixEnds(points, DecodeCoords(0, c.Rest()));
    return Some(points);
  }

  lemma PrefixOneCoord(points: seq<Coord>, p: Coord, n: nat, b: seq<Byte>, rest: seq<Byte>)
    requires n > 0 && DecodeCoord(b) == Some(Decoded(p, rest))
    ensures Prefix(points, DecodeCoords(n, b)) == Prefix(points + [p], DecodeCoords(n - 1, rest))
  {
    hide DecodeCoord;
    var more := DecodeCoords(n - 1, rest);
    if more.Some? { assert points + ([p] + more.value.value) == (points + [p]) + more.value.value; }
  }

  method ReadRing(c: Cursor) returns (r: Option<seq<Coord>>)
    requires c.Valid() && !c.failed
    modifies c
    ensures c.Valid() && Matches(DecodeRing(old(c.Rest())), r, c)
  {
    hide DecodeCoords, FromLE;
    var n := c.U32();
    if c.failed { return None; }
    r := ReadCoords(c, n);
  }

  method ReadRings(c: Cursor, n: nat) returns (r: Option<seq<seq<Coord>>>)
    requires c.Valid() && !c.failed
    modifies c
    ensures c.Valid() && Matches(DecodeRings(n, old(c.Rest())), r, c)
  {
    hide DecodeRing;
    var rings: seq<seq<Coord>> := [];
    ghost var b := c.Rest();
    PrefixEnds([], DecodeRings(n, b));
    for i := 0 to n
      invariant c.Valid() && !c.failed
      invariant DecodeRings(n, b) == Prefix(rings, DecodeRings(n - i, c.Rest()))
    {
      ghost var before := c.Rest();
      var ring := ReadRing(c);
      if ring.None? { return None; }
      PrefixOneRing(rings, ring.value, n - i, before, c.Rest());
      rings := rings + [ring.value];
    }
    PrefixEnds(rings, DecodeRings(0, c.Rest()));
    return Some(rings);
  }

  lemma PrefixOneRing(rings: seq<seq<Coord>>, ring: seq<Coord>, n: nat, b: seq<Byte>, rest: seq<Byte>)
    requires n > 0 && DecodeRing(b) == Some(Decoded(ring, rest))
    ensures Prefix(rings, DecodeRings(n, b)) == Prefix(rings + [ring], DecodeRings(n - 1, rest))
  {
    hide DecodeRing;
    var more := DecodeRings(n - 1, rest);
    if more.Some? { assert rings + ([ring] + more.value.value) == (rings + [ring]) + more.value.value; }
  }

  method ReadHeader(c: Cursor) returns (r: Option<HeaderInfo>)
    requires c.Valid() && !c.failed
    modifies c
    ensures c.Valid() && Matches(DecodeHeader(old(c.Rest())), r, c)
  {
    hide FromLE;
    var order := c.U8();
    if c.failed || order != 1 { return None; }
    var raw := c.U32();
    if c.failed { return None; }
    var srid := 0;
    if raw / SRID_FLAG % 2 != 0 {
      var id := c.U32();
      if c.failed { return None; }
      srid := Signed(id, 4);
    }
    return Some(HeaderInfo(raw % 0x1_0000, srid));
  }

  /** `decodeOne`; the bytes left to read bound the recursion. */
  method ReadOne(c: Cursor) returns (r: Option<Result>)
    requires c.Valid() && !c.failed
    modifies c
    ensures c.Valid() && Matches(DecodeOne(old(c.Rest())), r, c)
    decreases |c.Rest()|, 0
  {
    hide DecodeHeader, DecodeBody;
    ghost var b := c.Rest();
    var h := ReadHeader(c);
    if h.None? { return None; }
    ghost var after := c.Rest();
    var g := ReadBody(c, h.value.code);
    if g.None? { return None; }
    return Some(Result(g.value, h.value.srid));
  }

  method ReadBody(c: Cursor, code: nat) returns (r: Option<Geom>)
    requires c.Valid() && !c.failed
    modifies c
    ensures c.Valid() && Matches(DecodeBody(code, old(c.Rest())), r, c)
    decreases |c.Rest()|, 2
  {
    hide DecodeCoord, DecodeRing, DecodeRings, DecodeParts, FromLE;
    if code == 1 {
      var p := ReadCoord(c);
      return if p.None? then None else Some(Point(p.value));
    } else if code == 2 {
      var l := ReadRing(c);
      return if l.None? then None else Some(Line(l.value));
    } else if code == 3 {
      var n := c.U32();
      if c.failed { return None; }
      var p := ReadRings(c, n);
      return if p.None? then None else Some(Polygon(p.value));
    } else if code == 5 || code == 6 {
      var n := c.U32();
      if c.failed { return None; }
      var p := ReadParts(c, n, code == 5);
      return if p.None? then None else Some(if code == 5 then MultiLine(p.value) else MultiPolygon(p.value));
    } else {
      return None;
    }
  }

  method ReadParts(c: Cursor, n: nat, lines: bool) returns (r: Option<seq<Geom>>)
    requires c.Valid() && !c.failed
    modifies c
    ensures c.Valid() && Matches(DecodeParts(n, lines, old(c.Rest())), r, c)
    decreases |c.Rest()|, 1
  {
    hide DecodeOne;
    var parts: seq<Geom> := [];
    ghost var b := c.Rest();
    PrefixEnds([], DecodeParts(n, lines, b));
    for i := 0 to n
      invariant c.Valid() && !c.failed && |c.Rest()| <= |b|
      invariant DecodeParts(n, lines, b) == Prefix(parts, DecodeParts(n - i, lines, c.Rest()))
    {
      ghost var before := c.Rest();
      var one := ReadOne(c);
      if one.None? { return None; }
      if !(if lines then one.value.geom.Line? else one.value.geom.Polygon?) { return None; }
      PrefixOnePart(parts, one.value, n - i, lines, before, c.Rest());
      parts := parts + [one.value.geom];
    }
    PrefixEnds(parts, DecodeParts(0, lines, c.Rest()));
    return Some(parts);
  }

  lemma PrefixOnePart(parts: seq<Geom>, one: Result, n: nat, lines: bool, b: seq<Byte>, rest: seq<Byte>)
    requires n > 0 && DecodeOne(b) == Some(Decoded(one, rest))
    requires if lines then one.geom.Line? else one.geom.Polygon?
    ensures Prefix(parts, DecodeParts(n, lines, b)) == Prefix(parts + [one.geom], DecodeParts(n - 1, lines, rest))
  {
    hide DecodeOne;
    var more := DecodeParts(n - 1, lines, rest);
    if more.Some? { assert parts + ([one.geom] + more.value.value) == (parts + [one.geom]) + more.value.value; }
  }

  /** `decode`: every byte string is either rejected or read as the function reads it. */
  method Decode(bytes: seq<Byte>) returns (r: Option<Result>)
    ensures r == match DecodeOne(bytes) case None => None case Some(d) => Some(d.value)
  {
    hide DecodeOne;
    var c := new Cursor(bytes);
    assert c.Rest() == bytes;
    r := ReadOne(c);
  }
}
