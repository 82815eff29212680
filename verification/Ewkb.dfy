/**
 The EWKB variant the importer writes and reads back (src/GeoUtils.cpp, src/main.cpp,
 src/AirspaceLoader.cpp encode; src/WkbDecode.cpp decodes): little-endian, optional SRID
 in each header, nested geometries with a full header of their own.
 */
module Ewkb {
  import opened Core
  import opened Wire
  import opened Geometry

  const SRID_FLAG := 0x2000_0000
  const COUNT_LIMIT := 0x1_0000_0000

  // ---------------------------------------------------------------- encoding

  function TypeCode(g: Geom): (t: nat)
    ensures 0 < t < 0x1_0000
  {
    match g
    case Point(_) => 1
    case Line(_) => 2
    case Polygon(_) => 3
    case MultiLine(_) => 5
    case MultiPolygon(_) => 6
  }

  /** Byte order, type and SRID; without an SRID the flag is not set. */
  function Header(code: nat, srid: Option<nat>): seq<Byte> {
    match srid
    case Some(id) => [1] + LE(code + SRID_FLAG, 4) + LE(id, 4)
    case None => [1] + LE(code, 4)
  }

  function EncodeCoord(c: Coord): seq<Byte> { LE(c.x, 8) + LE(c.y, 8) }

  function EncodeCoords(points: seq<Coord>): seq<Byte> {
    if points == [] then [] else EncodeCoord(points[0]) + EncodeCoords(points[1..])
  }

  /** `writeWkbRing` */
  function EncodeRing(ring: seq<Coord>): seq<Byte> { LE(|ring|, 4) + EncodeCoords(ring) }

  function EncodeRings(rings: seq<seq<Coord>>): seq<Byte> {
    if rings == [] then [] else EncodeRing(rings[0]) + EncodeRings(rings[1..])
  }

  /** A geometry with SRID `srid` whose parts, if any, carry `sub`. */
  function Encode(g: Geom, srid: Option<nat>, sub: Option<nat>): seq<Byte>
    decreases g, 1
  {
    Header(TypeCode(g), srid) + EncodeBody(g, sub)
  }

  function EncodeBody(g: Geom, sub: Option<nat>): seq<Byte>
    decreases g, 0
  {
    match g
    case Point(at) => EncodeCoord(at)
    case Line(points) => EncodeRing(points)
    case Polygon(rings) => LE(|rings|, 4) + EncodeRings(rings)
    case MultiLine(parts) => LE(|parts|, 4) + EncodeParts(parts, sub)
    case MultiPolygon(parts) => LE(|parts|, 4) + EncodeParts(parts, sub)
  }

  function EncodeParts(parts: seq<Geom>, sub: Option<nat>): seq<Byte>
    decreases parts
  {
    if parts == [] then [] else Encode(parts[0], sub, sub) + EncodeParts(parts[1..], sub)
  }

  // ---------------------------------------------------------------- decoding

  datatype Decoded<T> = Decoded(value: T, rest: seq<Byte>)

  function DecodeCoord(b: seq<Byte>): Option<Decoded<Coord>> {
    if |b| < 16 then None
    else
      Widths();
      LEBytes(b[..8]);
      LEBytes(b[8..16]);
      Some(Decoded(Coord(FromLE(b[..8]), FromLE(b[8..16])), b[16..]))
  }

  function DecodeU32(b: seq<Byte>): (r: Option<Decoded<nat>>)
    ensures r.Some? ==> |r.value.rest| == |b| - 4
  {
    if |b| < 4 then None else Some(Decoded(FromLE(b[..4]), b[4..]))
  }

  function DecodeCoords(n: nat, b: seq<Byte>): (r: Option<Decoded<seq<Coord>>>)
    ensures r.Some? ==> |r.value.rest| <= |b|
  {
    if n == 0 then Some(Decoded([], b))
    else match DecodeCoord(b)
      case None => None
      case Some(first) =>
        match DecodeCoords(n - 1, first.rest)
        case None => None
        case Some(more) => Some(Decoded([first.value] + more.value, more.rest))
  }

  function DecodeRing(b: seq<Byte>): (r: Option<Decoded<seq<Coord>>>)
    ensures r.Some? ==> |r.value.rest| < |b|
  {
    match DecodeU32(b)
    case None => None
    case Some(n) => DecodeCoords(n.value, n.rest)
  }

  function DecodeRings(n: nat, b: seq<Byte>): (r: Option<Decoded<seq<seq<Coord>>>>)
    ensures r.Some? ==> |r.value.rest| <= |b|
  {
    if n == 0 then Some(Decoded([], b))
    else match DecodeRing(b)
      case None => None
      case Some(first) =>
        match DecodeRings(n - 1, first.rest)
        case None => None
        case Some(more) => Some(Decoded([first.value] + more.value, more.rest))
  }

  datatype HeaderInfo = HeaderInfo(code: nat, srid: int)

  function DecodeHeader(b: seq<Byte>): (r: Option<Decoded<HeaderInfo>>)
    ensures r.Some? ==> |r.value.rest| < |b|
  {
    if |b| < 1 || b[0] != 1 then None
    else match DecodeU32(b[1..])
      case None => None
      case Some(raw) =>
        if raw.value / SRID_FLAG % 2 == 0 then Some(Decoded(HeaderInfo(raw.value % 0x1_0000, 0), raw.rest))
        else match DecodeU32(raw.rest)
          case None => None
          case Some(id) => Some(Decoded(HeaderInfo(raw.value % 0x1_0000, Signed(id.value, 4)), id.rest))
  }

  datatype Result = Result(geom: Geom, srid: int)

  /** `decodeOne`: the geometry at the front of `b`, and what follows it. */
  function DecodeOne(b: seq<Byte>): (r: Option<Decoded<Result>>)
    ensures r.Some? ==> |r.value.rest| < |b|
    decreases |b|, 0
  {
    match DecodeHeader(b)
    case None => None
    case Some(h) =>
      match DecodeBody(h.value.code, h.rest)
      case None => None
      case Some(body) => Some(Decoded(Result(body.value, h.value.srid), body.rest))
  }

  function DecodeBody(code: nat, b: seq<Byte>): (r: Option<Decoded<Geom>>)
    ensures r.Some? ==> |r.value.rest| <= |b|
    decreases |b|, 2
  {
    if code == 1 then
      match DecodeCoord(b) case None => None case Some(c) => Some(Decoded(Point(c.value), c.rest))
    else if code == 2 then
      match DecodeRing(b) case None => None case Some(l) => Some(Decoded(Line(l.value), l.rest))
    else if code == 3 then
      match DecodeU32(b)
      case None => None
      case Some(n) =>
        match DecodeRings(n.value, n.rest) case None => None case Some(p) => Some(Decoded(Polygon(p.value), p.rest))
    else if code == 5 || code == 6 then
      match DecodeU32(b)
      case None => None
      case Some(n) =>
        match DecodeParts(n.value, code == 5, n.rest)
        case None => None
        case Some(p) => Some(Decoded(if code == 5 then MultiLine(p.value) else MultiPolygon(p.value), p.rest))
    else None
  }

  /** `n` nested geometries, all lines or all polygons. */
  function DecodeParts(n: nat, lines: bool, b: seq<Byte>): (r: Option<Decoded<seq<Geom>>>)
    ensures r.Some? ==> |r.value.rest| <= |b|
    decreases |b|, 1
  {
    if n == 0 then Some(Decoded([], b))
    else match DecodeOne(b)
      case None => None
      case Some(first) =>
        if !(if lines then first.value.geom.Line? else first.value.geom.Polygon?) then None
        else match DecodeParts(n - 1, lines, first.rest)
          case None => None
          case Some(more) => Some(Decoded([first.value.geom] + more.value, more.rest))
  }

  // ---------------------------------------------------------------- round trip

  /** What the encoders can produce: 32-bit counts, and only lines or polygons nested. */
  predicate Encodable(g: Geom) {
    match g
    case Point(_) => true
    case Line(points) => |points| < COUNT_LIMIT
    case Polygon(rings) => |rings| < COUNT_LIMIT && forall r :: r in rings ==> |r| < COUNT_LIMIT
    case MultiLine(parts) => |parts| < COUNT_LIMIT && forall p :: p in parts ==> p.Line? && |p.points| < COUNT_LIMIT
    case MultiPolygon(parts) =>
      |parts| < COUNT_LIMIT && forall p :: p in parts ==>
        p.Polygon? && |p.rings| < COUNT_LIMIT && forall r :: r in p.rings ==> |r| < COUNT_LIMIT
  }

  predicate ValidSrid(srid: Option<nat>) { srid.Some? ==> srid.value < 0x8000_0000 }

  function SridOf(srid: Option<nat>): int { match srid case Some(id) => id case None => 0 }

  lemma CoordTrip(c: Coord, tail: seq<Byte>)
    ensures DecodeCoord(EncodeCoord(c) + tail) == Some(Decoded(c, tail))
  {
    hide LE, FromLE;
    Widths();
    var b := EncodeCoord(c) + tail;
    assert b[..8] == LE(c.x, 8) && b[8..16] == LE(c.y, 8) && b[16..] == tail;
    LERoundTrip(c.x, 8);
    LERoundTrip(c.y, 8);
  }

  lemma U32Trip(v: nat, tail: seq<Byte>)
    requires v < COUNT_LIMIT
    ensures DecodeU32(LE(v, 4) + tail) == Some(Decoded(v, tail))
  {
    hide LE, FromLE;
    Widths();
    var b := LE(v, 4) + tail;
    assert b[..4] == LE(v, 4) && b[4..] == tail;
    LERoundTrip(v, 4);
  }

  lemma {:induction false} CoordsTrip(points: seq<Coord>, tail: seq<Byte>)
    ensures DecodeCoords(|points|, EncodeCoords(points) + tail) == Some(Decoded(points, tail))
  {
    hide DecodeCoord, EncodeCoord;
    if points == [] {
      assert EncodeCoords(points) + tail == tail;
    } else {
      var more := EncodeCoords(points[1..]) + tail;
      assert EncodeCoords(points) + tail == EncodeCoord(points[0]) + more;
      CoordTrip(points[0], more);
      CoordsTrip(points[1..], tail);
      assert points == [points[0]] + points[1..];
    }
  }

  lemma RingTrip(ring: seq<Coord>, tail: seq<Byte>)
    requires |ring| < COUNT_LIMIT
    ensures DecodeRing(EncodeRing(ring) + tail) == Some(Decoded(ring, tail))
  {
    hide DecodeU32, DecodeCoords, EncodeCoords, LE;
    var more := EncodeCoords(ring) + tail;
    assert EncodeRing(ring) + tail == LE(|ring|, 4) + more;
    U32Trip(|ring|, more);
    CoordsTrip(ring, tail);
  }

  lemma NoRings(tail: seq<Byte>)
    ensures DecodeRings(0, tail) == Some(Decoded([], tail))
  {}

  lemma RingsStep(n: nat, b: seq<Byte>, ring: seq<Coord>, more: seq<Byte>, rings: seq<seq<Coord>>, tail: seq<Byte>)
    requires DecodeRing(b) == Some(Decoded(ring, more)) && DecodeRings(n, more) == Some(Decoded(rings, tail))
    ensures DecodeRings(n + 1, b) == Some(Decoded([ring] + rings, tail))
  {
    hide DecodeRing;
  }

  lemma {:induction false} RingsTrip(rings: seq<seq<Coord>>, tail: seq<Byte>)
    requires forall r :: r in rings ==> |r| < COUNT_LIMIT
    ensures DecodeRings(|rings|, EncodeRings(rings) + tail) == Some(Decoded(rings, tail))
  {
    hide DecodeRing, EncodeRing, DecodeRings;
    if rings == [] {
      NoRings(tail);
      assert EncodeRings(rings) + tail == tail;
    } else {
      var more := EncodeRings(rings[1..]) + tail;
      assert EncodeRings(rings) + tail == EncodeRing(rings[0]) + more;
      RingTrip(rings[0], more);
      RingsTrip(rings[1..], tail);
      RingsStep(|rings| - 1, EncodeRings(rings) + tail, rings[0], more, rings[1..], tail);
      assert rings == [rings[0]] + rings[1..];
    }
  }

  lemma HeaderTrip(code: nat, srid: Option<nat>, tail: seq<Byte>)
    requires 0 < code < 0x1_0000 && ValidSrid(srid)
    ensures DecodeHeader(Header(code, srid) + tail) == Some(Decoded(HeaderInfo(code, SridOf(srid)), tail))
  {
    hide DecodeU32, LE;
    Widths();
    var b := Header(code, srid) + tail;
    if srid.Some? {
      var more := LE(srid.value, 4) + tail;
      assert b[1..] == LE(code + SRID_FLAG, 4) + more;
      U32Trip(code + SRID_FLAG, more);
      U32Trip(srid.value, tail);
      assert (code + SRID_FLAG) / SRID_FLAG == 1 && (code + SRID_FLAG) % 0x1_0000 == code;
    } else {
      assert b[1..] == LE(code, 4) + tail;
      U32Trip(code, tail);
    }
  }

  /**
   Round trip: every encodable geometry, with or without SRIDs on itself or its parts,
   decodes to the same words and SRID and consumes exactly its own bytes.
   */
  lemma {:induction false} RoundTrip(g: Geom, srid: Option<nat>, sub: Option<nat>, tail: seq<Byte>)
    requires Encodable(g) && ValidSrid(srid) && ValidSrid(sub)
    ensures DecodeOne(Encode(g, srid, sub) + tail) == Some(Decoded(Result(g, SridOf(srid)), tail))
    decreases g, 1
  {
    hide DecodeHeader, Header, DecodeBody, EncodeBody;
    var more := EncodeBody(g, sub) + tail;
    assert Encode(g, srid, sub) + tail == Header(TypeCode(g), srid) + more;
    HeaderTrip(TypeCode(g), srid, more);
    BodyTrip(g, sub, tail);
  }

  lemma {:induction false} BodyTrip(g: Geom, sub: Option<nat>, tail: seq<Byte>)
    requires Encodable(g) && ValidSrid(sub)
    ensures DecodeBody(TypeCode(g), EncodeBody(g, sub) + tail) == Some(Decoded(g, tail))
    decreases g, 0
  {
    hide DecodeCoord, EncodeCoord, DecodeRing, EncodeRing, DecodeRings, EncodeRings, DecodeParts, EncodeParts, DecodeU32, LE;
    match g
    case Point(at) => CoordTrip(at, tail);
    case Line(points) => RingTrip(points, tail);
    case Polygon(rings) =>
      CountedBody(|rings|, EncodeRings(rings), tail);
      RingsTrip(rings, tail);
    case MultiLine(parts) =>
      CountedBody(|parts|, EncodeParts(parts, sub), tail);
      PartsTrip(parts, true, sub, tail);
    case MultiPolygon(parts) =>
      CountedBody(|parts|, EncodeParts(parts, sub), tail);
      PartsTrip(parts, false, sub, tail);
  }

  lemma CountedBody(n: nat, body: seq<Byte>, tail: seq<Byte>)
    requires n < COUNT_LIMIT
    ensures DecodeU32(LE(n, 4) + body + tail) == Some(Decoded(n, body + tail))
  {
    hide DecodeU32, LE;
    assert LE(n, 4) + body + tail == LE(n, 4) + (body + tail);
    U32Trip(n, body + tail);
  }

  lemma PartsStep(n: nat, lines: bool, b: seq<Byte>, first: Result, more: seq<Byte>, parts: seq<Geom>, tail: seq<Byte>)
    requires DecodeOne(b) == Some(Decoded(first, more)) && if lines then first.geom.Line? else first.geom.Polygon?
    requires DecodeParts(n, lines, more) == Some(Decoded(parts, tail))
    ensures DecodeParts(n + 1, lines, b) == Some(Decoded([first.geom] + parts, tail))
  {
    hide DecodeOne;
  }

  lemma NoParts(lines: bool, tail: seq<Byte>)
    ensures DecodeParts(0, lines, tail) == Some(Decoded([], tail))
  {}

  lemma {:induction false} PartsTrip(parts: seq<Geom>, lines: bool, sub: Option<nat>, tail: seq<Byte>)
    requires ValidSrid(sub)
    requires forall p :: p in parts ==> Encodable(p) && if lines then p.Line? else p.Polygon?
    ensures DecodeParts(|parts|, lines, EncodeParts(parts, sub) + tail) == Some(Decoded(parts, tail))
    decreases parts
  {
    hide DecodeOne, Encode, Encodable, DecodeParts;
    if parts == [] {
      NoParts(lines, tail);
      assert EncodeParts(parts, sub) + tail == tail;
    } else {
      var more := EncodeParts(parts[1..], sub) + tail;
      assert EncodeParts(parts, sub) + tail == Encode(parts[0], sub, sub) + more;
      assert parts[0] in parts;
      RoundTrip(parts[0], sub, sub, more);
      PartsTrip(parts[1..], lines, sub, tail);
      PartsStep(|parts| - 1, lines, EncodeParts(parts, sub) + tail, Result(parts[0], SridOf(sub)), more, parts[1..], tail);
      assert parts == [parts[0]] + parts[1..];
    }
  }

  // ---------------------------------------------------------------- the bytes themselves

  /** Little-endian marker, the type number of the OGC standard, the SRID flag, the SRID. */
  lemma HeaderBytes(g: Geom, srid: nat, sub: Option<nat>)
    ensures var code := match g case Point(_) => 1 case Line(_) => 2 case Polygon(_) => 3 case MultiLine(_) => 5 case MultiPolygon(_) => 6;
      && Encode(g, Some(srid), sub) == [1, code, 0, 0, 0x20] + Four(srid) + EncodeBody(g, sub)
      && Encode(g, None, sub) == [1, code, 0, 0, 0] + EncodeBody(g, sub)
  {
    hide LE, EncodeBody, Four;
    var code := TypeCode(g);
    FourIs(code + SRID_FLAG);
    FourIs(code);
    FourIs(srid);
    CodeBytes(code);
  }

  lemma CodeBytes(code: nat)
    requires code < 256
    ensures Four(code + 0x2000_0000) == [code, 0, 0, 0x20] && Four(code) == [code, 0, 0, 0]
  {}

  /** A line's count and points, 16 bytes a point. */
  lemma RingBytes(ring: seq<Coord>)
    ensures |EncodeRing(ring)| == 4 + 16 * |ring| && EncodeRing(ring)[..4] == Four(|ring|)
    ensures forall k :: 0 <= k < |ring| ==>
      EncodeRing(ring)[4 + 16 * k..4 + 16 * k + 16] == Eight(ring[k].x) + Eight(ring[k].y)
  {
    hide LE, EncodeCoords, Eight, Four;
    FourIs(|ring|);
    CoordsBytes(ring);
    forall k | 0 <= k < |ring| ensures EncodeRing(ring)[4 + 16 * k..4 + 16 * k + 16] == Eight(ring[k].x) + Eight(ring[k].y) {
      assert EncodeRing(ring)[4..] == EncodeCoords(ring);
      assert EncodeRing(ring)[4 + 16 * k..4 + 16 * k + 16] == EncodeCoords(ring)[16 * k..16 * k + 16];
    }
  }

  lemma {:induction false} CoordsBytes(points: seq<Coord>)
    ensures |EncodeCoords(points)| == 16 * |points|
    ensures forall k :: 0 <= k < |points| ==>
      EncodeCoords(points)[16 * k..16 * k + 16] == Eight(points[k].x) + Eight(points[k].y)
  {
    hide LE, Eight;
    if points != [] {
      var c, rest := points[0], points[1..];
      CoordsBytes(rest);
      EightIs(c.x);
      EightIs(c.y);
      var all := EncodeCoords(points);
      assert all == EncodeCoord(c) + EncodeCoords(rest) && |EncodeCoord(c)| == 16;
      forall k | 0 <= k < |points| ensures all[16 * k..16 * k + 16] == Eight(points[k].x) + Eight(points[k].y) {
        if k > 0 { assert all[16 * k..16 * k + 16] == EncodeCoords(rest)[16 * (k - 1)..16 * (k - 1) + 16]; }
      }
    }
  }

  lemma OneRing(ring: seq<Coord>)
    ensures EncodeBody(Polygon([ring]), None) == [1, 0, 0, 0] + EncodeRing(ring)
  {
    hide LE, EncodeRing, Four;
    FourIs(1);
    CodeBytes(1);
    assert [ring][1..] == [];
    assert EncodeRings([ring]) == EncodeRing(ring) + EncodeRings([]);
  }

  /** What stands for a way: a line, or a polygon of one ring. */
  lemma WayBytes(coords: seq<Coord>, srid: nat)
    requires |coords| >= 2
    ensures Encode(BuildWay(coords).value, Some(srid), None) ==
        if |coords| >= 4 && coords[0] == coords[|coords| - 1]
        then [1, 3, 0, 0, 0x20] + Four(srid) + ([1, 0, 0, 0] + EncodeRing(coords))
        else [1, 2, 0, 0, 0x20] + Four(srid) + EncodeRing(coords)
  {
    hide Encode, EncodeRing, Four;
    HeaderBytes(BuildWay(coords).value, srid, None);
    OneRing(coords);
  }
}
