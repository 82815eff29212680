/**
 Geometries as hex text, and the encoders that append to a buffer (src/GeoUtils.cpp
 `toHex`, `buildWayGeom`, `writeWkbRing`, `writeWkbPolygon`, `mergeWayGeoms`).
 */
module WkbHex {
  import opened Core
  import opened Wire
  import opened Geometry
  import opened Ewkb

  const DIGITS := "0123456789ABCDEF"

  function DigitValue(c: char): nat {
    if '0' <= c <= '9' then c as int - '0' as int
    else if 'A' <= c <= 'F' then c as int - 'A' as int + 10
    else if 'a' <= c <= 'f' then c as int - 'a' as int + 10
    else 0
  }

  lemma DigitTrip(n: nat)
    requires n < 16
    ensures DigitValue(DIGITS[n]) == n
  {}

  function ToHex(b: seq<Byte>): string {
    if b == [] then "" else [DIGITS[b[0] / 16], DIGITS[b[0] % 16]] + ToHex(b[1..])
  }

  /** A trailing odd digit is ignored. */
  function FromHex(h: string): (b: seq<Byte>)
    ensures |b| == |h| / 2
  {
    if |h| < 2 then []
    else [(DigitValue(h[0]) * 16 + DigitValue(h[1])) % 256] + FromHex(h[2..])
  }

  lemma {:induction false} HexTrip(b: seq<Byte>)
    ensures FromHex(ToHex(b)) == b
    ensures ToHex(b) == "" <==> b == []
  {
    hide DigitValue;
    if b != [] {
      var h := ToHex(b);
      assert h[2..] == ToHex(b[1..]);
      DigitTrip(b[0] / 16);
      DigitTrip(b[0] % 16);
      HexTrip(b[1..]);
      assert b == [b[0]] + b[1..];
    }
  }

  /** Upper-case digits are written; both cases are read. */
  lemma DigitsAre(n: nat)
    requires n < 16
    ensures DIGITS[n] as int == if n < 10 then '0' as int + n else 'A' as int + n - 10
    ensures n >= 10 ==> DigitValue(('a' as int + n - 10) as char) == n
    ensures n < 10 ==> DigitValue(('0' as int + n) as char) == n
  {}

  // ---------------------------------------------------------------- encoders

  method WriteWkbRing(buf: seq<Byte>, ring: seq<Coord>) returns (out: seq<Byte>)
    ensures out == buf + EncodeRing(ring)
  {
    hide LE, EncodeCoord;
    out := buf + LE(|ring|, 4);
    var i := 0;
    assert ring[0..] == ring;
    while i < |ring|
      invariant 0 <= i <= |ring|
      invariant out + EncodeCoords(ring[i..]) == buf + EncodeRing(ring)
    {
      assert ring[i..][1..] == ring[i + 1..];
      out := out + EncodeCoord(ring[i]);
      i := i + 1;
    }
  }

  /** One outer ring and any number of holes. */
  method WriteWkbPolygon(buf: seq<Byte>, outer: seq<Coord>, inners: seq<seq<Coord>>, srid: nat) returns (out: seq<Byte>)
    ensures out == buf + Encode(Polygon([outer] + inners), Some(srid), None)
  {
    hide LE, EncodeRing, Header;
    out := buf + Header(3, Some(srid)) + LE(1 + |inners|, 4);
    ghost var whole := buf + Encode(Polygon([outer] + inners), Some(srid), None);
    out := WriteWkbRing(out, outer);
    var i := 0;
    assert inners[0..] == inners;
    PolygonEncoding(outer, inners, srid);
    FivePieces(buf, Header(3, Some(srid)), LE(1 + |inners|, 4), EncodeRing(outer), EncodeRings(inners));
    assert out + EncodeRings(inners) == whole;
    while i < |inners|
      invariant 0 <= i <= |inners|
      invariant out + EncodeRings(inners[i..]) == whole
    {
      assert inners[i..][1..] == inners[i + 1..];
      out := WriteWkbRing(out, inners[i]);
      i := i + 1;
    }
  }

  lemma PolygonEncoding(outer: seq<Coord>, inners: seq<seq<Coord>>, srid: nat)
    ensures Encode(Polygon([outer] + inners), Some(srid), None)
         == Header(3, Some(srid)) + (LE(1 + |inners|, 4) + (EncodeRing(outer) + EncodeRings(inners)))
  {
    hide LE, EncodeRing, Header, EncodeRings;
    var rings := [outer] + inners;
    var g := Polygon(rings);
    RingsSplit(rings);
    assert rings[1..] == inners && rings[0] == outer && |rings| == 1 + |inners|;
    assert EncodeBody(g, None) == LE(|rings|, 4) + EncodeRings(rings);
  }

  lemma FivePieces(a: seq<Byte>, b: seq<Byte>, c: seq<Byte>, d: seq<Byte>, e: seq<Byte>)
    ensures a + b + c + d + e == a + (b + (c + (d + e)))
  {}

  lemma RingsSplit(rings: seq<seq<Coord>>)
    requires rings != []
    ensures EncodeRings(rings) == EncodeRing(rings[0]) + EncodeRings(rings[1..])
  {}

  /** `buildWayGeom`: nothing for fewer than two points, else a line or a one-ring polygon. */
  method BuildWayHex(coords: seq<Coord>, srid: nat) returns (hex: string, closed: bool)
    ensures closed == IsClosed(coords)
    ensures BuildWay(coords).None? ==> hex == ""
    ensures BuildWay(coords).Some? ==> hex == ToHex(Encode(BuildWay(coords).value, Some(srid), None))
  {
    hide LE, Header, EncodeCoords;
    if |coords| < 2 { return "", false; }
    closed := IsClosed(coords);
    var buf;
    if closed {
      buf := WriteWkbRing(Header(3, Some(srid)) + LE(1, 4), coords);
      RingsSplit([coords]);
      assert EncodeRings([coords][1..]) == [];
      assert buf == Encode(Polygon([coords]), Some(srid), None);
    } else {
      buf := WriteWkbRing(Header(2, Some(srid)), coords);
      assert buf == Encode(Line(coords), Some(srid), None);
    }
    hex := ToHex(buf);
  }

  // ---------------------------------------------------------------- merging member geometries

  /** The type test on raw bytes: LineString or MultiLineString. */
  predicate IsLinearBytes(b: seq<Byte>) {
    |b| >= 5 && FromLE(b[1..5]) % 0x1_0000 in {2, 5}
  }

  /** The type number alone decides, whatever flags are in the upper half of the type word. */
  lemma LinearTest(b: seq<Byte>)
    ensures IsLinearBytes(b) <==> |b| >= 5 && (b[1] == 2 || b[1] == 5) && b[2] == 0
  {
    hide FromLE;
    if |b| >= 5 {
      LittleEndian(b[1], b[2], b[3], b[4]);
      assert b[1..5] == [b[1], b[2], b[3], b[4]];
      UpperHalf(b[1], b[2], b[3], b[4]);
    }
  }

  lemma UpperHalf(a: Byte, b: Byte, c: Byte, d: Byte)
    ensures (a as int + 0x100 * (b as int) + 0x1_0000 * (c as int) + 0x100_0000 * (d as int)) % 0x1_0000 == a as int + 0x100 * (b as int)
  {}

  function KeepLinearBytes(hex: string): seq<seq<Byte>> {
    if hex != "" && IsLinearBytes(FromHex(hex)) then [FromHex(hex)] else []
  }

  function LinearBytes(hexes: seq<string>): seq<seq<Byte>> {
    if hexes == [] then [] else KeepLinearBytes(hexes[0]) + LinearBytes(hexes[1..])
  }

  method LinearOrNothing(hex: string) returns (parts: seq<seq<Byte>>)
    ensures parts == KeepLinearBytes(hex)
  {
    hide IsLinearBytes, FromHex;
    parts := [];
    if hex != "" {
      var b := FromHex(hex);
      if IsLinearBytes(b) { parts := [b]; }
    }
  }

  method CollectLinear(hexes: seq<string>) returns (parts: seq<seq<Byte>>)
    ensures parts == LinearBytes(hexes)
  {
    hide KeepLinearBytes;
    parts := [];
    var i := 0;
    assert hexes[0..] == hexes;
    while i < |hexes|
      invariant 0 <= i <= |hexes|
      invariant parts + LinearBytes(hexes[i..]) == LinearBytes(hexes)
    {
      assert hexes[i..][1..] == hexes[i + 1..];
      var here := LinearOrNothing(hexes[i]);
      assert (parts + here) + LinearBytes(hexes[i + 1..]) == parts + (here + LinearBytes(hexes[i + 1..]));
      parts := parts + here;
      i := i + 1;
    }
  }

  method AppendAll(buf: seq<Byte>, parts: seq<seq<Byte>>) returns (out: seq<Byte>)
    ensures out == buf + Flatten(parts)
  {
    out := buf;
    var k := 0;
    assert parts[0..] == parts;
    while k < |parts|
      invariant 0 <= k <= |parts|
      invariant out + Flatten(parts[k..]) == buf + Flatten(parts)
    {
      assert parts[k..][1..] == parts[k + 1..];
      out := out + parts[k];
      k := k + 1;
    }
  }

  method MergeWayGeoms(hexes: seq<string>, srid: nat) returns (hex: string)
    ensures var parts := LinearBytes(hexes);
            hex == if parts == [] then ""
                   else ToHex(Header(5, Some(srid)) + LE(|parts|, 4) + Flatten(parts))
  {
    hide Header, LE, ToHex, Flatten, LinearBytes;
    var parts := CollectLinear(hexes);
    if parts == [] { return ""; }
    var buf := AppendAll(Header(5, Some(srid)) + LE(|parts|, 4), parts);
    hex := ToHex(buf);
  }

  function HexOf(g: Geom, srid: nat): string { ToHex(Encode(g, Some(srid), None)) }

  function HexesOf(geoms: seq<Geom>, srid: nat): seq<string> {
    if geoms == [] then [] else [HexOf(geoms[0], srid)] + HexesOf(geoms[1..], srid)
  }

  lemma LinearBytesIff(g: Geom, srid: nat)
    requires srid < 0x8000_0000
    ensures IsLinearBytes(Encode(g, Some(srid), None)) <==> IsLinear(g)
    ensures Encode(g, Some(srid), None) != []
  {
    hide LE, FromLE, EncodeBody;
    Widths();
    var code := TypeCode(g) + SRID_FLAG;
    var b := Encode(g, Some(srid), None);
    assert b[1..5] == LE(code, 4);
    LERoundTrip(code, 4);
    assert code % 0x1_0000 == TypeCode(g);
  }

  /** Members are lines (no nested multi-lines): their encoding does not depend on `sub`. */
  lemma LineEncoding(g: Geom, srid: Option<nat>, sub: Option<nat>, other: Option<nat>)
    requires g.Line?
    ensures Encode(g, srid, sub) == Encode(g, srid, other)
  {}

  lemma {:induction false} KeptParts(geoms: seq<Geom>, srid: nat)
    requires srid < 0x8000_0000 && forall g :: g in geoms ==> g.Line? || g.Polygon?
    ensures |LinearBytes(HexesOf(geoms, srid))| == |LinearParts(geoms)|
    ensures Flatten(LinearBytes(HexesOf(geoms, srid))) == EncodeParts(LinearParts(geoms), Some(srid))
  {
    hide Encode, IsLinearBytes, FromHex, ToHex;
    if geoms != [] {
      var g, hexes := geoms[0], HexesOf(geoms, srid);
      assert g in geoms;
      assert hexes[1..] == HexesOf(geoms[1..], srid);
      HexTrip(Encode(g, Some(srid), None));
      LinearBytesIff(g, srid);
      KeptParts(geoms[1..], srid);
      if g.Line? {
        var b := Encode(g, Some(srid), None);
        LineEncoding(g, Some(srid), None, Some(srid));
        var lines := LinearParts(geoms);
        assert lines == [g] + LinearParts(geoms[1..]);
        assert lines[1..] == LinearParts(geoms[1..]);
        var parts := LinearBytes(hexes);
        assert parts == [b] + LinearBytes(hexes[1..]);
        assert parts[1..] == LinearBytes(hexes[1..]);
      } else {
        assert LinearParts(geoms) == LinearParts(geoms[1..]);
        assert LinearBytes(hexes) == LinearBytes(hexes[1..]);
      }
    }
  }

  /** Merging keeps exactly the LineString members, in order, or yields nothing. */
  lemma MergeKeepsLines(geoms: seq<Geom>, srid: nat)
    requires srid < 0x8000_0000 && |geoms| < COUNT_LIMIT
    requires forall g :: g in geoms ==> Encodable(g) && (g.Line? || g.Polygon?)
    ensures var parts := LinearBytes(HexesOf(geoms, srid)); var m := MultiLine(LinearParts(geoms));
            && (parts == [] <==> LinearParts(geoms) == [])
            && Header(5, Some(srid)) + LE(|parts|, 4) + Flatten(parts) == Encode(m, Some(srid), Some(srid))
            && DecodeOne(Encode(m, Some(srid), Some(srid))) == Some(Decoded(Result(m, srid), []))
  {
    hide Encode, Header, LE, DecodeOne, LinearBytes, HexesOf, LinearParts;
    KeptParts(geoms, srid);
    var m := MultiLine(LinearParts(geoms));
    MultiEncoding(LinearParts(geoms), srid);
    LinesOnly(geoms);
    RoundTrip(m, Some(srid), Some(srid), []);
    assert Encode(m, Some(srid), Some(srid)) + [] == Encode(m, Some(srid), Some(srid));
  }

  lemma MultiEncoding(parts: seq<Geom>, srid: nat)
    ensures Encode(MultiLine(parts), Some(srid), Some(srid))
         == Header(5, Some(srid)) + LE(|parts|, 4) + EncodeParts(parts, Some(srid))
  {
    hide Header, LE, EncodeParts;
  }

  lemma {:induction false} LinesOnly(geoms: seq<Geom>)
    requires forall g :: g in geoms ==> Encodable(g) && (g.Line? || g.Polygon?)
    ensures |LinearParts(geoms)| <= |geoms|
    ensures forall p :: p in LinearParts(geoms) ==> p.Line? && |p.points| < COUNT_LIMIT
  {
    if geoms != [] {
      assert geoms[0] in geoms;
      LinesOnly(geoms[1..]);
    }
  }
}
