/**
 Assembling a multipolygon relation (src/main.cpp, `buildMultipolygon`): members split by
 role, stitched, and encoded. With several shells a hole goes by its first point to every shell
 whose bounding box holds it.
 */
module Multipolygon {
  import opened Core
  import opened Wire
  import opened Geometry
  import opened Ewkb
  import opened Lists
  import opened Stitch
  import opened Doubles
  import WkbHex

  datatype Member = Member(way: int, inner: bool)

  /** Coordinates of the members found, by role, in member order; empty ones are skipped. */
  function SegmentsOf(members: seq<Member>, coords: map<int, seq<Coord>>, inner: bool): (segs: seq<Segment>)
    ensures AllNonEmpty(segs)
  {
    if members == [] then []
    else
      var m := members[|members| - 1];
      SegmentsOf(members[..|members| - 1], coords, inner)
        + (if m.way in coords && coords[m.way] != [] && m.inner == inner then [coords[m.way]] else [])
  }

  /** Rings of one role. */
  function RingsOf(members: seq<Member>, coords: map<int, seq<Coord>>, inner: bool): seq<seq<Coord>> {
    Rings(Chains(SegmentsOf(members, coords, inner)))
  }

  /** A hole goes to every outer ring whose box holds its first point. */
  function HolesOf(inBox: (seq<Coord>, Coord) -> bool, outer: seq<Coord>, inners: seq<seq<Coord>>): seq<seq<Coord>> {
    Filter(inners, (inner: seq<Coord>) => inner != [] && inBox(outer, inner[0]))
  }

  function PolygonsOf(inBox: (seq<Coord>, Coord) -> bool, outers: seq<seq<Coord>>, inners: seq<seq<Coord>>): seq<Geom> {
    if outers == [] then []
    else
      var outer := outers[|outers| - 1];
      PolygonsOf(inBox, outers[..|outers| - 1], inners) + [Polygon([outer] + HolesOf(inBox, outer, inners))]
  }

  /** One outer ring takes every hole; several make a multipolygon; none gives nothing. */
  function Assemble(inBox: (seq<Coord>, Coord) -> bool, outers: seq<seq<Coord>>, inners: seq<seq<Coord>>): Option<Geom> {
    if outers == [] then None
    else if |outers| == 1 then Some(Polygon([outers[0]] + inners))
    else Some(MultiPolygon(PolygonsOf(inBox, outers, inners)))
  }

  method Split(members: seq<Member>, coords: map<int, seq<Coord>>) returns (outers: seq<Segment>, inners: seq<Segment>)
    ensures outers == SegmentsOf(members, coords, false) && inners == SegmentsOf(members, coords, true)
  {
    outers, inners := [], [];
    assert members[..0] == [];
    for i := 0 to |members|
      invariant outers == SegmentsOf(members[..i], coords, false)
      invariant inners == SegmentsOf(members[..i], coords, true)
    {
      assert members[..i + 1][..i] == members[..i];
      var m := members[i];
      if m.way !in coords || coords[m.way] == [] { continue; }
      if m.inner { inners := inners + [coords[m.way]]; } else { outers := outers + [coords[m.way]]; }
    }
    assert members[..|members|] == members;
  }

  // ---------------------------------------------------------------- bounding boxes

  function Xs(ring: seq<Coord>): (r: seq<Word>)
    ensures |r| == |ring|
  {
    seq(|ring|, i requires 0 <= i < |ring| => ring[i].x)
  }

  function Ys(ring: seq<Coord>): (r: seq<Word>)
    ensures |r| == |ring|
  {
    seq(|ring|, i requires 0 <= i < |ring| => ring[i].y)
  }

  predicate InBox(outer: seq<Coord>, p: Coord) {
    && outer != []
    && AtMost(MinOf(Xs(outer)), p.x) && AtMost(p.x, MaxOf(Xs(outer)))
    && AtMost(MinOf(Ys(outer)), p.y) && AtMost(p.y, MaxOf(Ys(outer)))
  }

  /** A point is in the box exactly when the ring has points on all four sides of it. */
  lemma InBoxIff(outer: seq<Coord>, p: Coord)
    requires outer != [] && Numbers(Xs(outer)) && Numbers(Ys(outer)) && !IsNaN(p.x) && !IsNaN(p.y)
    ensures InBox(outer, p) <==>
      && (exists i :: 0 <= i < |outer| && AtMost(outer[i].x, p.x)) && (exists i :: 0 <= i < |outer| && AtMost(p.x, outer[i].x))
      && (exists i :: 0 <= i < |outer| && AtMost(outer[i].y, p.y)) && (exists i :: 0 <= i < |outer| && AtMost(p.y, outer[i].y))
  {
    hide AtMost, Numbers, MinOf, MaxOf;
    BetweenIff(Xs(outer), p.x);
    BetweenIff(Ys(outer), p.y);
    assert forall i :: 0 <= i < |outer| ==> Xs(outer)[i] == outer[i].x && Ys(outer)[i] == outer[i].y;
  }

  method BoxOf(outer: seq<Coord>) returns (x0: Word, x1: Word, y0: Word, y1: Word)
    requires outer != []
    ensures x0 == MinOf(Xs(outer)) && x1 == MaxOf(Xs(outer)) && y0 == MinOf(Ys(outer)) && y1 == MaxOf(Ys(outer))
  {
    hide Less, Xs, Ys;
    x0, x1, y0, y1 := outer[0].x, outer[0].x, outer[0].y, outer[0].y;
    FirstBox(outer);
    for i := 0 to |outer|
      invariant var front := if i == 0 then outer[..1] else outer[..i];
        && x0 == MinOf(Xs(front)) && x1 == MaxOf(Xs(front)) && y0 == MinOf(Ys(front)) && y1 == MaxOf(Ys(front))
    {
      var c := outer[i];
      if i == 0 { SameBox(c); } else { NextBox(outer[..i], c); assert outer[..i] + [c] == outer[..i + 1]; }
      x0 := if Less(c.x, x0) then c.x else x0;
      x1 := if Less(x1, c.x) then c.x else x1;
      y0 := if Less(c.y, y0) then c.y else y0;
      y1 := if Less(y1, c.y) then c.y else y1;
    }
    assert outer[..|outer|] == outer;
  }

  lemma FirstBox(outer: seq<Coord>)
    requires outer != []
    ensures Xs(outer[..1]) == [outer[0].x] && Ys(outer[..1]) == [outer[0].y]
  {}

  lemma SameBox(c: Coord)
    ensures !Less(c.x, c.x) && !Less(c.y, c.y)
  {}

  lemma NextBox(front: seq<Coord>, c: Coord)
    requires front != []
    ensures Xs(front + [c]) == Xs(front) + [c.x] && Ys(front + [c]) == Ys(front) + [c.y]
    ensures Xs(front) != [] && Ys(front) != []
    ensures MinOf(Xs(front + [c])) == (if Less(c.x, MinOf(Xs(front))) then c.x else MinOf(Xs(front)))
    ensures MaxOf(Xs(front + [c])) == (if Less(MaxOf(Xs(front)), c.x) then c.x else MaxOf(Xs(front)))
    ensures MinOf(Ys(front + [c])) == (if Less(c.y, MinOf(Ys(front))) then c.y else MinOf(Ys(front)))
    ensures MaxOf(Ys(front + [c])) == (if Less(MaxOf(Ys(front)), c.y) then c.y else MaxOf(Ys(front)))
  {
    hide Less;
    assert Xs(front + [c])[..|front|] == Xs(front);
    assert Ys(front + [c])[..|front|] == Ys(front);
    assert |Xs(front + [c])| == |Ys(front + [c])| == |front| + 1 >= 2;
  }

  method MatchedInners(outer: seq<Coord>, inners: seq<seq<Coord>>) returns (holes: seq<seq<Coord>>)
    ensures holes == HolesOf(InBox, outer, inners)
  {
    hide AtMost, MinOf, MaxOf, Xs, Ys;
    holes := [];
    if outer == [] {
      NoBox(inners);
      return;
    }
    var x0, x1, y0, y1 := BoxOf(outer);
    assert inners[..0] == [];
    for i := 0 to |inners|
      invariant holes == HolesOf(InBox, outer, inners[..i])
    {
      assert inners[..i + 1] == inners[..i] + [inners[i]];
      HolesSnoc(outer, inners[..i], inners[i]);
      if inners[i] != [] {
        var p := inners[i][0];
        if AtMost(x0, p.x) && AtMost(p.x, x1) && AtMost(y0, p.y) && AtMost(p.y, y1) { holes := holes + [inners[i]]; }
      }
    }
    assert inners[..|inners|] == inners;
  }

  /** One more inner ring, by the box test itself. */
  lemma HolesSnoc(outer: seq<Coord>, init: seq<seq<Coord>>, inner: seq<Coord>)
    ensures HolesOf(InBox, outer, init + [inner]) == HolesOf(InBox, outer, init)
      + (if inner != [] && InBox(outer, inner[0]) then [inner] else [])
  {
    hide InBox;
    FilterSnoc(init, inner, (x: seq<Coord>) => x != [] && InBox(outer, x[0]));
    assert (init + [inner])[..|init|] == init;
  }

  lemma {:induction false} NoBox(inners: seq<seq<Coord>>)
    ensures HolesOf(InBox, [], inners) == []
  {
    if inners != [] {
      var init, last := inners[..|inners| - 1], inners[|inners| - 1];
      NoBox(init);
      assert inners == init + [last];
      HolesSnoc([], init, last);
    }
  }

  method WritePolygons(buf: seq<Byte>, outers: seq<seq<Coord>>, inners: seq<seq<Coord>>, srid: nat)
      returns (out: seq<Byte>)
    ensures out == buf + EncodeParts(PolygonsOf(InBox, outers, inners), Some(srid))
  {
    hide Encode, EncodeParts, HolesOf;
    out := buf;
    assert outers[..0] == [];
    NoParts(srid);
    assert out == buf + EncodeParts(PolygonsOf(InBox, outers[..0], inners), Some(srid));
    for i := 0 to |outers|
      invariant out == buf + EncodeParts(PolygonsOf(InBox, outers[..i], inners), Some(srid))
    {
      assert outers[..i + 1][..i] == outers[..i];
      var holes := MatchedInners(outers[i], inners);
      ghost var done := PolygonsOf(InBox, outers[..i], inners);
      PartsSnoc(done, [outers[i]] + holes, srid);
      assert PolygonsOf(InBox, outers[..i + 1], inners) == done + [Polygon([outers[i]] + holes)];
      ghost var was := out;
      out := WkbHex.WriteWkbPolygon(out, outers[i], holes, srid);
      assert out == buf + (EncodeParts(done, Some(srid)) + Encode(Polygon([outers[i]] + holes), Some(srid), None));
    }
    assert outers[..|outers|] == outers;
  }

  lemma NoParts(srid: nat)
    ensures EncodeParts([], Some(srid)) == []
  {}

  lemma {:induction false} PartsSnoc(done: seq<Geom>, rings: seq<seq<Coord>>, srid: nat)
    ensures EncodeParts(done + [Polygon(rings)], Some(srid))
         == EncodeParts(done, Some(srid)) + Encode(Polygon(rings), Some(srid), None)
  {
    hide Encode;
    var all := done + [Polygon(rings)];
    assert EncodeParts(all, Some(srid)) == Encode(all[0], Some(srid), Some(srid)) + EncodeParts(all[1..], Some(srid));
    if done == [] {
      PolygonSub(rings, srid);
      assert all[1..] == [];
    } else {
      PartsSnoc(done[1..], rings, srid);
      assert all[1..] == done[1..] + [Polygon(rings)];
      Associate(Encode(done[0], Some(srid), Some(srid)), EncodeParts(done[1..], Some(srid)), Encode(Polygon(rings), Some(srid), None));
    }
  }

  lemma Associate(a: seq<Byte>, b: seq<Byte>, c: seq<Byte>)
    ensures a + (b + c) == (a + b) + c
  {}

  /** A polygon has no parts of its own. */
  lemma PolygonSub(rings: seq<seq<Coord>>, srid: nat)
    ensures Encode(Polygon(rings), Some(srid), Some(srid)) == Encode(Polygon(rings), Some(srid), None)
  {
    hide Header, EncodeRings, LE;
  }

  lemma MultiBytes(parts: seq<Geom>, srid: nat)
    ensures Header(6, Some(srid)) + LE(|parts|, 4) + EncodeParts(parts, Some(srid)) == Encode(MultiPolygon(parts), Some(srid), Some(srid))
  {
    hide Header, EncodeParts, LE;
  }

  lemma {:induction false} PolygonCount(inBox: (seq<Coord>, Coord) -> bool, outers: seq<seq<Coord>>, inners: seq<seq<Coord>>)
    ensures |PolygonsOf(inBox, outers, inners)| == |outers|
  {
    hide HolesOf;
    if outers != [] { PolygonCount(inBox, outers[..|outers| - 1], inners); }
  }

  /** `buildMultipolygon`: the hex of the assembled geometry, or nothing. */
  method BuildMultipolygon(members: seq<Member>, coords: map<int, seq<Coord>>, srid: nat)
      returns (hex: string)
    ensures var g := Assemble(InBox, RingsOf(members, coords, false), RingsOf(members, coords, true));
      hex == match g case None => "" case Some(geom) => WkbHex.ToHex(Encode(geom, Some(srid), Some(srid)))
  {
    hide Rings, Chains, SegmentsOf, Encode, WkbHex.ToHex, PolygonsOf, Header, LE, EncodeParts;
    var outerSegs, innerSegs := Split(members, coords);
    if outerSegs == [] {
      NoChains();
      return "";
    }
    var outers := StitchRings(outerSegs);
    var inners := StitchRings(innerSegs);
    if outers == [] { return ""; }
    var buf;
    if |outers| == 1 {
      buf := WkbHex.WriteWkbPolygon([], outers[0], inners, srid);
      PolygonSub([outers[0]] + inners, srid);
      assert buf == Encode(Polygon([outers[0]] + inners), Some(srid), Some(srid));
    } else {
      buf := WritePolygons(Header(6, Some(srid)) + LE(|outers|, 4), outers, inners, srid);
      PolygonCount(InBox, outers, inners);
      MultiBytes(PolygonsOf(InBox, outers, inners), srid);
    }
    return WkbHex.ToHex(buf);
  }

  lemma NoChains()
    ensures AllNonEmpty([]) && Rings(Chains([])) == []
  {}

  // ---------------------------------------------------------------- what is stored decodes

  predicate SmallRings(rings: seq<seq<Coord>>) {
    |rings| < COUNT_LIMIT - 1 && forall r :: r in rings ==> |r| < COUNT_LIMIT
  }

  lemma {:induction false} FilterSmall(inners: seq<seq<Coord>>, p: seq<Coord> -> bool)
    requires SmallRings(inners)
    ensures SmallRings(Filter(inners, p)) && |Filter(inners, p)| <= |inners|
  {
    if inners != [] { FilterSmall(inners[..|inners| - 1], p); }
  }

  lemma {:induction false} PolygonsEncodable(inBox: (seq<Coord>, Coord) -> bool, outers: seq<seq<Coord>>, inners: seq<seq<Coord>>)
    requires SmallRings(outers) && SmallRings(inners)
    ensures Encodable(MultiPolygon(PolygonsOf(inBox, outers, inners)))
  {
    PolygonCount(inBox, outers, inners);
    if outers != [] {
      var init, last := outers[..|outers| - 1], outers[|outers| - 1];
      assert last in outers;
      PolygonsEncodable(inBox, init, inners);
      FilterSmall(inners, (inner: seq<Coord>) => inner != [] && inBox(last, inner[0]));
      var rings := [last] + HolesOf(inBox, last, inners);
      assert forall r :: r in rings ==> |r| < COUNT_LIMIT;
    }
  }

  /** The stored geometry decodes to the assembled one, every shell and hole bit for bit. */
  lemma AssembledTrip(inBox: (seq<Coord>, Coord) -> bool, outers: seq<seq<Coord>>, inners: seq<seq<Coord>>, srid: nat)
    requires SmallRings(outers) && SmallRings(inners) && srid < 0x8000_0000 && outers != []
    ensures var g := Assemble(inBox, outers, inners).value;
      DecodeOne(Encode(g, Some(srid), Some(srid))) == Some(Decoded(Result(g, srid), []))
  {
    hide Encode, DecodeOne, PolygonsOf, Encodable;
    var g := Assemble(inBox, outers, inners).value;
    if |outers| == 1 {
      OneEncodable(outers[0], inners, outers);
    } else {
      PolygonsEncodable(inBox, outers, inners);
    }
    RoundTrip(g, Some(srid), Some(srid), []);
    assert Encode(g, Some(srid), Some(srid)) + [] == Encode(g, Some(srid), Some(srid));
  }

  lemma OneEncodable(outer: seq<Coord>, inners: seq<seq<Coord>>, outers: seq<seq<Coord>>)
    requires SmallRings(inners) && SmallRings(outers) && outer in outers
    ensures Encodable(Polygon([outer] + inners))
  {}

  /** Every shell of the stored geometry is a complete ring of the outer members. */
  lemma ShellsComplete(members: seq<Member>, coords: map<int, seq<Coord>>, inner: bool, ring: seq<Coord>)
    requires ring in RingsOf(members, coords, inner)
    ensures Complete(ring)
  {
    hide Chains, Rings;
    RingsSound(SegmentsOf(members, coords, inner), ring);
  }

  ghost predicate IsHoleOf(hole: seq<Coord>, p: Geom) { p.Polygon? && p.rings != [] && hole in p.rings[1..] }

  /** With several shells, a hole is kept exactly when some shell's box holds its first point. */
  lemma {:induction false} HoleKeptIff(inBox: (seq<Coord>, Coord) -> bool, outers: seq<seq<Coord>>, inners: seq<seq<Coord>>, hole: seq<Coord>)
    requires hole in inners && hole != []
    ensures (exists p :: p in PolygonsOf(inBox, outers, inners) && IsHoleOf(hole, p))
       <==> (exists outer :: outer in outers && inBox(outer, hole[0]))
  {
    hide HolesOf;
    if outers != [] {
      var init, last := outers[..|outers| - 1], outers[|outers| - 1];
      HoleKeptIff(inBox, init, inners, hole);
      var p := Polygon([last] + HolesOf(inBox, last, inners));
      assert p.rings[1..] == HolesOf(inBox, last, inners);
      HoleIn(inBox, last, inners, hole);
      assert IsHoleOf(hole, p) <==> inBox(last, hole[0]);
      assert forall q :: q in PolygonsOf(inBox, outers, inners) <==> q in PolygonsOf(inBox, init, inners) || q == p;
      assert forall outer :: outer in outers <==> outer in init || outer == last;
    }
  }

  lemma HoleIn(inBox: (seq<Coord>, Coord) -> bool, outer: seq<Coord>, inners: seq<seq<Coord>>, hole: seq<Coord>)
    requires hole in inners && hole != []
    ensures hole in HolesOf(inBox, outer, inners) <==> inBox(outer, hole[0])
  {
    FilterIn(inners, (inner: seq<Coord>) => inner != [] && inBox(outer, inner[0]), hole);
  }
}
