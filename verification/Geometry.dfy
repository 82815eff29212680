/** Geometries as the importer builds them (src/GeoUtils.cpp, src/DeltaApplier.cpp). */
module Geometry {
  import opened Core
  import opened Lists

  datatype Geom =
    | Point(at: Coord)
    | Line(points: seq<Coord>)
    | Polygon(rings: seq<seq<Coord>>)
    | MultiLine(parts: seq<Geom>)
    | MultiPolygon(parts: seq<Geom>)

  /** A way is stored as a polygon when its resolved coordinates form a closed ring. */
  predicate IsClosed(coords: seq<Coord>) {
    |coords| >= 4 && coords[0] == coords[|coords| - 1]
  }

  function BuildWay(coords: seq<Coord>): (g: Option<Geom>)
    ensures g.Some? <==> |coords| >= 2
    ensures g.Some? ==> g.value.Polygon? == IsClosed(coords)
  {
    if |coords| < 2 then None
    else if IsClosed(coords) then Some(Polygon([coords]))
    else Some(Line(coords))
  }

  predicate IsLinear(g: Geom) { g.Line? || g.MultiLine? }

  function LinearParts(geoms: seq<Geom>): seq<Geom> {
    if geoms == [] then []
    else KeepLinear(geoms[0]) + LinearParts(geoms[1..])
  }

  function KeepLinear(g: Geom): seq<Geom> { if IsLinear(g) then [g] else [] }

  /** Member geometries of a relation: only the linear ones, in order; none gives no geometry. */
  function MergeLines(geoms: seq<Geom>): Option<Geom> {
    var parts := LinearParts(geoms);
    if parts == [] then None else Some(MultiLine(parts))
  }

  lemma {:induction false} LinearPartsSnoc(geoms: seq<Geom>, g: Geom)
    ensures LinearParts(geoms + [g]) == LinearParts(geoms) + KeepLinear(g)
  {
    var all := geoms + [g];
    assert LinearParts(all) == KeepLinear(all[0]) + LinearParts(all[1..]);
    if geoms == [] {
      assert all[1..] == [];
    } else {
      assert all[1..] == geoms[1..] + [g];
      LinearPartsSnoc(geoms[1..], g);
      assert KeepLinear(geoms[0]) + (LinearParts(geoms[1..]) + KeepLinear(g))
          == (KeepLinear(geoms[0]) + LinearParts(geoms[1..])) + KeepLinear(g);
    }
  }

  /** Every vertex of a geometry, in storage order. */
  function Vertices(g: Geom): seq<Coord>
    decreases g, 0
  {
    match g
    case Point(at) => [at]
    case Line(points) => points
    case Polygon(rings) => Flatten(rings)
    case MultiLine(parts) => VerticesOf(parts)
    case MultiPolygon(parts) => VerticesOf(parts)
  }

  function VerticesOf(parts: seq<Geom>): seq<Coord>
    decreases parts
  {
    if parts == [] then [] else Vertices(parts[0]) + VerticesOf(parts[1..])
  }

  /** Closing decides the type but never loses or moves a vertex. */
  lemma WayVertices(coords: seq<Coord>)
    requires |coords| >= 2
    ensures Vertices(BuildWay(coords).value) == coords
  {
    assert Flatten([coords]) == coords + Flatten<Coord>([]);
  }

  lemma {:induction false} FlattenHas(rings: seq<seq<Coord>>, v: Coord)
    ensures v in Flatten(rings) <==> exists i, j :: 0 <= i < |rings| && 0 <= j < |rings[i]| && rings[i][j] == v
  {
    if rings != [] {
      var rest := rings[1..];
      FlattenHas(rest, v);
      assert forall i :: 0 <= i < |rest| ==> rest[i] == rings[i + 1];
      if v in Flatten(rest) {
        var i, j :| 0 <= i < |rest| && 0 <= j < |rest[i]| && rest[i][j] == v;
        assert rings[i + 1][j] == v;
      }
      if v in rings[0] { var j :| 0 <= j < |rings[0]| && rings[0][j] == v; }
      if i, j :| 0 <= i < |rings| && 0 <= j < |rings[i]| && rings[i][j] == v {
        if i > 0 { assert rest[i - 1][j] == v; }
      }
    }
  }

  lemma {:induction false} PartsHave(parts: seq<Geom>, v: Coord)
    ensures v in VerticesOf(parts) <==> exists i :: 0 <= i < |parts| && v in Vertices(parts[i])
  {
    hide Vertices;
    if parts != [] {
      var rest := parts[1..];
      PartsHave(rest, v);
      assert forall i :: 0 <= i < |rest| ==> rest[i] == parts[i + 1];
      if v in VerticesOf(rest) { var i :| 0 <= i < |rest| && v in Vertices(rest[i]); assert v in Vertices(parts[i + 1]); }
      if i :| 0 <= i < |parts| && v in Vertices(parts[i]) {
        if i > 0 { assert v in Vertices(rest[i - 1]); }
      }
    }
  }

  /** The vertices of a multi-line are the points of its lines, all of them and nothing else. */
  lemma MultiLineVertices(parts: seq<Geom>, v: Coord)
    requires forall i :: 0 <= i < |parts| ==> parts[i].Line?
    ensures v in Vertices(MultiLine(parts)) <==>
      exists i, j :: 0 <= i < |parts| && 0 <= j < |parts[i].points| && parts[i].points[j] == v
  {
    hide VerticesOf;
    PartsHave(parts, v);
    if v in Vertices(MultiLine(parts)) {
      var i :| 0 <= i < |parts| && v in Vertices(parts[i]);
      var j :| 0 <= j < |parts[i].points| && parts[i].points[j] == v;
    }
    if i, j :| 0 <= i < |parts| && 0 <= j < |parts[i].points| && parts[i].points[j] == v {
      assert v in Vertices(parts[i]);
    }
  }

  /** The vertices of a multi-polygon are the points of the rings of its polygons. */
  lemma MultiPolygonVertices(parts: seq<Geom>, v: Coord)
    requires forall i :: 0 <= i < |parts| ==> parts[i].Polygon?
    ensures v in Vertices(MultiPolygon(parts)) <==>
      exists i, j, k :: 0 <= i < |parts| && 0 <= j < |parts[i].rings| && 0 <= k < |parts[i].rings[j]| && parts[i].rings[j][k] == v
  {
    hide VerticesOf, Flatten;
    PartsHave(parts, v);
    if v in Vertices(MultiPolygon(parts)) {
      var i :| 0 <= i < |parts| && v in Vertices(parts[i]);
      FlattenHas(parts[i].rings, v);
      var j, k :| 0 <= j < |parts[i].rings| && 0 <= k < |parts[i].rings[j]| && parts[i].rings[j][k] == v;
    }
    if i, j, k :| 0 <= i < |parts| && 0 <= j < |parts[i].rings| && 0 <= k < |parts[i].rings[j]| && parts[i].rings[j][k] == v {
      FlattenHas(parts[i].rings, v);
      assert v in Vertices(parts[i]);
    }
  }

  /** The geometry of these coordinates: none below two, a polygon when they close, else a line. */
  ghost predicate Shaped(coords: seq<Coord>, g: Option<Geom>) {
    if |coords| < 2 then g == None
    else if |coords| >= 4 && coords[0].x == coords[|coords| - 1].x && coords[0].y == coords[|coords| - 1].y
    then g == Some(Polygon([coords]))
    else g == Some(Line(coords))
  }

  lemma WayShapeIs(coords: seq<Coord>)
    ensures Shaped(coords, BuildWay(coords))
  {
    if |coords| > 0 {
      var a, b := coords[0], coords[|coords| - 1];
      assert a == b <==> a.x == b.x && a.y == b.y;
    }
  }

  /** `parts` are the lines and multi-lines of the list, in order: those at the positions `ks`. */
  ghost predicate LinesAt(geoms: seq<Option<Geom>>, ks: seq<nat>, parts: seq<Geom>) {
    && Ascends(ks, |geoms|) && |parts| == |ks|
    && (forall i :: 0 <= i < |geoms| ==> (i in ks <==> geoms[i].Some? && (geoms[i].value.Line? || geoms[i].value.MultiLine?)))
    && (forall j :: 0 <= j < |ks| ==> geoms[ks[j]] == Some(parts[j]))
  }

  function Present(geoms: seq<Option<Geom>>): seq<Geom> {
    if geoms == [] then []
    else Present(geoms[..|geoms| - 1]) + (match geoms[|geoms| - 1] case Some(g) => [g] case None => [])
  }

  lemma {:induction false} LinesPicked(geoms: seq<Option<Geom>>) returns (ks: seq<nat>)
    ensures LinesAt(geoms, ks, LinearParts(Present(geoms)))
  {
    hide LinearParts, LinesAt;
    if geoms == [] {
      ks := [];
      NoLines();
    } else {
      var n := |geoms| - 1;
      var init := LinesPicked(geoms[..n]);
      if geoms[n].Some? { LinearPartsSnoc(Present(geoms[..n]), geoms[n].value); }
      ks := if geoms[n].Some? && IsLinear(geoms[n].value) then init + [n] else init;
      OneMoreLine(geoms, init, LinearParts(Present(geoms[..n])));
      var parts := LinearParts(Present(geoms[..n]));
      assert parts + [] == parts && Present(geoms[..n]) + [] == Present(geoms[..n]);
      assert LinearParts(Present(geoms)) == parts + (if geoms[n].Some? then KeepLinear(geoms[n].value) else []);
    }
  }

  lemma NoLines()
    ensures LinesAt([], [], LinearParts([]))
  {}

  lemma OneMoreLine(geoms: seq<Option<Geom>>, ks: seq<nat>, parts: seq<Geom>)
    requires geoms != [] && LinesAt(geoms[..|geoms| - 1], ks, parts)
    ensures var n := |geoms| - 1;
      if geoms[n].Some? && (geoms[n].value.Line? || geoms[n].value.MultiLine?)
      then LinesAt(geoms, ks + [n], parts + [geoms[n].value]) else LinesAt(geoms, ks, parts)
  {
    hide Ascends;
    var n := |geoms| - 1;
    AscendsMore(ks, n);
    assert forall i :: 0 <= i < n ==> geoms[..n][i] == geoms[i];
    assert forall j :: 0 <= j < |ks| ==> ks[j] in ks;
  }
}
