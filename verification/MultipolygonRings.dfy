/**
 Which members the shells and holes of a multipolygon come from (src/main.cpp,
 `buildMultipolygon`): shells from the members that are not inner, holes from those that are.
 */
module MultipolygonRings {
  import opened Core
  import opened Geometry
  import opened Lists
  import opened Stitch
  import opened Multipolygon

  // ---------------------------------------------------------------- points of rings

  lemma {:induction false} ReversePoints(s: seq<Coord>, v: Coord)
    ensures v in Reverse(s) <==> v in s
  {
    if s != [] {
      ReversePoints(s[1..], v);
      assert s == [s[0]] + s[1..];
    }
  }

  lemma AttachPoints(ring: seq<Coord>, seg: Segment, v: Coord)
    requires ring != [] && seg != [] && v in Attach(ring, seg)
    ensures v in ring || v in seg
  {
    ReversePoints(seg, v);
    var o := Oriented(seg, End(ring));
    if v !in ring { assert v in o[1..]; assert v in o; }
  }

  ghost predicate OnSegment(segs: seq<Segment>, v: Coord) { exists s :: s in segs && v in s }

  lemma {:induction false} GrowPoints(ring: seq<Coord>, segs: seq<Segment>, v: Coord)
    requires ring != [] && v in Grow(ring, segs).chain
    ensures v in ring || OnSegment(segs, v)
    decreases |segs|
  {
    hide Without, Attach, Complete;
    if !Complete(ring) {
      var i := FirstTouching(segs, End(ring));
      if i < |segs| {
        var next, left := Attach(ring, segs[i]), Without(segs, i);
        GrowPoints(next, left, v);
        if v in next {
          AttachPoints(ring, segs[i], v);
        } else {
          var s :| s in left && v in s;
          StillThere(segs, i, s);
        }
      }
    }
  }

  lemma StillThere(segs: seq<Segment>, i: nat, s: Segment)
    requires i < |segs| && s in Without(segs, i)
    ensures s in segs
  {}

  lemma {:induction false} ChainPoints(segs: seq<Segment>, c: Chain, v: Coord)
    requires AllNonEmpty(segs) && c in Chains(segs) && v in c.points
    ensures OnSegment(segs, v)
    decreases |segs|
  {
    hide Grow, AllNonEmpty;
    HeadNonEmpty(segs);
    GrowUses(segs[0], segs[1..]);
    var g := Grow(segs[0], segs[1..]);
    assert Chains(segs) == [Chain(g.chain, [segs[0]] + g.used)] + Chains(g.rest);
    if c in Chains(g.rest) {
      ChainPoints(g.rest, c, v);
      var s :| s in g.rest && v in s;
      FromTail(segs, g.used, g.rest, s);
    } else {
      GrowPoints(segs[0], segs[1..], v);
      if v !in segs[0] {
        var s :| s in segs[1..] && v in s;
        assert s in segs;
      }
    }
  }

  /** Every point of a ring of one role is a point of a member of that role. */
  lemma RingPoints(members: seq<Member>, coords: map<int, seq<Coord>>, inner: bool, ring: seq<Coord>, v: Coord)
    requires ring in RingsOf(members, coords, inner) && v in ring
    ensures exists i :: 0 <= i < |members| && members[i].inner == inner && members[i].way in coords && v in coords[members[i].way]
  {
    hide Chains, Rings, Emitted, SegmentsOf;
    var segs := SegmentsOf(members, coords, inner);
    RingsFrom(Chains(segs), ring);
    var c :| c in Chains(segs) && ring in Emitted(c.points);
    EmittedPoints(c.points, ring, v);
    ChainPoints(segs, c, v);
    var s :| s in segs && v in s;
    var ks := RolePicked(members, coords, inner);
    assert SegmentsAt(members, coords, inner, ks, segs);
    var j :| 0 <= j < |segs| && segs[j] == s;
    assert members[ks[j]].inner == inner && v in coords[members[ks[j]].way];
  }

  lemma EmittedPoints(chain: seq<Coord>, ring: seq<Coord>, v: Coord)
    requires ring in Emitted(chain) && v in ring
    ensures v in chain
  {}

  // ---------------------------------------------------------------- members of a role

  predicate HasRole(m: Member, coords: map<int, seq<Coord>>, inner: bool) {
    m.inner == inner && m.way in coords && coords[m.way] != []
  }

  /** `segs` are the coordinates of the members of a role, in order: those at the positions `ks`. */
  ghost predicate SegmentsAt(members: seq<Member>, coords: map<int, seq<Coord>>, inner: bool, ks: seq<nat>, segs: seq<seq<Coord>>) {
    && Ascends(ks, |members|) && |segs| == |ks|
    && (forall i :: 0 <= i < |members| ==> (i in ks <==> HasRole(members[i], coords, inner)))
    && (forall j :: 0 <= j < |ks| ==> HasRole(members[ks[j]], coords, inner) && segs[j] == coords[members[ks[j]].way])
  }

  lemma {:induction false} RolePicked(members: seq<Member>, coords: map<int, seq<Coord>>, inner: bool) returns (ks: seq<nat>)
    ensures SegmentsAt(members, coords, inner, ks, SegmentsOf(members, coords, inner))
  {
    hide SegmentsAt;
    if members == [] {
      ks := [];
      NoRole(coords, inner);
    } else {
      var n := |members| - 1;
      var init := RolePicked(members[..n], coords, inner);
      ks := if HasRole(members[n], coords, inner) then init + [n] else init;
      OneMoreMember(members, coords, inner, init, SegmentsOf(members[..n], coords, inner));
      assert SegmentsOf(members[..n], coords, inner) + [] == SegmentsOf(members[..n], coords, inner);
    }
  }

  lemma NoRole(coords: map<int, seq<Coord>>, inner: bool)
    ensures SegmentsAt([], coords, inner, [], SegmentsOf([], coords, inner))
  {}

  lemma OneMoreMember(members: seq<Member>, coords: map<int, seq<Coord>>, inner: bool, ks: seq<nat>, segs: seq<seq<Coord>>)
    requires members != [] && SegmentsAt(members[..|members| - 1], coords, inner, ks, segs)
    ensures var n := |members| - 1;
      if HasRole(members[n], coords, inner)
      then SegmentsAt(members, coords, inner, ks + [n], segs + [coords[members[n].way]])
      else SegmentsAt(members, coords, inner, ks, segs)
  {
    hide Ascends, HasRole;
    var n := |members| - 1;
    AscendsMore(ks, n);
    assert forall i :: 0 <= i < n ==> members[..n][i] == members[i];
    assert forall j :: 0 <= j < |ks| ==> ks[j] in ks;
    if HasRole(members[n], coords, inner) { RoleWay(members[n], coords, inner); }
  }

  lemma RoleWay(m: Member, coords: map<int, seq<Coord>>, inner: bool)
    requires HasRole(m, coords, inner)
    ensures m.way in coords
  {}

  // ---------------------------------------------------------------- closed members

  predicate ClosedRing(s: seq<Coord>) { |s| >= 4 && s[0] == s[|s| - 1] }

  lemma {:induction false} ClosedSegments(segs: seq<Segment>)
    requires AllNonEmpty(segs) && forall i :: 0 <= i < |segs| ==> ClosedRing(segs[i])
    ensures Rings(Chains(segs)) == segs
    decreases |segs|
  {
    hide Rings, Chains, AllNonEmpty;
    if segs == [] {
      NoRings();
    } else {
      ChainsStep(segs);
      assert ClosedRing(segs[0]);
      AloneComplete(segs[0], segs[1..]);
      ClosedSegments(segs[1..]);
      assert segs == [segs[0]] + segs[1..];
    }
  }

  lemma AloneComplete(ring: seq<Coord>, rest: seq<Segment>)
    requires ClosedRing(ring)
    ensures Grow(ring, rest) == Grown(ring, [], rest) && Emitted(ring) == [ring]
  {}

  /** Members that are closed rings already are the rings of their role, in member order. */
  lemma ClosedRole(members: seq<Member>, coords: map<int, seq<Coord>>, inner: bool) returns (ks: seq<nat>)
    requires forall i :: 0 <= i < |members| && HasRole(members[i], coords, inner) ==> ClosedRing(coords[members[i].way])
    ensures SegmentsAt(members, coords, inner, ks, RingsOf(members, coords, inner))
  {
    hide Rings, Chains, SegmentsOf;
    ks := RolePicked(members, coords, inner);
    var segs := SegmentsOf(members, coords, inner);
    forall j | 0 <= j < |segs| ensures ClosedRing(segs[j]) { assert segs[j] == coords[members[ks[j]].way]; }
    ClosedSegments(segs);
  }

  /** A polygon of this shell and holes. */
  predicate IsPolygon(g: Geom, shell: seq<Coord>, holes: seq<seq<Coord>>) {
    g.Polygon? && g.rings != [] && g.rings[0] == shell && g.rings[1..] == holes
  }

  lemma {:induction false} PolygonAt(inBox: (seq<Coord>, Coord) -> bool, outers: seq<seq<Coord>>, inners: seq<seq<Coord>>, j: nat)
    requires j < |outers|
    ensures |PolygonsOf(inBox, outers, inners)| == |outers|
    ensures IsPolygon(PolygonsOf(inBox, outers, inners)[j], outers[j], HolesOf(inBox, outers[j], inners))
  {
    hide HolesOf;
    PolygonCount(inBox, outers, inners);
    PolygonCount(inBox, outers[..|outers| - 1], inners);
    if j < |outers| - 1 { PolygonAt(inBox, outers[..|outers| - 1], inners, j); }
  }

  /** A polygon of this shell and, in some order, those of the holes whose first point its box holds. */
  ghost predicate IsShare(g: Geom, shell: seq<Coord>, holes: seq<seq<Coord>>) {
    g.Polygon? && g.rings != [] && g.rings[0] == shell
    && forall h :: h in g.rings[1..] <==> h in holes && h != [] && InBox(shell, h[0])
  }

  lemma ShareIs(g: Geom, shell: seq<Coord>, holes: seq<seq<Coord>>)
    requires IsPolygon(g, shell, HolesOf(InBox, shell, holes))
    ensures IsShare(g, shell, holes)
  {
    hide InBox, HolesOf;
    forall h ensures h in HolesOf(InBox, shell, holes) <==> h in holes && h != [] && InBox(shell, h[0]) {
      HolesHave(InBox, shell, holes, h);
    }
  }

  lemma HolesHave(inBox: (seq<Coord>, Coord) -> bool, outer: seq<Coord>, inners: seq<seq<Coord>>, h: seq<Coord>)
    ensures h in HolesOf(inBox, outer, inners) <==> h in inners && h != [] && inBox(outer, h[0])
  {
    FilterIn(inners, (inner: seq<Coord>) => inner != [] && inBox(outer, inner[0]), h);
  }

  /**
   A multipolygon of closed members: the shells are the coordinates of the members that are not
   inner, in member order. One shell takes all inner members as holes; several take those whose
   first point their box holds.
   */
  lemma ClosedMultipolygon(members: seq<Member>, coords: map<int, seq<Coord>>)
      returns (os: seq<nat>, ns: seq<nat>, shells: seq<seq<Coord>>, holes: seq<seq<Coord>>)
    requires forall i :: 0 <= i < |members| && members[i].way in coords && coords[members[i].way] != [] ==> ClosedRing(coords[members[i].way])
    ensures SegmentsAt(members, coords, false, os, shells) && SegmentsAt(members, coords, true, ns, holes) && |shells| == |os|
    ensures var g := Assemble(InBox, RingsOf(members, coords, false), RingsOf(members, coords, true));
      && (|os| == 0 ==> g == None)
      && (|os| == 1 ==> g.Some? && IsPolygon(g.value, shells[0], holes))
      && (|os| > 1 ==>
            (g.Some? && g.value.MultiPolygon? && |g.value.parts| == |os|
             && forall j :: 0 <= j < |os| ==> IsShare(g.value.parts[j], shells[j], holes)))
  {
    hide InBox, Rings, Chains, RingsOf, SegmentsAt, PolygonsOf, IsShare, HolesOf;
    os := ClosedRole(members, coords, false);
    ns := ClosedRole(members, coords, true);
    shells, holes := RingsOf(members, coords, false), RingsOf(members, coords, true);
    SameCount(members, coords, false, os, shells);
    if |os| == 1 {
      assert ([shells[0]] + holes)[1..] == holes;
    } else if |os| > 1 {
      PolygonCount(InBox, shells, holes);
      forall j | 0 <= j < |os| ensures IsShare(PolygonsOf(InBox, shells, holes)[j], shells[j], holes) {
        PolygonAt(InBox, shells, holes, j);
        ShareIs(PolygonsOf(InBox, shells, holes)[j], shells[j], holes);
      }
    }
  }

  lemma SameCount(members: seq<Member>, coords: map<int, seq<Coord>>, inner: bool, ks: seq<nat>, segs: seq<seq<Coord>>)
    requires SegmentsAt(members, coords, inner, ks, segs)
    ensures |ks| == |segs|
  {}
}
