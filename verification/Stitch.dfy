/**
 Ring stitching (src/GeoUtils.cpp, `stitchRings`): open segments joined end to end into
 closed rings. Every step is deterministic: the first segment that touches the end of the
 chain is attached, forwards or reversed.
 */
module Stitch {
  import opened Core
  import opened Lists

  type Segment = seq<Coord>

  predicate AllNonEmpty(segs: seq<Segment>) { forall i :: 0 <= i < |segs| ==> segs[i] != [] }

  function End(ring: seq<Coord>): Coord
    requires ring != []
  {
    ring[|ring| - 1]
  }

  /** A closed ring of at least 4 points is complete. */
  predicate Complete(ring: seq<Coord>) { |ring| >= 4 && ring[0] == End(ring) }

  predicate Touches(seg: Segment, p: Coord) { seg != [] && (seg[0] == p || End(seg) == p) }

  function Reverse(s: seq<Coord>): (r: seq<Coord>)
    ensures |r| == |s|
    ensures s != [] ==> r[0] == s[|s| - 1] && r[|s| - 1] == s[0]
  {
    if s == [] then [] else Reverse(s[1..]) + [s[0]]
  }

  /** Forwards when the segment starts at the chain's end, else reversed. */
  function Oriented(seg: Segment, p: Coord): seq<Coord>
    requires seg != []
  {
    if seg[0] == p then seg else Reverse(seg)
  }

  function Attach(ring: seq<Coord>, seg: Segment): (r: seq<Coord>)
    requires ring != [] && seg != []
    ensures |r| >= |ring|
  {
    ring + Oriented(seg, End(ring))[1..]
  }

  /** Index of the first segment touching `p`, or the number of segments. */
  function FirstTouching(segs: seq<Segment>, p: Coord): (i: nat)
    ensures i <= |segs|
    ensures i < |segs| ==> Touches(segs[i], p)
    ensures forall j :: 0 <= j < i ==> !Touches(segs[j], p)
  {
    if segs == [] then 0
    else if Touches(segs[0], p) then 0
    else
      var i := FirstTouching(segs[1..], p);
      assert forall j :: 1 <= j < i + 1 ==> segs[j] == segs[1..][j - 1];
      1 + i
  }

  function Without(segs: seq<Segment>, i: nat): (r: seq<Segment>)
    requires i < |segs|
    ensures |r| == |segs| - 1
  {
    segs[..i] + segs[i + 1..]
  }

  /** A finished chain, the segments it used in order, and those left over. */
  datatype Grown = Grown(chain: seq<Coord>, used: seq<Segment>, rest: seq<Segment>)

  function Grow(ring: seq<Coord>, segs: seq<Segment>): (g: Grown)
    requires ring != []
    ensures |g.rest| <= |segs|
    decreases |segs|
  {
    if Complete(ring) then Grown(ring, [], segs)
    else
      var i := FirstTouching(segs, End(ring));
      if i == |segs| then Grown(ring, [], segs)
      else
        var g := Grow(Attach(ring, segs[i]), Without(segs, i));
        g.(used := [segs[i]] + g.used)
  }

  datatype Chain = Chain(points: seq<Coord>, used: seq<Segment>)

  /** The chains in the order they are built. */
  function Chains(segs: seq<Segment>): seq<Chain>
    requires AllNonEmpty(segs)
    decreases |segs|
  {
    if segs == [] then []
    else
      var g := Grow(segs[0], segs[1..]);
      GrowUses(segs[0], segs[1..]);
      [Chain(g.chain, [segs[0]] + g.used)] + Chains(g.rest)
  }

  /** An open chain is closed by repeating its first point. */
  function Closed(chain: seq<Coord>): seq<Coord> {
    if chain != [] && chain[0] != End(chain) then chain + [chain[0]] else chain
  }

  function Emitted(chain: seq<Coord>): seq<seq<Coord>> {
    if |Closed(chain)| >= 4 then [Closed(chain)] else []
  }

  function Rings(chains: seq<Chain>): seq<seq<Coord>> {
    if chains == [] then [] else Emitted(chains[0].points) + Rings(chains[1..])
  }

  // ---------------------------------------------------------------- the loops

  /** One scan of the remaining segments. */
  method Scan(ring: seq<Coord>, segs: seq<Segment>) returns (progress: bool, ring': seq<Coord>, segs': seq<Segment>)
    requires ring != []
    ensures progress == (FirstTouching(segs, End(ring)) < |segs|)
    ensures !progress ==> ring' == ring && segs' == segs
    ensures progress ==> var i := FirstTouching(segs, End(ring)); ring' == Attach(ring, segs[i]) && segs' == Without(segs, i)
  {
    var rb := End(ring);
    for i := 0 to |segs|
      invariant forall j :: 0 <= j < i ==> !Touches(segs[j], rb)
    {
      var seg := segs[i];
      if seg == [] { continue; }
      if seg[0] == rb {
        FirstIs(segs, rb, i);
        return true, ring + seg[1..], segs[..i] + segs[i + 1..];
      }
      if End(seg) == rb {
        FirstIs(segs, rb, i);
        return true, ring + Reverse(seg)[1..], segs[..i] + segs[i + 1..];
      }
    }
    NoneTouching(segs, rb);
    return false, ring, segs;
  }

  lemma FirstIs(segs: seq<Segment>, p: Coord, i: nat)
    requires i < |segs| && Touches(segs[i], p) && forall j :: 0 <= j < i ==> !Touches(segs[j], p)
    ensures FirstTouching(segs, p) == i
  {}

  lemma NoneTouching(segs: seq<Segment>, p: Coord)
    requires forall j :: 0 <= j < |segs| ==> !Touches(segs[j], p)
    ensures FirstTouching(segs, p) == |segs|
  {}

  /** Extends a chain until it is complete or nothing touches its end. */
  method GrowChain(first: Segment, segs: seq<Segment>) returns (ring: seq<Coord>, rest: seq<Segment>)
    requires first != []
    ensures ring == Grow(first, segs).chain && rest == Grow(first, segs).rest
  {
    hide FirstTouching, Touches, Complete, Without, Attach;
    ring, rest := first, segs;
    var progress := true;
    while progress
      invariant ring != []
      invariant Grow(ring, rest).chain == Grow(first, segs).chain && Grow(ring, rest).rest == Grow(first, segs).rest
      invariant !progress ==> Grow(ring, rest) == Grown(ring, [], rest)
      decreases |rest|, progress
    {
      progress := false;
      if Complete(ring) { break; }
      Bound(rest, End(ring));
      progress, ring, rest := Scan(ring, rest);
    }
  }

  lemma Bound(segs: seq<Segment>, p: Coord)
    ensures FirstTouching(segs, p) <= |segs|
  {}

  /** `stitchRings` */
  method StitchRings(segments: seq<Segment>) returns (rings: seq<seq<Coord>>)
    requires AllNonEmpty(segments)
    ensures rings == Rings(Chains(segments))
  {
    hide Grow, Chains, Rings, Emitted, AllNonEmpty;
    var segs := segments;
    rings := [];
    while segs != []
      invariant AllNonEmpty(segs)
      invariant rings + Rings(Chains(segs)) == Rings(Chains(segments))
      decreases |segs|
    {
      ChainsStep(segs);
      ghost var more := Rings(Chains(Grow(segs[0], segs[1..]).rest));
      var ring, rest := GrowChain(segs[0], segs[1..]);
      assert rings + (Emitted(ring) + more) == (rings + Emitted(ring)) + more;
      rings := EmitRing(rings, ring);
      segs := rest;
    }
    NoRings();
  }

  lemma NoRings()
    ensures Rings(Chains([])) == []
  {}

  lemma HeadNonEmpty(segs: seq<Segment>)
    requires AllNonEmpty(segs) && segs != []
    ensures segs[0] != [] && AllNonEmpty(segs[1..])
  {}

  lemma ChainsStep(segs: seq<Segment>)
    requires AllNonEmpty(segs) && segs != []
    ensures segs[0] != [] && AllNonEmpty(segs[1..])
    ensures AllNonEmpty(Grow(segs[0], segs[1..]).rest)
    ensures var g := Grow(segs[0], segs[1..]);
      Rings(Chains(segs)) == Emitted(g.chain) + Rings(Chains(g.rest))
  {
    hide Grow, Emitted;
    HeadNonEmpty(segs);
    GrowUses(segs[0], segs[1..]);
    var g := Grow(segs[0], segs[1..]);
    var c := [Chain(g.chain, [segs[0]] + g.used)];
    assert (c + Chains(g.rest))[1..] == Chains(g.rest);
  }

  method EmitRing(rings: seq<seq<Coord>>, chain: seq<Coord>) returns (out: seq<seq<Coord>>)
    ensures out == rings + Emitted(chain)
  {
    var ring := chain;
    if ring != [] && ring[0] != End(ring) { ring := ring + [ring[0]]; }
    out := rings;
    if |ring| >= 4 { out := out + [ring]; }
  }

  // ---------------------------------------------------------------- segments are consumed once

  function UsedBy(chains: seq<Chain>): seq<Segment> {
    if chains == [] then [] else chains[0].used + UsedBy(chains[1..])
  }

  lemma WithoutIs(segs: seq<Segment>, i: nat)
    requires i < |segs|
    ensures multiset(segs) == multiset{segs[i]} + multiset(Without(segs, i))
    ensures AllNonEmpty(segs) ==> AllNonEmpty(Without(segs, i))
  {
    assert segs == segs[..i] + [segs[i]] + segs[i + 1..];
  }

  /** A chain's segments and the leftovers are together the segments offered. */
  lemma {:induction false} GrowUses(ring: seq<Coord>, segs: seq<Segment>)
    requires ring != []
    ensures var g := Grow(ring, segs);
      multiset(segs) == multiset(g.used) + multiset(g.rest) && (AllNonEmpty(segs) ==> AllNonEmpty(g.rest))
    decreases |segs|
  {
    hide AllNonEmpty, Without, Attach, Complete;
    if !Complete(ring) {
      var i := FirstTouching(segs, End(ring));
      if i < |segs| {
        WithoutIs(segs, i);
        GrowUses(Attach(ring, segs[i]), Without(segs, i));
      }
    }
  }

  /** Every segment is consumed by exactly one chain. */
  lemma {:induction false} SegmentsConserved(segs: seq<Segment>)
    requires AllNonEmpty(segs)
    ensures multiset(UsedBy(Chains(segs))) == multiset(segs)
    decreases |segs|
  {
    hide Grow, AllNonEmpty;
    if segs != [] {
      HeadNonEmpty(segs);
      GrowUses(segs[0], segs[1..]);
      var g := Grow(segs[0], segs[1..]);
      SegmentsConserved(g.rest);
      UsedStep(segs);
      assert segs == [segs[0]] + segs[1..];
    }
  }

  lemma UsedStep(segs: seq<Segment>)
    requires AllNonEmpty(segs) && segs != []
    ensures segs[0] != [] && AllNonEmpty(Grow(segs[0], segs[1..]).rest)
    ensures var g := Grow(segs[0], segs[1..]);
      UsedBy(Chains(segs)) == [segs[0]] + g.used + UsedBy(Chains(g.rest))
  {
    hide Grow;
    HeadNonEmpty(segs);
    GrowUses(segs[0], segs[1..]);
    var g := Grow(segs[0], segs[1..]);
    var c := [Chain(g.chain, [segs[0]] + g.used)];
    assert (c + Chains(g.rest))[1..] == Chains(g.rest);
  }

  // ---------------------------------------------------------------- edges

  /** Undirected edges between neighbouring points. */
  ghost function Edges(s: seq<Coord>): multiset<set<Coord>> {
    if |s| < 2 then multiset{} else Edges(s[..|s| - 1]) + multiset{{s[|s| - 2], s[|s| - 1]}}
  }

  ghost function EdgesOf(segs: seq<Segment>): multiset<set<Coord>> {
    if segs == [] then multiset{} else Edges(segs[0]) + EdgesOf(segs[1..])
  }

  lemma LastEdge(s: seq<Coord>, p: Coord)
    requires s != []
    ensures Edges(s + [p]) == Edges(s) + multiset{{End(s), p}}
  {
    assert (s + [p])[..|s|] == s;
  }

  lemma ShortEdges(s: seq<Coord>)
    requires |s| < 2
    ensures Edges(s) == multiset{}
  {}

  lemma {:induction false} EdgesJoin(a: seq<Coord>, b: seq<Coord>)
    requires a != [] && b != [] && b[0] == End(a)
    ensures Edges(a + b[1..]) == Edges(a) + Edges(b)
  {
    hide Edges;
    if |b| == 1 {
      ShortEdges(b);
      assert a + b[1..] == a;
    } else {
      var init, x := b[..|b| - 1], End(b);
      EdgesJoin(a, init);
      assert b == init + [x] && a + b[1..] == (a + init[1..]) + [x];
      LastEdge(init, x);
      LastEdge(a + init[1..], x);
    }
  }

  lemma FirstEdge(p: Coord, s: seq<Coord>)
    requires s != []
    ensures Edges([p] + s) == multiset{{s[0], p}} + Edges(s)
  {
    hide Edges;
    EdgesJoin([p, s[0]], s);
    assert [p, s[0]] + s[1..] == [p] + s;
    LastEdge([p], s[0]);
    ShortEdges([p]);
    assert [p] + [s[0]] == [p, s[0]];
    assert {End([p]), s[0]} == {s[0], p};
  }

  lemma {:induction false} EdgesReverse(s: seq<Coord>)
    ensures Edges(Reverse(s)) == Edges(s)
  {
    hide Edges;
    if |s| < 2 {
      ShortEdges(s);
      ShortEdges(Reverse(s));
    } else {
      EdgesReverse(s[1..]);
      FirstEdge(s[0], s[1..]);
      assert [s[0]] + s[1..] == s;
      LastEdge(Reverse(s[1..]), s[0]);
    }
  }

  lemma AttachEdges(ring: seq<Coord>, seg: Segment)
    requires ring != [] && Touches(seg, End(ring))
    ensures Edges(Attach(ring, seg)) == Edges(ring) + Edges(seg)
    ensures Attach(ring, seg)[0] == ring[0]
  {
    EdgesJoin(ring, Oriented(seg, End(ring)));
    EdgesReverse(seg);
  }

  lemma {:induction false} EdgesOfAppend(a: seq<Segment>, b: seq<Segment>)
    ensures EdgesOf(a + b) == EdgesOf(a) + EdgesOf(b)
  {
    hide Edges;
    if a == [] { assert a + b == b; } else {
      EdgesOfAppend(a[1..], b);
      assert (a + b)[1..] == a[1..] + b;
    }
  }

  lemma {:induction false} GrowEdges(ring: seq<Coord>, segs: seq<Segment>)
    requires ring != []
    ensures Edges(Grow(ring, segs).chain) == Edges(ring) + EdgesOf(Grow(ring, segs).used)
    ensures Grow(ring, segs).chain != [] && Grow(ring, segs).chain[0] == ring[0]
    decreases |segs|
  {
    hide Edges, Without, Attach, Complete;
    if !Complete(ring) {
      var i := FirstTouching(segs, End(ring));
      if i < |segs| {
        AttachEdges(ring, segs[i]);
        var g := Grow(Attach(ring, segs[i]), Without(segs, i));
        GrowEdges(Attach(ring, segs[i]), Without(segs, i));
        assert ([segs[i]] + g.used)[1..] == g.used;
      }
    }
  }

  /** A chain, before closing, has exactly the edges of the segments it consumed. */
  ghost predicate Faithful(c: Chain) { c.points != [] && Edges(c.points) == EdgesOf(c.used) }

  lemma {:induction false} ChainsFaithful(segs: seq<Segment>)
    requires AllNonEmpty(segs)
    ensures forall c :: c in Chains(segs) ==> Faithful(c)
    decreases |segs|
  {
    hide Grow, AllNonEmpty, Edges;
    if segs != [] {
      HeadNonEmpty(segs);
      GrowUses(segs[0], segs[1..]);
      var g := Grow(segs[0], segs[1..]);
      GrowEdges(segs[0], segs[1..]);
      EdgesOfAppend([segs[0]], g.used);
      assert EdgesOf([segs[0]]) == Edges(segs[0]) by { assert [segs[0]][1..] == []; }
      ChainsFaithful(g.rest);
    }
  }

  ghost function ChainEdges(chains: seq<Chain>): multiset<set<Coord>> {
    if chains == [] then multiset{} else Edges(chains[0].points) + ChainEdges(chains[1..])
  }

  lemma {:induction false} EdgesOfPermuted(a: seq<Segment>, b: seq<Segment>)
    requires multiset(a) == multiset(b)
    ensures EdgesOf(a) == EdgesOf(b)
  {
    hide Edges, EdgesOf;
    if a != [] {
      OneMore(a);
      var i := Where(b, a[0], a);
      WithoutIs(b, i);
      DropEqual(multiset{a[0]}, multiset(a[1..]), multiset(Without(b, i)));
      EdgesOfPermuted(a[1..], Without(b, i));
      EdgesOfWithout(b, i);
    } else {
      assert |multiset(b)| == |b|;
    }
  }

  lemma DropEqual(x: multiset<Segment>, m: multiset<Segment>, n: multiset<Segment>)
    requires x + m == x + n
    ensures m == n
  {
    forall s: Segment ensures m[s] == n[s] { assert (x + m)[s] == (x + n)[s]; }
  }

  lemma OneMore(a: seq<Segment>)
    requires a != []
    ensures EdgesOf(a) == Edges(a[0]) + EdgesOf(a[1..])
    ensures multiset(a) == multiset{a[0]} + multiset(a[1..])
  {
    assert a == [a[0]] + a[1..];
  }

  lemma Where(b: seq<Segment>, x: Segment, a: seq<Segment>) returns (i: nat)
    requires x in a && multiset(a) == multiset(b)
    ensures i < |b| && b[i] == x
  {
    assert x in multiset(b);
    i :| 0 <= i < |b| && b[i] == x;
  }

  lemma EdgesOfWithout(segs: seq<Segment>, i: nat)
    requires i < |segs|
    ensures EdgesOf(segs) == Edges(segs[i]) + EdgesOf(Without(segs, i))
  {
    hide Edges;
    assert segs == segs[..i] + segs[i..];
    EdgesOfAppend(segs[..i], segs[i..]);
    EdgesOfAppend(segs[..i], segs[i + 1..]);
    assert segs[i..][1..] == segs[i + 1..];
  }

  lemma {:induction false} ChainEdgesAre(chains: seq<Chain>)
    requires forall c :: c in chains ==> Faithful(c)
    ensures ChainEdges(chains) == EdgesOf(UsedBy(chains))
  {
    hide Edges;
    if chains != [] {
      assert chains[0] in chains;
      ChainEdgesAre(chains[1..]);
      EdgesOfAppend(chains[0].used, UsedBy(chains[1..]));
    }
  }

  /** Over all chains, before closing, no edge is lost, invented or repeated. */
  lemma EdgesConserved(segs: seq<Segment>)
    requires AllNonEmpty(segs)
    ensures ChainEdges(Chains(segs)) == EdgesOf(segs)
  {
    hide Chains, UsedBy, EdgesOf, Faithful;
    ChainsFaithful(segs);
    ChainEdgesAre(Chains(segs));
    SegmentsConserved(segs);
    EdgesOfPermuted(UsedBy(Chains(segs)), segs);
  }

  // ---------------------------------------------------------------- the rings

  /** The edge that closing a chain adds, if it was open. */
  ghost function ClosingEdge(chain: seq<Coord>): multiset<set<Coord>>
    requires chain != []
  {
    if chain[0] == End(chain) then multiset{} else multiset{{End(chain), chain[0]}}
  }

  /** An emitted ring is closed, long enough, and adds at most the closing edge. */
  lemma EmittedRing(chain: seq<Coord>, ring: seq<Coord>)
    requires chain != [] && ring in Emitted(chain)
    ensures Complete(ring)
    ensures Edges(ring) == Edges(chain) + ClosingEdge(chain)
  {
    hide Edges;
    if chain[0] != End(chain) { LastEdge(chain, chain[0]); }
  }

  /** Every ring comes from a chain. */
  lemma {:induction false} RingsFrom(chains: seq<Chain>, ring: seq<Coord>)
    requires ring in Rings(chains)
    ensures exists c :: c in chains && ring in Emitted(c.points)
  {
    hide Emitted;
    if ring !in Emitted(chains[0].points) {
      RingsFrom(chains[1..], ring);
      var c :| c in chains[1..] && ring in Emitted(c.points);
      assert c in chains;
    } else {
      assert chains[0] in chains;
    }
  }

  lemma RingsSound(segs: seq<Segment>, ring: seq<Coord>)
    requires AllNonEmpty(segs) && ring in Rings(Chains(segs))
    ensures Complete(ring)
    ensures exists c :: (c in Chains(segs) && Faithful(c) && Edges(ring) == EdgesOf(c.used) + ClosingEdge(c.points))
  {
    hide Chains, Emitted, Edges, EdgesOf;
    ChainsFaithful(segs);
    RingsFrom(Chains(segs), ring);
    var c :| c in Chains(segs) && ring in Emitted(c.points);
    assert Faithful(c);
    EmittedRing(c.points, ring);
  }

  /** Complete, or touching at its end none of the segments left to later chains. */
  ghost predicate Finished(chain: seq<Coord>, later: seq<Segment>) {
    chain != [] && (Complete(chain) || forall s :: s in later ==> !Touches(s, End(chain)))
  }

  lemma {:induction false} GrowMaximal(ring: seq<Coord>, segs: seq<Segment>)
    requires ring != []
    ensures var g := Grow(ring, segs); Finished(g.chain, g.rest)
    decreases |segs|
  {
    hide Without, Attach, Complete;
    if !Complete(ring) {
      var i := FirstTouching(segs, End(ring));
      if i < |segs| { GrowMaximal(Attach(ring, segs[i]), Without(segs, i)); }
    }
  }

  /** No unfinished chain could have been extended by a segment a later chain took. */
  lemma {:induction false} ChainsMaximal(segs: seq<Segment>, k: nat)
    requires AllNonEmpty(segs) && k < |Chains(segs)|
    ensures var chains := Chains(segs); var chain := chains[k].points;
      Finished(chain, UsedBy(chains[k + 1..]))
    decreases |segs|
  {
    hide Grow, AllNonEmpty, Complete, Touches, UsedBy;
    HeadNonEmpty(segs);
    GrowUses(segs[0], segs[1..]);
    var g := Grow(segs[0], segs[1..]);
    var c := Chain(g.chain, [segs[0]] + g.used);
    assert Chains(segs) == [c] + Chains(g.rest);
    if k == 0 {
      GrowMaximal(segs[0], segs[1..]);
      SegmentsConserved(g.rest);
      SameMembers(UsedBy(Chains(g.rest)), g.rest);
      assert Chains(segs)[1..] == Chains(g.rest);
    } else {
      ChainsMaximal(g.rest, k - 1);
      assert Chains(segs)[k + 1..] == Chains(g.rest)[k..];
    }
  }

  lemma SameMembers(a: seq<Segment>, b: seq<Segment>)
    requires multiset(a) == multiset(b)
    ensures forall s :: s in a <==> s in b
  {
    assert forall s :: s in a <==> s in multiset(a);
    assert forall s :: s in b <==> s in multiset(b);
  }

  // ---------------------------------------------------------------- which inputs close

  /** How many of a segment's two ends are at `p`. */
  function EndsAt(seg: Segment, p: Coord): nat {
    if seg == [] then 0 else (if seg[0] == p then 1 else 0) + (if End(seg) == p then 1 else 0)
  }

  function Ends(segs: seq<Segment>, p: Coord): nat {
    if segs == [] then 0 else EndsAt(segs[0], p) + Ends(segs[1..], p)
  }

  predicate Even(n: int) { n % 2 == 0 }

  lemma EvenSum(a: int, b: int)
    ensures Even(a + b) <==> (Even(a) <==> Even(b))
  {}

  lemma {:induction false} EndsConcat(a: seq<Segment>, b: seq<Segment>, p: Coord)
    ensures Ends(a + b, p) == Ends(a, p) + Ends(b, p)
  {
    hide EndsAt;
    if a == [] {
      assert a + b == b;
    } else {
      assert (a + b)[1..] == a[1..] + b;
      EndsConcat(a[1..], b, p);
    }
  }

  lemma EndsWithout(segs: seq<Segment>, i: nat, p: Coord)
    requires i < |segs|
    ensures Ends(segs, p) == EndsAt(segs[i], p) + Ends(Without(segs, i), p)
  {
    hide EndsAt;
    assert segs == segs[..i] + segs[i..];
    EndsConcat(segs[..i], segs[i..], p);
    EndsConcat(segs[..i], segs[i + 1..], p);
    assert segs[i..][1..] == segs[i + 1..];
  }

  /** Attaching a segment adds its ends, up to the two that meet. */
  lemma AttachEnds(ring: seq<Coord>, seg: Segment, p: Coord)
    requires ring != [] && Touches(seg, End(ring))
    ensures Even(EndsAt(Attach(ring, seg), p)) <==> Even(EndsAt(ring, p) + EndsAt(seg, p))
  {
    var r := Attach(ring, seg);
    assert r[0] == ring[0];
    assert End(r) == if seg[0] == End(ring) then End(seg) else seg[0] by {
      assert |Oriented(seg, End(ring))| == |seg|;
      if |seg| == 1 { assert r == ring; }
    }
  }

  /** A grown chain's ends and the leftovers' have the parity of what was offered. */
  lemma {:induction false} GrowEnds(ring: seq<Coord>, segs: seq<Segment>, p: Coord)
    requires ring != []
    ensures var g := Grow(ring, segs);
      Even(EndsAt(g.chain, p) + Ends(g.rest, p)) <==> Even(EndsAt(ring, p) + Ends(segs, p))
    decreases |segs|
  {
    hide EndsAt, Without, Attach, Complete, Even, Ends;
    if !Complete(ring) {
      var i := FirstTouching(segs, End(ring));
      if i < |segs| {
        AttachEnds(ring, segs[i], p);
        EndsWithout(segs, i, p);
        var next, rest := Attach(ring, segs[i]), Without(segs, i);
        GrowEnds(next, rest, p);
        EvenSum(EndsAt(next, p), Ends(rest, p));
        EvenSum(EndsAt(ring, p) + EndsAt(segs[i], p), Ends(rest, p));
      }
    }
  }

  predicate ClosesItself(chain: seq<Coord>) { chain != [] && chain[0] == End(chain) }

  lemma ClosedEven(chain: seq<Coord>, p: Coord)
    requires chain != []
    ensures ClosesItself(chain) ==> Even(EndsAt(chain, p))
    ensures !ClosesItself(chain) ==> !Even(EndsAt(chain, End(chain)))
  {}

  ghost predicate AllEven(segs: seq<Segment>) { forall p :: Even(Ends(segs, p)) }

  ghost predicate AllClose(chains: seq<Chain>) { forall c :: c in chains ==> ClosesItself(c.points) }

  lemma {:induction false} SomeEnd(segs: seq<Segment>, p: Coord)
    requires !Even(Ends(segs, p))
    ensures exists s :: s in segs && Touches(s, p)
  {
    if segs != [] {
      if Touches(segs[0], p) {
        assert segs[0] in segs;
      } else {
        SomeEnd(segs[1..], p);
        var s :| s in segs[1..] && Touches(s, p);
        assert s in segs;
      }
    }
  }

  lemma StepParity(segs: seq<Segment>, g: Grown, p: Coord)
    requires segs != [] && segs[0] != [] && g == Grow(segs[0], segs[1..])
    ensures Even(Ends(segs, p)) <==> (Even(EndsAt(g.chain, p)) <==> Even(Ends(g.rest, p)))
  {
    hide Grow, EndsAt, Ends, Even;
    GrowEnds(segs[0], segs[1..], p);
    FirstEnds(segs, p);
    EvenSum(EndsAt(g.chain, p), Ends(g.rest, p));
  }

  /** All ends are even exactly when the first chain closes and the leftovers' ends are even. */
  lemma StepEven(segs: seq<Segment>, g: Grown)
    requires segs != [] && segs[0] != [] && g == Grow(segs[0], segs[1..]) && g.chain != []
    ensures AllEven(segs) <==> ClosesItself(g.chain) && AllEven(g.rest)
  {
    hide Grow, EndsAt, Ends, Even, ClosesItself;
    if ClosesItself(g.chain) {
      forall p ensures Even(Ends(segs, p)) <==> Even(Ends(g.rest, p)) {
        StepParity(segs, g, p);
        ClosedEven(g.chain, p);
      }
    } else {
      var e := End(g.chain);
      StepParity(segs, g, e);
      OpenLeavesOdd(segs[0], segs[1..], g);
      EvenSum(EndsAt(g.chain, e), Ends(g.rest, e));
      assert !Even(Ends(segs, e));
    }
  }

  /**
   Every chain closes by itself exactly when every point is an end of an even number of
   segment ends: a condition on the segments alone, whatever their order and direction.
   */
  lemma {:induction false} AllCloseIff(segs: seq<Segment>)
    requires AllNonEmpty(segs)
    ensures AllClose(Chains(segs)) <==> AllEven(segs)
    decreases |segs|
  {
    hide Grow, AllNonEmpty, AllEven, ClosesItself;
    if segs == [] {
      NoEnds();
    } else {
      HeadNonEmpty(segs);
      GrowUses(segs[0], segs[1..]);
      GrowEdges(segs[0], segs[1..]);
      var g := Grow(segs[0], segs[1..]);
      var c := Chain(g.chain, [segs[0]] + g.used);
      assert Chains(segs) == [c] + Chains(g.rest);
      AllCloseIff(g.rest);
      StepEven(segs, g);
      FirstCloses(c, Chains(g.rest));
    }
  }

  lemma FirstCloses(c: Chain, rest: seq<Chain>)
    ensures AllClose([c] + rest) <==> ClosesItself(c.points) && AllClose(rest)
  {
    hide ClosesItself;
    assert c in [c] + rest && forall d :: d in rest ==> d in [c] + rest;
  }

  lemma NoEnds()
    ensures AllEven([])
  {}

  lemma FirstEnds(segs: seq<Segment>, p: Coord)
    requires segs != []
    ensures Ends(segs, p) == EndsAt(segs[0], p) + Ends(segs[1..], p)
  {}

  /** A chain stuck open has an odd end in what was offered: nothing left touches it. */
  lemma OpenLeavesOdd(first: Segment, segs: seq<Segment>, g: Grown)
    requires first != [] && g == Grow(first, segs) && g.chain != [] && !ClosesItself(g.chain)
    ensures !Even(EndsAt(g.chain, End(g.chain)) + Ends(g.rest, End(g.chain)))
  {
    hide Grow, EndsAt, Ends, Touches, Even;
    var e := End(g.chain);
    GrowMaximal(first, segs);
    ClosedEven(g.chain, e);
    EvenSum(EndsAt(g.chain, e), Ends(g.rest, e));
    if !Even(Ends(g.rest, e)) {
      SomeEnd(g.rest, e);
      OpenIncomplete(g.chain);
      assert false;
    }
  }

  lemma OpenIncomplete(chain: seq<Coord>)
    requires !ClosesItself(chain)
    ensures !Complete(chain)
  {}

  // ---------------------------------------------------------------- the documented drop rule

  /** A chain's ring adds no edge: it is dropped, or it closed by itself. */
  predicate AddsNothing(chain: seq<Coord>) {
    Emitted(chain) == [] || Emitted(chain) == [chain]
  }

  /** The header's promise for a list of segments: what never closes is dropped. */
  ghost predicate DropPromise(segs: seq<Segment>)
    requires AllNonEmpty(segs)
  {
    forall c :: c in Chains(segs) ==> AddsNothing(c.points)
  }

  lemma DropPromiseIff(chain: seq<Coord>)
    requires chain != []
    ensures AddsNothing(chain) <==> ClosesItself(chain) || |chain| < 3
  {
    if chain[0] != End(chain) { assert |Closed(chain)| == |chain| + 1; }
  }

  /** A straight piece: two different points. */
  predicate TwoPoints(seg: Segment) { |seg| == 2 && seg[0] != seg[1] }

  lemma {:induction false} GrownParts(ring: seq<Coord>, segs: seq<Segment>)
    requires ring != []
    ensures var g := Grow(ring, segs);
      && |ring| <= |g.chain|
      && (forall s :: s in g.used ==> |s| <= |g.chain|)
      && ((forall s :: s in g.used ==> ClosesItself(s)) ==> End(g.chain) == End(ring))
    decreases |segs|
  {
    hide Without, Complete;
    if !Complete(ring) {
      var i := FirstTouching(segs, End(ring));
      if i < |segs| {
        var next := Attach(ring, segs[i]);
        var h := Grow(next, Without(segs, i));
        GrownParts(next, Without(segs, i));
        assert |segs[i]| <= |next|;
        if forall s :: s in [segs[i]] + h.used ==> ClosesItself(s) {
          assert segs[i] in [segs[i]] + h.used && forall s :: s in h.used ==> s in [segs[i]] + h.used;
          ClosedAttach(ring, segs[i]);
        }
      }
    }
  }

  lemma ClosedAttach(ring: seq<Coord>, seg: Segment)
    requires ring != [] && Touches(seg, End(ring)) && ClosesItself(seg)
    ensures End(Attach(ring, seg)) == End(ring)
  {
    if |seg| == 1 { assert Attach(ring, seg) == ring; }
  }

  /** A short chain that stays open holds a straight piece of the input, with its ends. */
  lemma {:induction false} ShortChain(segs: seq<Segment>, c: Chain)
    requires AllNonEmpty(segs) && c in Chains(segs) && !ClosesItself(c.points) && |c.points| < 3
    ensures exists s :: s in segs && TwoPoints(s)
    decreases |segs|
  {
    hide Grow, AllNonEmpty, TwoPoints, ClosesItself;
    HeadNonEmpty(segs);
    GrowUses(segs[0], segs[1..]);
    var g := Grow(segs[0], segs[1..]);
    assert Chains(segs) == [Chain(g.chain, [segs[0]] + g.used)] + Chains(g.rest);
    if c in Chains(g.rest) {
      ShortChain(g.rest, c);
      var s :| s in g.rest && TwoPoints(s);
      FromTail(segs, g.used, g.rest, s);
    } else {
      ShortHead(segs, g);
    }
  }

  lemma FromTail(segs: seq<Segment>, used: seq<Segment>, rest: seq<Segment>, s: Segment)
    requires segs != [] && multiset(segs[1..]) == multiset(used) + multiset(rest)
    requires s in used || s in rest
    ensures s in segs
  {
    assert s in multiset(used) || s in multiset(rest);
    assert s in multiset(segs[1..]);
  }

  lemma ShortHead(segs: seq<Segment>, g: Grown)
    requires AllNonEmpty(segs) && segs != [] && segs[0] != [] && g == Grow(segs[0], segs[1..])
    requires !ClosesItself(g.chain) && |g.chain| < 3
    ensures exists s :: s in segs && TwoPoints(s)
  {
    hide Grow, AllNonEmpty, TwoPoints;
    GrowUses(segs[0], segs[1..]);
    GrowEdges(segs[0], segs[1..]);
    GrownParts(segs[0], segs[1..]);
    var s := OpenPart(segs[0], g);
    if s != segs[0] { FromTail(segs, g.used, g.rest, s); }
    GrowsUsedNonEmpty(segs, g, s);
  }

  lemma GrowsUsedNonEmpty(segs: seq<Segment>, g: Grown, s: Segment)
    requires AllNonEmpty(segs) && s in segs && !ClosesItself(s) && |s| < 3
    ensures TwoPoints(s)
  {
    var i :| 0 <= i < |segs| && segs[i] == s;
    assert segs[i] != [];
  }

  lemma OpenPart(first: Segment, g: Grown) returns (s: Segment)
    requires first != [] && g.chain != [] && !ClosesItself(g.chain) && g.chain[0] == first[0] && |g.chain| < 3
    requires |first| <= |g.chain| && forall t :: t in g.used ==> |t| <= |g.chain|
    requires (forall t :: t in g.used ==> ClosesItself(t)) ==> End(g.chain) == End(first)
    ensures s in [first] + g.used && !ClosesItself(s) && |s| < 3
  {
    if !ClosesItself(first) {
      s := first;
    } else {
      s :| s in g.used && !ClosesItself(s);
    }
  }

  /**
   Exactly when no ring gets an edge the input does not have, for segments without straight
   two-point pieces: every point is an end of an even number of segment ends. Even ends are
   enough for any segments.
   */
  lemma NoEdgeAddedIff(segs: seq<Segment>)
    requires AllNonEmpty(segs)
    ensures AllEven(segs) ==> DropPromise(segs)
    ensures (forall s :: s in segs ==> !TwoPoints(s)) ==> (DropPromise(segs) <==> AllEven(segs))
    ensures DropPromise(segs) && !AllEven(segs) ==> exists s :: s in segs && TwoPoints(s)
  {
    hide Chains, AllEven, AddsNothing, ClosesItself, AllNonEmpty, TwoPoints;
    AllCloseIff(segs);
    ChainsFaithful(segs);
    forall c | c in Chains(segs)
      ensures c.points != [] && (AddsNothing(c.points) <==> ClosesItself(c.points) || |c.points| < 3)
    {
      assert Faithful(c);
      DropPromiseIff(c.points);
    }
    if DropPromise(segs) && !AllEven(segs) {
      var c :| c in Chains(segs) && !ClosesItself(c.points);
      ShortChain(segs, c);
    }
  }

  /** Order matters for what is dropped: the same two pieces, two ways round. */
  lemma OrderMatters(a: Coord, b: Coord, c: Coord)
    requires a != b && b != c && a != c
    ensures AllNonEmpty([[a, b], [b, c]]) && Rings(Chains([[a, b], [b, c]])) == [[a, b, c, a]]
    ensures AllNonEmpty([[b, c], [a, b]]) && Rings(Chains([[b, c], [a, b]])) == []
  {
    OpenChainEmitted(a, b, c);
    var segs := [[b, c], [a, b]];
    var rest := segs[1..];
    assert rest == [[a, b]];
    assert AllNonEmpty(segs) && AllNonEmpty(rest);
    assert rest[1..] == [];
    assert !Touches(rest[0], End([b, c]));
    assert FirstTouching(rest, End([b, c])) == 1;
    assert Grow([b, c], rest) == Grown([b, c], [], rest);
    assert Grow([a, b], []) == Grown([a, b], [], []);
    assert rest[0] == [a, b];
    var later := Chains(rest);
    assert |later| == 1 && later[0].points == [a, b] && later[1..] == [];
    assert Emitted([a, b]) == [] && Emitted([b, c]) == [];
    var c0 := Chains(segs);
    assert |c0| == 2 && c0[0].points == [b, c] && c0[1..] == later;
    assert Rings(later) == [];
  }

  /** Two touching segments that never close are emitted as a ring. */
  lemma OpenChainEmitted(a: Coord, b: Coord, c: Coord)
    requires a != b && b != c && a != c
    ensures AllNonEmpty([[a, b], [b, c]]) && Rings(Chains([[a, b], [b, c]])) == [[a, b, c, a]]
  {
    hide Grow, Closed, Touches;
    var segs, ring := [[a, b], [b, c]], [a, b, c];
    assert segs[0] == [a, b] && segs[1..] == [[b, c]];
    assert AllNonEmpty(segs);
    JoinTwo(a, b, c);
    ChainsStep(segs);
    assert Chains([]) == [] && Rings([]) == [];
    RingOfThree(a, b, c);
  }

  lemma JoinTwo(a: Coord, b: Coord, c: Coord)
    requires a != b && b != c && a != c
    ensures Grow([a, b], [[b, c]]).chain == [a, b, c] && Grow([a, b], [[b, c]]).rest == []
  {
    var rest := [[b, c]];
    assert Touches(rest[0], End([a, b]));
    assert Attach([a, b], rest[0]) == [a, b, c];
    assert Without(rest, 0) == [];
    assert Grow([a, b, c], []) == Grown([a, b, c], [], []);
  }

  lemma RingOfThree(a: Coord, b: Coord, c: Coord)
    requires a != b && b != c && a != c
    ensures Emitted([a, b, c]) == [[a, b, c, a]]
  {
    assert Closed([a, b, c]) == [a, b, c, a];
  }
}
