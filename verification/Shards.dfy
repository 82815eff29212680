/**
 Shard files and their merge (src/OSMMMap.cpp `insert`, `merge`; src/main.cpp round-robin).
 The decompressor delivers a shard's bytes in arbitrary pieces; a 24-byte record may be
 split over any number of them.
 */
module Shards {
  import opened Core
  import opened Wire
  import opened NodeStore

  const RECORD := 24

  predicate Int64(id: int) { -0x8000_0000_0000_0000 <= id < 0x8000_0000_0000_0000 }

  function EncodeRec(r: Rec): (b: seq<Byte>)
    requires Int64(r.id)
    ensures |b| == RECORD
  {
    Widths();
    LE(Unsigned(r.id, 8), 8) + LE(r.at.x, 8) + LE(r.at.y, 8)
  }

  function DecodeRec(b: seq<Byte>): (r: Rec)
    requires |b| == RECORD
    ensures Int64(r.id)
  {
    Widths();
    LEBytes(b[..8]);
    LEBytes(b[8..16]);
    LEBytes(b[16..]);
    Rec(Signed(FromLE(b[..8]), 8), Coord(FromLE(b[8..16]), FromLE(b[16..])))
  }

  lemma RecRoundTrip(r: Rec)
    requires Int64(r.id)
    ensures DecodeRec(EncodeRec(r)) == r
  {
    Widths();
    var b := EncodeRec(r);
    assert b[..8] == LE(Unsigned(r.id, 8), 8);
    assert b[8..16] == LE(r.at.x, 8);
    assert b[16..] == LE(r.at.y, 8);
    SignedRoundTrip(r.id, 8);
    LERoundTrip(Unsigned(r.id, 8), 8);
    LERoundTrip(r.at.x, 8);
    LERoundTrip(r.at.y, 8);
  }

  /** All whole records of a byte stream; a partial one at the end is ignored. */
  function ParseRecs(b: seq<Byte>): seq<Rec>
    decreases |b|
  {
    if |b| < RECORD then [] else [DecodeRec(b[..RECORD])] + ParseRecs(b[RECORD..])
  }

  function EncodeAll(recs: seq<Rec>): (b: seq<Byte>)
    requires forall i :: 0 <= i < |recs| ==> Int64(recs[i].id)
  {
    if recs == [] then [] else EncodeRec(recs[0]) + EncodeAll(recs[1..])
  }

  lemma {:induction false} ParseEncoded(recs: seq<Rec>)
    requires forall i :: 0 <= i < |recs| ==> Int64(recs[i].id)
    ensures ParseRecs(EncodeAll(recs)) == recs
  {
    hide DecodeRec, EncodeRec;
    if recs != [] {
      var b := EncodeAll(recs);
      assert b[..RECORD] == EncodeRec(recs[0]);
      assert b[RECORD..] == EncodeAll(recs[1..]);
      RecRoundTrip(recs[0]);
      ParseEncoded(recs[1..]);
    }
  }

  lemma {:induction false} ParseAppend(a: seq<Byte>, b: seq<Byte>)
    requires |a| % RECORD == 0
    ensures ParseRecs(a + b) == ParseRecs(a) + ParseRecs(b)
    decreases |a|
  {
    hide DecodeRec;
    if |a| == 0 {
      assert a + b == b;
    } else {
      assert (a + b)[..RECORD] == a[..RECORD];
      assert (a + b)[RECORD..] == a[RECORD..] + b;
      ParseAppend(a[RECORD..], b);
    }
  }

  lemma ParseOne(b: seq<Byte>)
    requires |b| == RECORD
    ensures ParseRecs(b) == [DecodeRec(b)]
  {
    assert b[..RECORD] == b;
    assert ParseRecs(b[RECORD..]) == [];
  }

  /** The whole records at the front of a piece. */
  method TakeFull(piece: seq<Byte>) returns (recs: seq<Rec>, rest: seq<Byte>)
    ensures |rest| < RECORD
    ensures |piece| >= |rest| && piece[|piece| - |rest|..] == rest && (|piece| - |rest|) % RECORD == 0
    ensures recs == ParseRecs(piece[..|piece| - |rest|])
  {
    hide DecodeRec;
    recs := [];
    var p := 0;
    while |piece| - p >= RECORD
      invariant 0 <= p <= |piece| && p % RECORD == 0
      invariant recs == ParseRecs(piece[..p])
    {
      var here := piece[p..p + RECORD];
      ParseAppend(piece[..p], here);
      ParseOne(here);
      assert piece[..p] + here == piece[..p + RECORD];
      recs := recs + [DecodeRec(here)];
      p := p + RECORD;
    }
    rest := piece[p..];
    assert |piece| - |rest| == p;
  }

  /** Where the first record ends and the rest begins, when a piece completes the carried bytes. */
  lemma PieceCut(partial: seq<Byte>, piece: seq<Byte>, need: nat, kept: nat)
    requires need <= |piece| && kept <= |piece| - need
    ensures var all, tail := partial + piece, piece[need..];
      && all[..|all| - kept] == (partial + piece[..need]) + tail[..|tail| - kept]
      && all[|all| - kept..] == tail[|tail| - kept..]
  {}

  /** One decompressed piece, with the bytes carried over from the pieces before it. */
  method ProcessPiece(partial: seq<Byte>, piece: seq<Byte>) returns (recs: seq<Rec>, carried: seq<Byte>)
    requires |partial| < RECORD
    ensures |carried| < RECORD
    ensures var whole := |partial + piece| - |carried|;
            && whole >= 0 && whole % RECORD == 0
            && (partial + piece)[whole..] == carried
            && recs == ParseRecs((partial + piece)[..whole])
  {
    hide DecodeRec, ParseRecs;
    if |partial| == 0 {
      recs, carried := TakeFull(piece);
      assert partial + piece == piece;
    } else {
      var need := RECORD - |partial|;
      if |piece| < need {
        recs, carried := [], partial + piece;
        NothingParsed();
        assert (partial + piece)[..0] == [];
      } else {
        var first, tail := partial + piece[..need], piece[need..];
        var more;
        more, carried := TakeFull(tail);
        ParseOne(first);
        ParseAppend(first, tail[..|tail| - |carried|]);
        PieceCut(partial, piece, need, |carried|);
        recs := [DecodeRec(first)] + more;
      }
    }
  }

  lemma FlattenNothing(pieces: seq<seq<Byte>>)
    ensures Flatten(pieces[..0]) == []
  {}

  lemma NothingParsed()
    ensures ParseRecs([]) == []
  {}

  /** Carry logic: however the bytes are split, exactly the whole records come out, in order. */
  method DecodeShard(pieces: seq<seq<Byte>>) returns (recs: seq<Rec>)
    ensures recs == ParseRecs(Flatten(pieces))
  {
    hide DecodeRec, ParseRecs, Flatten;
    recs := [];
    var carried: seq<Byte> := [];
    ghost var full: seq<Byte> := [];
    NothingParsed();
    assert Flatten(pieces[..0]) == [] by { FlattenNothing(pieces); }
    for i := 0 to |pieces|
      invariant |carried| < RECORD && |full| % RECORD == 0
      invariant Flatten(pieces[..i]) == full + carried
      invariant recs == ParseRecs(full)
    {
      FlattenSnoc(pieces[..i], pieces[i]);
      assert pieces[..i + 1] == pieces[..i] + [pieces[i]];
      var here, next := ProcessPiece(carried, pieces[i]);
      ghost var whole := PieceDone(full, carried, pieces[i], next);
      recs := recs + here;
      full := full + whole;
      carried := next;
    }
    assert pieces[..|pieces|] == pieces;
    ParseAppend(full, carried);
    TailIgnored(carried);
  }

  /** The whole records of one piece extend the whole records so far. */
  lemma PieceDone(full: seq<Byte>, carried: seq<Byte>, piece: seq<Byte>, next: seq<Byte>) returns (whole: seq<Byte>)
    requires |full| % RECORD == 0 && |carried| < RECORD && |next| < RECORD
    requires |carried + piece| >= |next| && (|carried + piece| - |next|) % RECORD == 0
    requires (carried + piece)[|carried + piece| - |next|..] == next
    ensures whole == (carried + piece)[..|carried + piece| - |next|]
    ensures full + carried + piece == (full + whole) + next
    ensures |full + whole| % RECORD == 0
    ensures ParseRecs(full + whole) == ParseRecs(full) + ParseRecs(whole)
  {
    hide ParseRecs;
    var both := carried + piece;
    whole := both[..|both| - |next|];
    ParseAppend(full, whole);
    assert both == whole + next;
    assert full + carried + piece == full + both;
  }

  lemma TailIgnored(b: seq<Byte>)
    requires |b| < RECORD
    ensures ParseRecs(b) == []
  {}

  /** What was inserted into a shard is what its merge recovers. */
  method RecoverInserted(inserted: seq<Rec>, pieces: seq<seq<Byte>>) returns (recs: seq<Rec>)
    requires forall i :: 0 <= i < |inserted| ==> Int64(inserted[i].id)
    requires Flatten(pieces) == EncodeAll(inserted)
    ensures recs == inserted
  {
    recs := DecodeShard(pieces);
    ParseEncoded(inserted);
  }

  // ---------------------------------------------------------------- writing the merged file

  predicate Plain(r: Rec) { r.id < SLOT_LIMIT - 1 }

  /** `writeToMerged`: no growth here; negative ids and ids past the file are dropped. */
  function WriteRec(s: Store, r: Rec): Store
    requires Plain(r)
  {
    if r.id < 0 || r.id >= |s.cells| then s
    else s.(cells := s.cells[r.id := r.at], bitmap := BitSet(s.bitmap, r.id))
  }

  function MergeAll(s: Store, recs: seq<Rec>): Store
    requires forall r :: r in recs ==> Plain(r)
  {
    if recs == [] then s else WriteRec(MergeAll(s, recs[..|recs| - 1]), recs[|recs| - 1])
  }

  /** The last record for an id, in order. */
  function LastOf(recs: seq<Rec>, id: int): Option<Coord> {
    if recs == [] then None
    else if recs[|recs| - 1].id == id then Some(recs[|recs| - 1].at)
    else LastOf(recs[..|recs| - 1], id)
  }

  lemma WriteRecEffect(s: Store, r: Rec, j: int)
    requires Valid(s) && Coverage(s) && Plain(r)
    ensures Valid(WriteRec(s, r)) && Coverage(WriteRec(s, r)) && WriteRec(s, r).size == s.size
    ensures Select(WriteRec(s, r), j) == if j == r.id && 0 <= j < Capacity(s) then Some(r.at) else Select(s, j)
  {
    hide BitsCovered, Select, BitSet, BitGet;
    if 0 <= r.id < |s.cells| {
      assert Slot(r.id) == r.id;
      WriteAt(s, r.id, r.at, true, j);
    }
  }

  /** After the merge `select` returns the last in-capacity record of an id, in shard order. */
  lemma {:induction false} MergeSelects(s: Store, recs: seq<Rec>, id: int)
    requires Valid(s) && Coverage(s) && forall r :: r in recs ==> Plain(r)
    ensures Valid(MergeAll(s, recs)) && Coverage(MergeAll(s, recs)) && MergeAll(s, recs).size == s.size
    ensures Select(MergeAll(s, recs), id) ==
              if 0 <= id < Capacity(s) && LastOf(recs, id).Some? then LastOf(recs, id) else Select(s, id)
  {
    hide Valid, Coverage, Select, WriteRec, Plain;
    if recs != [] {
      var init, last := recs[..|recs| - 1], recs[|recs| - 1];
      MergeSelects(s, init, id);
      WriteRecEffect(MergeAll(s, init), last, id);
    }
  }

  // ---------------------------------------------------------------- number of node threads

  ghost predicate DistinctIds(recs: seq<Rec>) {
    forall i, j :: 0 <= i < j < |recs| ==> recs[i].id != recs[j].id
  }

  lemma {:induction false} LastOfDistinct(recs: seq<Rec>, id: int)
    ensures LastOf(recs, id).Some? ==> Rec(id, LastOf(recs, id).value) in recs
    ensures forall at :: DistinctIds(recs) && Rec(id, at) in recs ==> LastOf(recs, id) == Some(at)
  {
    if recs != [] {
      var init, last := recs[..|recs| - 1], recs[|recs| - 1];
      LastOfDistinct(init, id);
      forall at | DistinctIds(recs) && Rec(id, at) in recs ensures LastOf(recs, id) == Some(at) {
        var i :| 0 <= i < |recs| && recs[i] == Rec(id, at);
        if i < |init| { assert init[i] == Rec(id, at); }
      }
    }
  }

  /** `rr % node_threads` */
  function Turn(rr: nat, n: nat): (t: nat)
    requires n > 0
    ensures t < n
  {
    rr % n
  }

  /** The records node thread `t` of `n` receives: every n-th, starting with the t-th. */
  function Deal(recs: seq<Rec>, n: nat, t: nat): seq<Rec>
    requires n > 0
  {
    if recs == [] then []
    else Deal(recs[..|recs| - 1], n, t) + One(recs[|recs| - 1], Turn(|recs| - 1, n) == t)
  }

  function One(r: Rec, mine: bool): seq<Rec> { if mine then [r] else [] }

  function DealAll(recs: seq<Rec>, n: nat, upTo: nat): seq<Rec>
    requires n > 0
  {
    if upTo == 0 then [] else DealAll(recs, n, upTo - 1) + Deal(recs, n, upTo - 1)
  }

  lemma {:induction false} DealKeeps(recs: seq<Rec>, n: nat, upTo: nat)
    requires n > 0 && recs != []
    ensures multiset(DealAll(recs, n, upTo)) == multiset(DealAll(recs[..|recs| - 1], n, upTo))
              + multiset(One(recs[|recs| - 1], Turn(|recs| - 1, n) < upTo))
  {
    hide Turn, One, Deal, DealAll;
    if upTo == 0 {
      OneNot(recs[|recs| - 1]);
      DealNone(recs, n);
      DealNone(recs[..|recs| - 1], n);
    } else {
      DealKeeps(recs, n, upTo - 1);
      DealStep(recs, n, upTo - 1);
    }
  }

  lemma DealNone(recs: seq<Rec>, n: nat)
    requires n > 0
    ensures DealAll(recs, n, 0) == []
  {}

  lemma DealStep(recs: seq<Rec>, n: nat, k: nat)
    requires n > 0 && recs != []
    requires multiset(DealAll(recs, n, k)) == multiset(DealAll(recs[..|recs| - 1], n, k))
              + multiset(One(recs[|recs| - 1], Turn(|recs| - 1, n) < k))
    ensures multiset(DealAll(recs, n, k + 1)) == multiset(DealAll(recs[..|recs| - 1], n, k + 1))
              + multiset(One(recs[|recs| - 1], Turn(|recs| - 1, n) < k + 1))
  {
    hide Turn, One, Deal;
    var init, last, t := recs[..|recs| - 1], recs[|recs| - 1], Turn(|recs| - 1, n);
    DealSnoc(recs, n, k);
    DealtOne(DealAll(init, n, k), Deal(init, n, k), DealAll(recs, n, k), last, t < k, t == k, t < k + 1);
  }

  lemma OneNot(r: Rec)
    ensures One(r, false) == []
  {}

  lemma DealSnoc(recs: seq<Rec>, n: nat, t: nat)
    requires n > 0 && recs != []
    ensures Deal(recs, n, t) == Deal(recs[..|recs| - 1], n, t) + One(recs[|recs| - 1], Turn(|recs| - 1, n) == t)
  {}

  lemma DealtOne(before: seq<Rec>, mine: seq<Rec>, after: seq<Rec>, r: Rec, earlier: bool, now: bool, either: bool)
    requires !(earlier && now) && either == (earlier || now)
    requires multiset(after) == multiset(before) + multiset(One(r, earlier))
    ensures multiset(after + (mine + One(r, now))) == multiset(before + mine) + multiset(One(r, either))
  {}

  /** Round-robin hands every record to exactly one thread. */
  lemma {:induction false} DealIsPermutation(recs: seq<Rec>, n: nat)
    requires n > 0
    ensures multiset(DealAll(recs, n, n)) == multiset(recs)
  {
    hide Turn, Deal, DealAll;
    if recs == [] {
      DealNothing(n, n);
    } else {
      var init := recs[..|recs| - 1];
      DealKeeps(recs, n, n);
      DealIsPermutation(init, n);
      assert recs == init + [recs[|recs| - 1]];
    }
  }

  lemma {:induction false} DealNothing(n: nat, upTo: nat)
    requires n > 0
    ensures DealAll([], n, upTo) == []
  {
    if upTo > 0 { DealNothing(n, upTo - 1); }
  }

  lemma {:induction false} DistinctFromCounts(recs: seq<Rec>, all: seq<Rec>)
    requires multiset(recs) == multiset(all) && DistinctIds(all)
    ensures DistinctIds(recs)
  {
    forall i, j | 0 <= i < j < |recs| ensures recs[i].id != recs[j].id {
      if recs[i].id == recs[j].id {
        assert recs[i] in multiset(all) && recs[j] in multiset(all);
        assert recs[i] in all && recs[j] in all;
        assert recs[i] == recs[j];
        assert recs == recs[..i] + [recs[i]] + recs[i + 1..j] + [recs[j]] + recs[j + 1..];
        assert multiset(recs)[recs[i]] >= 2;
        CountOne(all, recs[i]);
      }
    }
  }

  lemma {:induction false} CountOne(recs: seq<Rec>, r: Rec)
    requires DistinctIds(recs)
    ensures multiset(recs)[r] <= 1
  {
    if recs != [] {
      var init, last := recs[..|recs| - 1], recs[|recs| - 1];
      CountOne(init, r);
      assert recs == init + [last];
      if last == r { assert r !in init; }
    }
  }

  /** With distinct ids the merged store does not depend on the number of node threads. */
  lemma ThreadCountIrrelevant(s: Store, recs: seq<Rec>, m: nat, n: nat, id: int)
    requires Valid(s) && Coverage(s) && DistinctIds(recs) && forall r :: r in recs ==> Plain(r)
    requires m > 0 && n > 0
    ensures (forall r :: r in DealAll(recs, m, m) ==> Plain(r)) && (forall r :: r in DealAll(recs, n, n) ==> Plain(r))
    ensures Valid(MergeAll(s, DealAll(recs, m, m))) && Valid(MergeAll(s, DealAll(recs, n, n)))
    ensures Select(MergeAll(s, DealAll(recs, m, m)), id) == Select(MergeAll(s, DealAll(recs, n, n)), id)
  {
    hide Valid, Coverage, Select, Deal, DealAll, Plain, MergeAll, LastOf, DistinctIds;
    var a, b := DealAll(recs, m, m), DealAll(recs, n, n);
    DealIsPermutation(recs, m);
    DealIsPermutation(recs, n);
    SameMembers(a, recs);
    SameMembers(b, recs);
    DistinctFromCounts(a, recs);
    DistinctFromCounts(b, recs);
    MergeSelects(s, a, id);
    MergeSelects(s, b, id);
    LastOfDistinct(a, id);
    LastOfDistinct(b, id);
    if LastOf(a, id).Some? { assert Rec(id, LastOf(a, id).value) in b; }
    if LastOf(b, id).Some? { assert Rec(id, LastOf(b, id).value) in a; }
  }

  lemma SameMembers(a: seq<Rec>, b: seq<Rec>)
    requires multiset(a) == multiset(b)
    ensures forall r :: r in a <==> r in b
  {
    forall r ensures r in a <==> r in b { assert r in multiset(a) <==> r in multiset(b); }
  }
}
