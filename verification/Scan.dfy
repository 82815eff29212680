/** Ranged scans over the populated ids (src/OSMMMap.cpp, `forEachPopulatedRange`, `highestPopulatedId`). */
module Scan {
  import opened Core
  import opened Bits
  import opened NodeStore

  /** The populated records with ids in [lo, hi), ascending. */
  function Populated(s: Store, lo: nat, hi: nat): seq<Rec>
    requires Valid(s)
    decreases hi
  {
    if hi <= lo then []
    else Populated(s, lo, hi - 1) + RecordAt(s, hi - 1)
  }

  function RecordAt(s: Store, id: nat): seq<Rec>
    requires Valid(s)
  {
    match Select(s, id) case Some(at) => [Rec(id, at)] case None => []
  }

  ghost predicate Ascending(recs: seq<Rec>) {
    forall i, j :: 0 <= i < j < |recs| ==> recs[i].id < recs[j].id
  }

  lemma {:induction false} PopulatedSplit(s: Store, lo: nat, mid: nat, hi: nat)
    requires Valid(s) && lo <= mid <= hi
    ensures Populated(s, lo, hi) == Populated(s, lo, mid) + Populated(s, mid, hi)
    decreases hi
  {
    hide Valid, Select, RecordAt;
    if mid < hi {
      PopulatedSplit(s, lo, mid, hi - 1);
      assert Populated(s, lo, mid) + (Populated(s, mid, hi - 1) + RecordAt(s, hi - 1))
          == (Populated(s, lo, mid) + Populated(s, mid, hi - 1)) + RecordAt(s, hi - 1);
    }
  }

  lemma {:induction false} PopulatedNone(s: Store, lo: nat, hi: nat)
    requires Valid(s) && forall id :: lo <= id < hi ==> !BitGet(s.bitmap, id)
    ensures Populated(s, lo, hi) == []
    decreases hi
  {
    hide Valid, BitGet;
    if lo < hi {
      PopulatedNone(s, lo, hi - 1);
      SelectPlain(s, hi - 1);
    }
  }

  lemma RecordHas(s: Store, id: nat, r: Rec)
    requires Valid(s)
    ensures r in RecordAt(s, id) <==> r.id == id && Select(s, id) == Some(r.at)
  {
    hide Valid, Select;
    if Select(s, id).Some? { assert RecordAt(s, id)[0] == Rec(id, Select(s, id).value); }
  }

  lemma {:induction false} PopulatedHas(s: Store, lo: nat, hi: nat, r: Rec)
    requires Valid(s)
    ensures r in Populated(s, lo, hi) <==> lo <= r.id < hi && Select(s, r.id) == Some(r.at)
    decreases hi
  {
    hide Valid, Select, RecordAt;
    if lo < hi {
      PopulatedHas(s, lo, hi - 1, r);
      RecordHas(s, hi - 1, r);
    }
  }

  lemma AscendingSnoc(init: seq<Rec>, last: seq<Rec>, bound: int)
    requires Ascending(init) && |last| <= 1
    requires (forall r :: r in init ==> r.id < bound) && (forall r :: r in last ==> r.id == bound)
    ensures Ascending(init + last)
  {
    var all := init + last;
    forall i, j | 0 <= i < j < |all| ensures all[i].id < all[j].id {
      assert all[i] in init;
      if j == |init| { assert all[j] in last; }
    }
  }

  /** The scan is strictly ascending and holds exactly the populated ids of its range. */
  lemma {:induction false} PopulatedExact(s: Store, lo: nat, hi: nat)
    requires Valid(s)
    ensures Ascending(Populated(s, lo, hi))
    ensures forall r: Rec :: r in Populated(s, lo, hi) <==> lo <= r.id < hi && Select(s, r.id) == Some(r.at)
    decreases hi
  {
    hide Valid, Select, Ascending;
    forall r: Rec ensures r in Populated(s, lo, hi) <==> lo <= r.id < hi && Select(s, r.id) == Some(r.at) {
      PopulatedHas(s, lo, hi, r);
    }
    if lo < hi {
      PopulatedExact(s, lo, hi - 1);
      AscendingSnoc(Populated(s, lo, hi - 1), RecordAt(s, hi - 1), hi - 1);
    } else {
      NoneAscending();
    }
  }

  lemma NoneAscending()
    ensures Ascending([])
  {}

  /** Nothing is populated at or above the bitmap's end, nor above the highest set bit. */
  lemma PopulatedBound(s: Store, lo: nat, bound: nat, hi: nat)
    requires Valid(s) && lo <= bound <= hi
    requires forall id :: BitGet(s.bitmap, id) ==> id < bound
    ensures Populated(s, lo, hi) == Populated(s, lo, bound)
  {
    hide Valid, BitGet;
    PopulatedSplit(s, lo, bound, hi);
    PopulatedNone(s, bound, hi);
  }
}
