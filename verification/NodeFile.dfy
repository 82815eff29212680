/**
 The regional node file (src/RegionalNodeMap.cpp): records sorted by id, found by binary
 search and combined by a streaming merge; and the install step that merges one region's
 file into the installed one (src/regional_install.cpp).
 */
module NodeFile {
  import opened Core
  import opened Scan

  /** The coordinate of an id: the first record that carries it. */
  function Lookup(recs: seq<Rec>, id: int): Option<Coord> {
    if recs == [] then None
    else if recs[0].id == id then Some(recs[0].at)
    else Lookup(recs[1..], id)
  }

  lemma {:induction false} LookupAt(recs: seq<Rec>, i: nat)
    requires Ascending(recs) && i < |recs|
    ensures Lookup(recs, recs[i].id) == Some(recs[i].at)
  {
    if i > 0 { LookupAt(recs[1..], i - 1); }
  }

  lemma {:induction false} LookupNone(recs: seq<Rec>, id: int)
    requires forall i :: 0 <= i < |recs| ==> recs[i].id != id
    ensures Lookup(recs, id) == None
  {
    if recs != [] { LookupNone(recs[1..], id); }
  }

  lemma {:induction false} LookupFinds(recs: seq<Rec>, id: int) returns (i: nat)
    requires Lookup(recs, id).Some?
    ensures i < |recs| && recs[i] == Rec(id, Lookup(recs, id).value)
  {
    if recs[0].id == id { i := 0; } else { i := LookupFinds(recs[1..], id); i := i + 1; }
  }

  /** Binary search for the first record not below `id`. */
  method Select(recs: seq<Rec>, id: int) returns (at: Option<Coord>)
    requires Ascending(recs)
    ensures at == Lookup(recs, id)
  {
    var lo, hi := 0, |recs|;
    while lo < hi
      invariant 0 <= lo <= hi <= |recs|
      invariant forall i :: 0 <= i < lo ==> recs[i].id < id
      invariant forall i :: hi <= i < |recs| ==> id <= recs[i].id
    {
      var mid := lo + (hi - lo) / 2;
      if recs[mid].id < id { lo := mid + 1; } else { hi := mid; }
    }
    if lo >= |recs| || recs[lo].id != id {
      LookupNone(recs, id);
      return None;
    }
    LookupAt(recs, lo);
    return Some(recs[lo].at);
  }

  // ---------------------------------------------------------------- merge

  /** What the merge loop writes; on equal ids the record of `a` is kept. */
  function Merged(a: seq<Rec>, b: seq<Rec>): seq<Rec>
    decreases |a| + |b|
  {
    if a == [] then b
    else if b == [] then a
    else if a[0].id < b[0].id then [a[0]] + Merged(a[1..], b)
    else if b[0].id < a[0].id then [b[0]] + Merged(a, b[1..])
    else [a[0]] + Merged(a[1..], b[1..])
  }

  class Writer {
    var records: seq<Rec>
    var count: nat

    constructor ()
      ensures records == [] && count == 0
    {
      records, count := [], 0;
    }

    method Append(r: Rec)
      modifies this
      ensures records == old(records) + [r] && count == old(count) + 1
    {
      records := records + [r];
      count := count + 1;
    }
  }

  lemma MergedStep(a: seq<Rec>, i: nat, b: seq<Rec>, j: nat)
    requires i < |a| && j < |b|
    ensures var first := if b[j].id < a[i].id then b[j] else a[i];
            Merged(a[i..], b[j..]) == [first] + Merged(a[if b[j].id < a[i].id then i else i + 1..],
                                                       b[if a[i].id < b[j].id then j else j + 1..])
  {
    assert a[i..][1..] == a[i + 1..];
    assert b[j..][1..] == b[j + 1..];
  }

  method Merge(a: seq<Rec>, b: seq<Rec>) returns (w: Writer)
    ensures w.records == Merged(a, b) && w.count == |w.records|
    ensures fresh(w)
  {
    hide Merged;
    w := new Writer();
    var i, j := 0, 0;
    ghost var all := Merged(a, b);
    assert a[0..] == a && b[0..] == b;
    while i < |a| && j < |b|
      invariant 0 <= i <= |a| && 0 <= j <= |b| && fresh(w)
      invariant w.records + Merged(a[i..], b[j..]) == all && w.count == |w.records|
      decreases |a| - i + |b| - j
    {
      MergedStep(a, i, b, j);
      if a[i].id < b[j].id {
        w.Append(a[i]);
        i := i + 1;
      } else if b[j].id < a[i].id {
        w.Append(b[j]);
        j := j + 1;
      } else {
        w.Append(a[i]);
        i := i + 1;
        j := j + 1;
      }
    }
    MergedTail(a[i..], b[j..]);
    while i < |a|
      invariant 0 <= i <= |a| && fresh(w)
      invariant w.records + a[i..] + b[j..] == all && w.count == |w.records|
    {
      assert a[i..] == [a[i]] + a[i + 1..];
      w.Append(a[i]);
      i := i + 1;
    }
    while j < |b|
      invariant 0 <= j <= |b| && fresh(w)
      invariant w.records + b[j..] == all && w.count == |w.records|
    {
      assert b[j..] == [b[j]] + b[j + 1..];
      w.Append(b[j]);
      j := j + 1;
    }
  }

  lemma MergedTail(a: seq<Rec>, b: seq<Rec>)
    requires a == [] || b == []
    ensures Merged(a, b) == a + b
  {}

  lemma TailAscending(recs: seq<Rec>)
    requires Ascending(recs) && recs != []
    ensures Ascending(recs[1..])
    ensures forall r :: r in recs[1..] ==> recs[0].id < r.id
  {}

  lemma {:induction false} MergedMembers(a: seq<Rec>, b: seq<Rec>, r: Rec)
    ensures r in Merged(a, b) ==> r in a || r in b
    decreases |a| + |b|
  {
    if a != [] && b != [] {
      if a[0].id < b[0].id { MergedMembers(a[1..], b, r); }
      else if b[0].id < a[0].id { MergedMembers(a, b[1..], r); }
      else { MergedMembers(a[1..], b[1..], r); }
    }
  }

  /** The merge of two strictly ascending files is strictly ascending. */
  lemma {:induction false} MergedAscending(a: seq<Rec>, b: seq<Rec>)
    requires Ascending(a) && Ascending(b)
    ensures Ascending(Merged(a, b))
    decreases |a| + |b|
  {
    hide Ascending;
    if a != [] && b != [] {
      TailAscending(a);
      TailAscending(b);
      if a[0].id < b[0].id { MergedAscending(a[1..], b); FrontAscending(a[0], a[1..], b); }
      else if b[0].id < a[0].id { MergedAscending(a, b[1..]); FrontAscending(b[0], a, b[1..]); }
      else { MergedAscending(a[1..], b[1..]); FrontAscending(a[0], a[1..], b[1..]); }
    }
  }

  lemma FrontAscending(first: Rec, a: seq<Rec>, b: seq<Rec>)
    requires Ascending(Merged(a, b)) && Ascending(a) && Ascending(b)
    requires (a != [] ==> first.id < a[0].id) && (b != [] ==> first.id < b[0].id)
    ensures Ascending([first] + Merged(a, b))
  {
    hide Merged;
    var m := Merged(a, b);
    var all := [first] + m;
    forall i, j | 0 <= i < j < |all| ensures all[i].id < all[j].id {
      if i == 0 {
        assert all[j] == m[j - 1];
        MergedMembers(a, b, m[j - 1]);
      } else {
        assert all[i] == m[i - 1] && all[j] == m[j - 1];
      }
    }
  }

  /** Looking an id up in the merge is the left-biased union of the two lookups. */
  lemma {:induction false} MergedLookup(a: seq<Rec>, b: seq<Rec>, id: int)
    requires Ascending(a) && Ascending(b)
    ensures Lookup(Merged(a, b), id) == if Lookup(a, id).Some? then Lookup(a, id) else Lookup(b, id)
    decreases |a| + |b|
  {
    hide Ascending;
    if a != [] && b != [] {
      TailAscending(a);
      TailAscending(b);
      BelowFront(a, id);
      BelowFront(b, id);
      if a[0].id < b[0].id { MergedLookup(a[1..], b, id); }
      else if b[0].id < a[0].id { MergedLookup(a, b[1..], id); }
      else { MergedLookup(a[1..], b[1..], id); }
    }
  }

  /** Ids below the first record are absent. */
  lemma BelowFront(recs: seq<Rec>, id: int)
    requires Ascending(recs) && recs != []
    ensures id < recs[0].id ==> Lookup(recs, id) == None
    ensures Lookup(recs[1..], recs[0].id) == None
  {
    TailAscending(recs);
    assert forall i :: 0 <= i < |recs| - 1 ==> recs[1..][i].id > recs[0].id;
    LookupNone(recs[1..], recs[0].id);
    if id < recs[0].id { LookupNone(recs, id); }
  }

  lemma FirstFound(a: seq<Rec>, b: seq<Rec>)
    requires a != [] && forall id :: Lookup(a, id) == Lookup(b, id)
    ensures b != []
  {
    assert Lookup(a, a[0].id) == Lookup(b, a[0].id);
  }

  /** A strictly ascending file is determined by its lookups. */
  lemma {:induction false} SameLookupsSameFile(a: seq<Rec>, b: seq<Rec>)
    requires Ascending(a) && Ascending(b) && forall id :: Lookup(a, id) == Lookup(b, id)
    ensures a == b
  {
    hide Ascending;
    if a != [] { FirstFound(a, b); }
    if b != [] { FirstFound(b, a); }
    if a != [] && b != [] {
      TailAscending(a);
      TailAscending(b);
      BelowFront(a, b[0].id);
      BelowFront(b, a[0].id);
      assert Lookup(a, a[0].id) == Lookup(b, a[0].id);
      assert Lookup(a, b[0].id) == Lookup(b, b[0].id);
      assert a[0] == b[0];
      forall id ensures Lookup(a[1..], id) == Lookup(b[1..], id) {
        assert Lookup(a, id) == Lookup(b, id);
      }
      SameLookupsSameFile(a[1..], b[1..]);
      assert a == [a[0]] + a[1..] && b == [b[0]] + b[1..];
    }
  }

  function Ids(recs: seq<Rec>): set<int> { set r | r in recs :: r.id }

  lemma {:induction false} IdsCount(recs: seq<Rec>)
    requires Ascending(recs)
    ensures |Ids(recs)| == |recs|
  {
    if recs != [] {
      TailAscending(recs);
      IdsCount(recs[1..]);
      assert recs == [recs[0]] + recs[1..];
      assert Ids(recs) == {recs[0].id} + Ids(recs[1..]);
      assert recs[0].id !in Ids(recs[1..]);
    }
  }

  lemma IdsAreLookups(recs: seq<Rec>, id: int)
    requires Ascending(recs)
    ensures id in Ids(recs) <==> Lookup(recs, id).Some?
  {
    if id in Ids(recs) {
      var r :| r in recs && r.id == id;
      var i :| 0 <= i < |recs| && recs[i] == r;
      LookupAt(recs, i);
    }
    if Lookup(recs, id).Some? { var i := LookupFinds(recs, id); assert recs[i] in recs; }
  }

  /** The merged file holds |A| + |B| - |A and B| records. */
  lemma MergedCount(a: seq<Rec>, b: seq<Rec>)
    requires Ascending(a) && Ascending(b)
    ensures |Merged(a, b)| == |a| + |b| - |Ids(a) * Ids(b)|
  {
    hide Ascending, Merged, Ids, Lookup;
    var m := Merged(a, b);
    MergedAscending(a, b);
    forall id ensures id in Ids(m) <==> id in Ids(a) + Ids(b) {
      MergedLookup(a, b, id);
      IdsAreLookups(m, id);
      IdsAreLookups(a, id);
      IdsAreLookups(b, id);
    }
    assert Ids(m) == Ids(a) + Ids(b);
    IdsCount(m);
    IdsCount(a);
    IdsCount(b);
  }

  // ---------------------------------------------------------------- files of one snapshot

  /** Two files cut from one snapshot agree wherever both have a record. */
  ghost predicate Agree(a: seq<Rec>, b: seq<Rec>) {
    forall id :: Lookup(a, id).Some? && Lookup(b, id).Some? ==> Lookup(a, id) == Lookup(b, id)
  }

  lemma MergeAlgebra(a: seq<Rec>, b: seq<Rec>, c: seq<Rec>)
    requires Ascending(a) && Ascending(b) && Ascending(c)
    ensures Merged(Merged(a, b), c) == Merged(a, Merged(b, c))
    ensures Merged(a, a) == a
    ensures Agree(a, b) ==> Merged(a, b) == Merged(b, a)
  {
    hide Ascending, Merged, Lookup;
    MergedAscending(a, b);
    MergedAscending(b, a);
    MergedAscending(b, c);
    MergedAscending(a, a);
    MergedAscending(Merged(a, b), c);
    MergedAscending(a, Merged(b, c));
    forall id
      ensures Lookup(Merged(Merged(a, b), c), id) == Lookup(Merged(a, Merged(b, c)), id)
      ensures Lookup(Merged(a, a), id) == Lookup(a, id)
      ensures Agree(a, b) ==> Lookup(Merged(a, b), id) == Lookup(Merged(b, a), id)
    {
      MergedLookup(a, b, id);
      MergedLookup(b, a, id);
      MergedLookup(b, c, id);
      MergedLookup(a, a, id);
      MergedLookup(Merged(a, b), c, id);
      MergedLookup(a, Merged(b, c), id);
    }
    SameLookupsSameFile(Merged(Merged(a, b), c), Merged(a, Merged(b, c)));
    SameLookupsSameFile(Merged(a, a), a);
    if Agree(a, b) { SameLookupsSameFile(Merged(a, b), Merged(b, a)); }
  }

  /** Installing region files in turn: the first is copied, the others are merged in. */
  function InstallNodes(files: seq<seq<Rec>>): seq<Rec>
    requires files != []
  {
    if |files| == 1 then files[0]
    else Merged(InstallNodes(files[..|files| - 1]), files[|files| - 1])
  }

  /** Every file is ascending and carries the snapshot's coordinates. */
  ghost predicate CutFrom(files: seq<seq<Rec>>, snapshot: map<int, Coord>) {
    forall f :: f in files ==> Ascending(f) && forall id :: Lookup(f, id).Some? ==> id in snapshot && Lookup(f, id).value == snapshot[id]
  }

  ghost predicate Carried(files: seq<seq<Rec>>, id: int) {
    exists f :: f in files && Lookup(f, id).Some?
  }

  lemma {:induction false} InstalledLookup(files: seq<seq<Rec>>, snapshot: map<int, Coord>, id: int)
    requires files != [] && CutFrom(files, snapshot)
    ensures Ascending(InstallNodes(files))
    ensures Carried(files, id) ==> id in snapshot
    ensures Lookup(InstallNodes(files), id) == if Carried(files, id) then Some(snapshot[id]) else None
  {
    hide Ascending, Lookup, Merged;
    assert files[0] in files;
    if |files| > 1 {
      var init, last := files[..|files| - 1], files[|files| - 1];
      assert last in files;
      assert forall f :: f in files <==> f in init || f == last;
      InstalledLookup(init, snapshot, id);
      MergedAscending(InstallNodes(init), last);
      MergedLookup(InstallNodes(init), last, id);
    }
  }

  /** Neither the order of installs nor repeats matter: the installed file is the same. */
  lemma InstallOrderIrrelevant(files: seq<seq<Rec>>, others: seq<seq<Rec>>, snapshot: map<int, Coord>)
    requires files != [] && others != [] && CutFrom(files, snapshot)
    requires forall f :: f in files <==> f in others
    ensures InstallNodes(files) == InstallNodes(others)
  {
    hide Ascending, Lookup, InstallNodes;
    forall id ensures Lookup(InstallNodes(files), id) == Lookup(InstallNodes(others), id) {
      InstalledLookup(files, snapshot, id);
      InstalledLookup(others, snapshot, id);
    }
    InstalledLookup(files, snapshot, 0);
    InstalledLookup(others, snapshot, 0);
    SameLookupsSameFile(InstallNodes(files), InstallNodes(others));
  }
}
