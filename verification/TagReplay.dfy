/**
 Tag rows when a diff is applied again after a crash (src/Replicator.cpp around `diffTags` of
 src/NavDB.cpp). The tag tables have no key, so an edit that is repeated may leave more rows.
 */
module TagReplay {
  import opened NavTables
  import opened TagDiff

  /**
   One entity's rows through a list of edits, each given by its cleaned tags (none for a
   deletion). Between two edits the rows may be read back in any order.
   */
  ghost predicate Run(history: seq<seq<Tag>>, edits: seq<seq<Tag>>) {
    && |history| == |edits| + 1
    && forall i :: 0 <= i < |edits| ==> multiset(history[i + 1]) == multiset(Diff(history[i], edits[i]))
  }

  predicate Stops(stops: seq<nat>, edits: seq<seq<Tag>>) { forall i :: 0 <= i < |stops| ==> stops[i] <= |edits| }

  /** The edits as executed: some attempts that stop early, then all of them. */
  function Attempted(edits: seq<seq<Tag>>, stops: seq<nat>): seq<seq<Tag>>
    requires Stops(stops, edits)
  {
    if stops == [] then edits else edits[..stops[0]] + Attempted(edits, stops[1..])
  }

  /** An edit leaves the key no row. */
  predicate Drops(edits: seq<seq<Tag>>, k: string) {
    exists i :: 0 <= i < |edits| && Count(edits[i], k) == 0
  }

  /** Every edit gives the key one tag. */
  predicate Single(edits: seq<seq<Tag>>, k: string) {
    forall i :: 0 <= i < |edits| ==> Count(edits[i], k) == 1
  }

  /** No attempt got through an edit that gives the key several tags, or none. */
  predicate AllSingle(edits: seq<seq<Tag>>, stops: seq<nat>, k: string)
    requires Stops(stops, edits)
  {
    forall i :: 0 <= i < |stops| ==> Single(edits[..stops[i]], k)
  }

  // ---------------------------------------------------------------- counting

  function After(r: nat, c: nat): nat { if c == 0 then 0 else r + c - (if r > 0 then 1 else 0) }

  function CountAfter(edits: seq<seq<Tag>>, k: string, r: nat): nat {
    if edits == [] then r
    else After(CountAfter(edits[..|edits| - 1], k, r), Count(edits[|edits| - 1], k))
  }

  lemma {:induction false} RunCount(history: seq<seq<Tag>>, edits: seq<seq<Tag>>, k: string)
    requires Run(history, edits)
    ensures Count(history[|edits|], k) == CountAfter(edits, k, Count(history[0], k))
  {
    hide Count, Diff;
    if edits != [] {
      var n := |edits| - 1;
      RunCount(history[..|edits|], edits[..n], k);
      assert multiset(history[n + 1]) == multiset(Diff(history[n], edits[n]));
      CountListing(history[n + 1], Diff(history[n], edits[n]), k);
      DiffCount(history[n], edits[n], k);
    }
  }

  lemma {:induction false} CountConcat(a: seq<seq<Tag>>, b: seq<seq<Tag>>, k: string, r: nat)
    ensures CountAfter(a + b, k, r) == CountAfter(b, k, CountAfter(a, k, r))
  {
    hide Count, After;
    if b == [] {
      assert a + b == a;
    } else {
      var init := b[..|b| - 1];
      assert (a + b)[..|a + b| - 1] == a + init;
      CountConcat(a, init, k, r);
    }
  }

  /** How many rows beyond one the edits leave the key. */
  function Surplus(edits: seq<seq<Tag>>, k: string): int {
    if edits == [] then 0 else Surplus(edits[..|edits| - 1], k) + Count(edits[|edits| - 1], k) - 1
  }

  function AtLeastOne(r: nat): nat { if r == 0 then 1 else r }

  lemma {:induction false} CountForm(edits: seq<seq<Tag>>, k: string, r: nat)
    requires !Drops(edits, k)
    ensures Surplus(edits, k) >= 0
    ensures CountAfter(edits, k, r) == if edits == [] then r else AtLeastOne(r) + Surplus(edits, k)
  {
    hide Count;
    if edits != [] {
      var init := edits[..|edits| - 1];
      assert !Drops(init, k) by { forall i | 0 <= i < |init| ensures Count(init[i], k) != 0 { assert init[i] == edits[i]; } }
      CountForm(init, k, r);
      if init == [] { assert Surplus(init, k) == 0; }
    }
  }

  lemma {:induction false} NoSurplusIff(edits: seq<seq<Tag>>, k: string)
    requires !Drops(edits, k)
    ensures Surplus(edits, k) >= 0 && (Surplus(edits, k) == 0 <==> Single(edits, k))
  {
    hide Count;
    if edits != [] {
      var init := edits[..|edits| - 1];
      assert forall i :: 0 <= i < |init| ==> init[i] == edits[i];
      assert !Drops(init, k);
      NoSurplusIff(init, k);
      assert Single(edits, k) <==> Single(init, k) && Count(edits[|edits| - 1], k) == 1;
    }
  }

  /** Once an edit drops the key, how often it was stored before is forgotten. */
  lemma {:induction false} DropForgets(edits: seq<seq<Tag>>, k: string, r: nat, s: nat)
    requires Drops(edits, k)
    ensures CountAfter(edits, k, r) == CountAfter(edits, k, s)
  {
    hide Count;
    var init := edits[..|edits| - 1];
    if Count(edits[|edits| - 1], k) != 0 {
      var i :| 0 <= i < |edits| && Count(edits[i], k) == 0;
      assert init[i] == edits[i];
      DropForgets(init, k, r, s);
    }
  }

  // ---------------------------------------------------------------- replay

  lemma {:induction false} DropReplays(edits: seq<seq<Tag>>, stops: seq<nat>, k: string, r: nat)
    requires Stops(stops, edits) && Drops(edits, k)
    ensures CountAfter(Attempted(edits, stops), k, r) == CountAfter(edits, k, r)
  {
    hide CountAfter, Drops;
    if stops != [] {
      var part := edits[..stops[0]];
      var now := CountAfter(part, k, r);
      CountConcat(part, Attempted(edits, stops[1..]), k, r);
      DropReplays(edits, stops[1..], k, now);
      DropForgets(edits, k, now, r);
    }
  }

  lemma {:induction false} KeptReplays(edits: seq<seq<Tag>>, stops: seq<nat>, k: string, r: nat)
    requires Stops(stops, edits) && !Drops(edits, k)
    ensures CountAfter(Attempted(edits, stops), k, r) >= CountAfter(edits, k, r)
    ensures (CountAfter(Attempted(edits, stops), k, r) == CountAfter(edits, k, r)
             <==> AllSingle(edits, stops, k))
  {
    hide CountAfter, Drops, Single, Count;
    if stops != [] {
      var part, rest := edits[..stops[0]], stops[1..];
      var now := CountAfter(part, k, r);
      CountConcat(part, Attempted(edits, rest), k, r);
      KeptReplays(edits, rest, k, now);
      OneStop(edits, stops[0], k, r);
      assert AllSingle(edits, stops, k) <==> Single(part, k) && AllSingle(edits, rest, k) by {
        assert forall i :: 0 <= i < |rest| ==> rest[i] == stops[i + 1];
        assert forall i :: 0 < i < |stops| ==> stops[i] == rest[i - 1];
      }
    }
  }

  lemma OneStop(edits: seq<seq<Tag>>, stop: nat, k: string, r: nat)
    requires stop <= |edits| && !Drops(edits, k)
    ensures var now := CountAfter(edits[..stop], k, r);
      && CountAfter(edits, k, now) >= CountAfter(edits, k, r)
      && (CountAfter(edits, k, now) == CountAfter(edits, k, r) <==> Single(edits[..stop], k))
  {
    hide CountAfter, Count;
    var part := edits[..stop];
    var now := CountAfter(part, k, r);
    assert forall i :: 0 <= i < |part| ==> part[i] == edits[i];
    assert !Drops(part, k);
    CountForm(part, k, r);
    CountForm(edits, k, r);
    CountForm(edits, k, now);
    NoSurplusIff(part, k);
  }

  /**
   Exactly when a key has as many rows after the restarts as after one undisturbed run: an edit
   drops the key, or no attempt got through an edit in which several tags are cleaned to it.
   */
  lemma ReplayCountIff(edits: seq<seq<Tag>>, stops: seq<nat>, once: seq<seq<Tag>>, again: seq<seq<Tag>>, k: string)
    requires Stops(stops, edits) && Run(once, edits) && Run(again, Attempted(edits, stops))
    requires multiset(once[0]) == multiset(again[0])
    ensures Count(again[|again| - 1], k) >= Count(once[|once| - 1], k)
    ensures (Count(again[|again| - 1], k) == Count(once[|once| - 1], k)
             <==> Drops(edits, k) || AllSingle(edits, stops, k))
  {
    hide Count, Single, Drops, CountAfter, Attempted;
    RunCount(once, edits, k);
    RunCount(again, Attempted(edits, stops), k);
    CountListing(once[0], again[0], k);
    var r := Count(once[0], k);
    if Drops(edits, k) { DropReplays(edits, stops, k, r); } else { KeptReplays(edits, stops, k, r); }
  }

  /** With distinct cleaned keys a restart never changes how many rows a key has. */
  lemma DistinctReplay(edits: seq<seq<Tag>>, stops: seq<nat>, once: seq<seq<Tag>>, again: seq<seq<Tag>>, k: string)
    requires Stops(stops, edits) && Run(once, edits) && Run(again, Attempted(edits, stops))
    requires multiset(once[0]) == multiset(again[0])
    requires forall i :: 0 <= i < |edits| ==> KeyUnique(edits[i])
    ensures Count(again[|again| - 1], k) == Count(once[|once| - 1], k)
  {
    hide Count, KeyUnique, Run, Attempted;
    ReplayCountIff(edits, stops, once, again, k);
    if !Drops(edits, k) {
      forall i, j | 0 <= i < |stops| && 0 <= j < stops[i] ensures Count(edits[..stops[i]][j], k) == 1 {
        UniqueCounts(edits[j]);
      }
    }
  }
}
