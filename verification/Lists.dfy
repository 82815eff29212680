/** Filtering lists, seen as multisets. */
module Lists {

  function Filter<T>(s: seq<T>, p: T -> bool): seq<T> {
    if s == [] then [] else Filter(s[..|s| - 1], p) + (if p(s[|s| - 1]) then [s[|s| - 1]] else [])
  }

  /** A filtered list holds each element it accepts as often as the list does, and no other. */
  lemma {:induction false} FilterCount<T>(s: seq<T>, p: T -> bool, x: T)
    ensures multiset(Filter(s, p))[x] == if p(x) then multiset(s)[x] else 0
  {
    if s != [] {
      var init, last := s[..|s| - 1], s[|s| - 1];
      FilterCount(init, p, x);
      assert s == init + [last];
      var tail := if p(last) then [last] else [];
      assert multiset(Filter(s, p)) == multiset(Filter(init, p)) + multiset(tail);
    }
  }

  lemma FilterIn<T>(s: seq<T>, p: T -> bool, x: T)
    ensures x in Filter(s, p) <==> x in s && p(x)
  {
    FilterCount(s, p, x);
    assert x in Filter(s, p) <==> multiset(Filter(s, p))[x] > 0;
    assert x in s <==> multiset(s)[x] > 0;
  }

  lemma FilterSnoc<T>(s: seq<T>, x: T, p: T -> bool)
    ensures Filter(s + [x], p) == Filter(s, p) + (if p(x) then [x] else [])
  {
    assert (s + [x])[..|s|] == s;
  }

  /** Positions picked from a list of `n`, in order, none twice. */
  predicate Ascends(ks: seq<nat>, n: nat) {
    && (forall i, j :: 0 <= i < j < |ks| ==> ks[i] < ks[j])
    && (forall i :: 0 <= i < |ks| ==> ks[i] < n)
  }

  /** The next position may be picked or not. */
  lemma AscendsMore(ks: seq<nat>, n: nat)
    requires Ascends(ks, n)
    ensures Ascends(ks, n + 1) && Ascends(ks + [n], n + 1)
    ensures forall i :: i in ks + [n] <==> i in ks || i == n
    ensures forall i :: i in ks ==> i < n
  {}
}
