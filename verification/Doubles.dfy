/**
 Comparison of doubles as their 64-bit words: sign and magnitude, the two zeros equal, a NaN
 comparing false with everything.
 */
module Doubles {
  import opened Core

  const SIGN := 0x8000_0000_0000_0000
  const INFINITY := 0x7FF0_0000_0000_0000

  predicate IsNaN(w: Word) { w % SIGN > INFINITY }

  function Key(w: Word): int { if w < SIGN then w else SIGN - w }

  predicate Less(a: Word, b: Word) { !IsNaN(a) && !IsNaN(b) && Key(a) < Key(b) }

  predicate AtMost(a: Word, b: Word) { !IsNaN(a) && !IsNaN(b) && Key(a) <= Key(b) }

  /** `std::min` and `std::max` over a list, as a loop from its first element takes them. */
  function MinOf(s: seq<Word>): Word
    requires s != []
  {
    if |s| == 1 then s[0]
    else
      var m, x := MinOf(s[..|s| - 1]), s[|s| - 1];
      if Less(x, m) then x else m
  }

  function MaxOf(s: seq<Word>): Word
    requires s != []
  {
    if |s| == 1 then s[0]
    else
      var m, x := MaxOf(s[..|s| - 1]), s[|s| - 1];
      if Less(m, x) then x else m
  }

  ghost predicate Numbers(s: seq<Word>) { forall i :: 0 <= i < |s| ==> !IsNaN(s[i]) }

  /** Between the smallest and the largest: some element on either side. */
  lemma {:induction false} BetweenIff(s: seq<Word>, v: Word)
    requires s != [] && Numbers(s) && !IsNaN(v)
    ensures !IsNaN(MinOf(s)) && !IsNaN(MaxOf(s))
    ensures AtMost(MinOf(s), v) <==> exists i :: 0 <= i < |s| && AtMost(s[i], v)
    ensures AtMost(v, MaxOf(s)) <==> exists i :: 0 <= i < |s| && AtMost(v, s[i])
  {
    hide IsNaN, Key;
    if |s| > 1 {
      var init, x := s[..|s| - 1], s[|s| - 1];
      BetweenIff(init, v);
      assert forall i :: 0 <= i < |init| ==> init[i] == s[i];
      assert s[|init|] == x;
    }
  }

  // ---------------------------------------------------------------- the numbers the words stand for

  function Pow2(n: nat): (p: nat)
    ensures p > 0
  {
    if n == 0 then 1 else 2 * Pow2(n - 1)
  }

  const FRACTION := 0x10_0000_0000_0000

  /** Exponent and fraction fields of IEEE 754 binary64, in units of the smallest positive number. */
  function Magnitude(m: nat): (v: int)
    ensures v >= 0
  {
    if m / FRACTION == 0 then m % FRACTION else (FRACTION + m % FRACTION) * Pow2(m / FRACTION - 1)
  }

  /** Subnormals count up by one, as do the first normal numbers; one more exponent doubles. */
  lemma MagnitudeIs(e: nat, f: nat)
    requires f < 0x10_0000_0000_0000
    ensures Magnitude(f) == f && Magnitude(0x10_0000_0000_0000 + f) == 0x10_0000_0000_0000 + f
    ensures e > 0 ==> Magnitude((e + 1) * 0x10_0000_0000_0000 + f) == 2 * Magnitude(e * 0x10_0000_0000_0000 + f)
  {
    assert Pow2(0) == 1;
    if e > 0 {
      Fields(e, f);
      Fields(e + 1, f);
      assert Pow2(e) == 2 * Pow2(e - 1);
    }
  }

  lemma Fields(e: nat, f: nat)
    requires f < FRACTION
    ensures (e * FRACTION + f) / FRACTION == e && (e * FRACTION + f) % FRACTION == f
  {}

  predicate Finite(w: Word) { w % 0x8000_0000_0000_0000 < 0x7FF0_0000_0000_0000 }

  function Value(w: Word): int {
    if w < 0x8000_0000_0000_0000 then Magnitude(w) else -Magnitude(w - 0x8000_0000_0000_0000)
  }

  lemma {:induction false} PowGrows(a: nat, b: nat)
    requires a <= b
    ensures Pow2(a) <= Pow2(b)
  {
    if a < b { PowGrows(a, b - 1); }
  }

  lemma Scale(x: nat, y: nat, p: nat)
    requires p > 0
    ensures x < y ==> x * p < y * p
    ensures x <= y ==> x * p <= y * p
  {}

  lemma MagnitudeAbove(m: nat)
    ensures var e := m / FRACTION; Magnitude(m) < FRACTION * Pow2(e) && (e > 0 ==> Magnitude(m) >= FRACTION * Pow2(e - 1))
  {
    var e, f := m / FRACTION, m % FRACTION;
    if e > 0 {
      Scale(FRACTION + f, 2 * FRACTION, Pow2(e - 1));
      Scale(FRACTION, FRACTION + f, Pow2(e - 1));
      assert Pow2(e) == 2 * Pow2(e - 1);
    }
  }

  lemma MagnitudeOrder(a: nat, b: nat)
    requires a < b
    ensures Magnitude(a) < Magnitude(b)
  {
    hide Pow2;
    var e, d := a / FRACTION, b / FRACTION;
    if e == d {
      if e > 0 { Scale(FRACTION + a % FRACTION, FRACTION + b % FRACTION, Pow2(e - 1)); }
    } else {
      MagnitudeAbove(a);
      MagnitudeAbove(b);
      PowGrows(e, d - 1);
      Scale(Pow2(e), Pow2(d - 1), FRACTION);
    }
  }

  lemma FiniteKeys(w: Word)
    requires Finite(w)
    ensures !IsNaN(w) && (Key(w) >= 0 ==> Value(w) == Magnitude(Key(w))) && (Key(w) <= 0 ==> Value(w) == -Magnitude(-Key(w)))
  {
    assert Magnitude(0) == 0;
  }

  /** Words compare as the numbers they stand for. */
  lemma OrderIsNumeric(a: Word, b: Word)
    requires Finite(a) && Finite(b)
    ensures Less(a, b) <==> Value(a) < Value(b)
    ensures AtMost(a, b) <==> Value(a) <= Value(b)
  {
    hide Magnitude, Value, Key, Finite, IsNaN;
    FiniteKeys(a);
    FiniteKeys(b);
    var x, y := Key(a), Key(b);
    if x < y { SameOrder(x, y); }
    if y < x { SameOrder(y, x); }
  }

  lemma SameOrder(x: int, y: int)
    requires x < y
    ensures (if x >= 0 then Magnitude(x) else -Magnitude(-x)) < (if y >= 0 then Magnitude(y) else -Magnitude(-y))
  {
    hide Magnitude;
    if x >= 0 { MagnitudeOrder(x, y); }
    else if y <= 0 { MagnitudeOrder(-y, -x); }
    else { MagnitudeOrder(0, -x); MagnitudeOrder(0, y); }
  }

  /** Infinities lie outside all finite numbers; a NaN compares with nothing. */
  lemma Infinities(w: Word)
    ensures Finite(w) ==> Less(w, 0x7FF0_0000_0000_0000) && Less(0xFFF0_0000_0000_0000, w)
    ensures w % 0x8000_0000_0000_0000 > 0x7FF0_0000_0000_0000 ==> forall v :: !Less(w, v) && !Less(v, w) && !AtMost(w, v) && !AtMost(v, w)
  {}
}
