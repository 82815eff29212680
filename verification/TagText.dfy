/**
 Tag text cleaning (src/NavDB.cpp, `sanitizeUtf8` and `sanitizeTag`).
 A `string` stands for a C++ byte string; characters above 0xFF cannot occur there
 and are treated like any other byte that cannot start or continue a character.
 */
module TagText {
  import opened Core

  const MAX_CODEPOINTS := 256

  /** Length announced by a leading byte; 0 when the byte cannot lead (or is NUL). */
  function Announced(c: char): (n: nat)
    ensures n <= 4
  {
    var v := c as int;
    if v == 0 then 0
    else if v < 0x80 then 1
    else if 0xC0 <= v < 0xE0 then 2
    else if 0xE0 <= v < 0xF0 then 3
    else if 0xF0 <= v < 0xF8 then 4
    else 0
  }

  predicate Continues(c: char) { 0x80 <= c as int < 0xC0 }

  /** Length of the well-formed character at the front of `s`, or 0. */
  function UnitLength(s: string): (n: nat)
    requires s != []
    ensures n <= |s|
  {
    var n := Announced(s[0]);
    if n <= |s| && forall j :: 1 <= j < n ==> Continues(s[j]) then n else 0
  }

  function SanitizeUtf8(s: string): string {
    if s == [] then []
    else
      var n := UnitLength(s);
      if n == 0 then SanitizeUtf8(s[1..]) else s[..n] + SanitizeUtf8(s[n..])
  }

  predicate WellFormed(s: string) {
    s == [] || (UnitLength(s) > 0 && WellFormed(s[UnitLength(s)..]))
  }

  function CodePoints(s: string): nat
    requires WellFormed(s)
  {
    if s == [] then 0 else 1 + CodePoints(s[UnitLength(s)..])
  }

  /** The first `limit` characters of well-formed text. */
  function Truncate(s: string, limit: nat): string
    requires WellFormed(s)
  {
    if s == [] || limit == 0 then []
    else var n := UnitLength(s); s[..n] + Truncate(s[n..], limit - 1)
  }

  function SanitizeTag(s: string): string {
    SanitizedIsWellFormed(s);
    Truncate(SanitizeUtf8(s), MAX_CODEPOINTS)
  }

  /** A well-formed character in front keeps its length whatever follows. */
  lemma UnitPrefix(u: string, rest: string)
    requires u != [] && UnitLength(u) == |u|
    ensures UnitLength(u + rest) == |u|
    ensures (u + rest)[|u|..] == rest
  {
    assert forall j :: 0 <= j < |u| ==> (u + rest)[j] == u[j];
  }

  lemma UnitSelf(s: string)
    requires s != [] && UnitLength(s) > 0
    ensures UnitLength(s[..UnitLength(s)]) == UnitLength(s)
  {}

  lemma {:induction false} SanitizedIsWellFormed(s: string)
    ensures WellFormed(SanitizeUtf8(s))
  {
    if s != [] {
      var n := UnitLength(s);
      if n == 0 {
        SanitizedIsWellFormed(s[1..]);
      } else {
        SanitizedIsWellFormed(s[n..]);
        UnitSelf(s);
        UnitPrefix(s[..n], SanitizeUtf8(s[n..]));
      }
    }
  }

  /** Text that is already well formed is untouched, so cleaning is idempotent. */
  lemma {:induction false} WellFormedUntouched(s: string)
    requires WellFormed(s)
    ensures SanitizeUtf8(s) == s
  {
    if s != [] {
      var n := UnitLength(s);
      WellFormedUntouched(s[n..]);
      assert s == s[..n] + s[n..];
    }
  }

  lemma {:induction false} TruncateIsPrefix(s: string, limit: nat)
    requires WellFormed(s)
    ensures Truncate(s, limit) <= s
    ensures WellFormed(Truncate(s, limit))
    ensures CodePoints(Truncate(s, limit)) == if CodePoints(s) < limit then CodePoints(s) else limit
    ensures CodePoints(s) <= limit ==> Truncate(s, limit) == s
  {
    hide UnitLength;
    if s != [] && limit != 0 {
      var n := UnitLength(s);
      TruncateIsPrefix(s[n..], limit - 1);
      UnitSelf(s);
      UnitPrefix(s[..n], Truncate(s[n..], limit - 1));
      assert s == s[..n] + s[n..];
    }
  }

  /** What a cleaned tag is: valid, short enough, and a fixed point of cleaning. */
  lemma CleanTag(s: string)
    ensures WellFormed(SanitizeTag(s)) && CodePoints(SanitizeTag(s)) <= MAX_CODEPOINTS
    ensures SanitizeTag(SanitizeTag(s)) == SanitizeTag(s)
    ensures WellFormed(s) && CodePoints(s) <= MAX_CODEPOINTS ==> SanitizeTag(s) == s
  {
    SanitizedIsWellFormed(s);
    TruncateIsPrefix(SanitizeUtf8(s), MAX_CODEPOINTS);
    WellFormedUntouched(SanitizeTag(s));
    TruncateIsPrefix(SanitizeTag(s), MAX_CODEPOINTS);
    if WellFormed(s) { WellFormedUntouched(s); }
  }

  // ---------------------------------------------------------------- bytes in, bytes out

  /** One character's bytes: ASCII except NUL, or a lead byte and its continuation bytes. */
  predicate IsUnit(u: string) {
    || (|u| == 1 && 0x01 <= u[0] as int <= 0x7F)
    || (|u| == 2 && 0xC0 <= u[0] as int <= 0xDF && 0x80 <= u[1] as int <= 0xBF)
    || (|u| == 3 && 0xE0 <= u[0] as int <= 0xEF && 0x80 <= u[1] as int <= 0xBF && 0x80 <= u[2] as int <= 0xBF)
    || (|u| == 4 && 0xF0 <= u[0] as int <= 0xF7
        && 0x80 <= u[1] as int <= 0xBF && 0x80 <= u[2] as int <= 0xBF && 0x80 <= u[3] as int <= 0xBF)
  }

  lemma UnitIs(u: string)
    requires u != []
    ensures IsUnit(u) <==> UnitLength(u) == |u|
  {
    if UnitLength(u) == |u| { assert forall j :: 1 <= j < |u| ==> Continues(u[j]); }
  }

  /** Cleaning keeps every character, and drops a byte at which none starts. */
  lemma CleanFront(s: string)
    requires s != []
    ensures forall n: nat :: n <= |s| && IsUnit(s[..n]) ==> SanitizeUtf8(s) == s[..n] + SanitizeUtf8(s[n..])
    ensures (forall n: nat :: n <= |s| ==> !IsUnit(s[..n])) ==> SanitizeUtf8(s) == SanitizeUtf8(s[1..])
  {
    hide IsUnit, UnitLength;
    forall n: nat | n <= |s| && IsUnit(s[..n]) ensures UnitLength(s) == n > 0 {
      NoEmptyUnit(s[..n]);
      UnitIs(s[..n]);
      UnitPrefix(s[..n], s[n..]);
      assert s[..n] + s[n..] == s;
    }
    var m := UnitLength(s);
    if m > 0 {
      UnitSelf(s);
      UnitIs(s[..m]);
    }
  }

  lemma NoEmptyUnit(u: string)
    requires IsUnit(u)
    ensures u != []
  {}

  predicate AllUnits(us: seq<string>) { forall i :: 0 <= i < |us| ==> IsUnit(us[i]) }

  function First(us: seq<string>, n: nat): seq<string> { if n < |us| then us[..n] else us }

  lemma {:induction false} UnitsWellFormed(us: seq<string>, limit: nat)
    requires AllUnits(us)
    ensures WellFormed(Flatten(us)) && Truncate(Flatten(us), limit) == Flatten(First(us, limit))
  {
    hide IsUnit, UnitLength;
    if us != [] {
      var u, rest := us[0], us[1..];
      NoEmptyUnit(u);
      UnitIs(u);
      assert Flatten(us) == u + Flatten(rest);
      UnitPrefix(u, Flatten(rest));
      UnitsWellFormed(rest, if limit > 0 then limit - 1 else 0);
      if limit > 0 { FirstStep(us, limit); }
      assert (u + Flatten(rest))[..|u|] == u;
    }
  }

  lemma FirstStep(us: seq<string>, limit: nat)
    requires us != [] && limit > 0
    ensures First(us, limit) != [] && First(us, limit)[0] == us[0] && First(us, limit)[1..] == First(us[1..], limit - 1)
  {}

  /** A tag that is a list of characters is kept up to its 256th. */
  lemma CleanedUnits(us: seq<string>)
    requires AllUnits(us)
    ensures SanitizeTag(Flatten(us)) == Flatten(if |us| > 256 then us[..256] else us)
  {
    hide IsUnit;
    UnitsWellFormed(us, 256);
    WellFormedUntouched(Flatten(us));
  }

  lemma {:induction false} Singles(s: string)
    requires forall i :: 0 <= i < |s| ==> 0x01 <= s[i] as int <= 0x7F
    ensures AllUnits(seq(|s|, i requires 0 <= i < |s| => [s[i]]))
    ensures Flatten(seq(|s|, i requires 0 <= i < |s| => [s[i]])) == s
  {
    if s != [] {
      var us := seq(|s|, i requires 0 <= i < |s| => [s[i]]);
      var rest := s[1..];
      Singles(rest);
      assert us[1..] == seq(|rest|, i requires 0 <= i < |rest| => [rest[i]]);
      assert s == [s[0]] + rest;
    }
  }

  /** Short ASCII text stays as it is. */
  lemma AsciiStays(s: string)
    requires |s| <= 256 && forall i :: 0 <= i < |s| ==> 0x01 <= s[i] as int <= 0x7F
    ensures SanitizeTag(s) == s
  {
    hide SanitizeTag, AllUnits;
    Singles(s);
    CleanedUnits(seq(|s|, i requires 0 <= i < |s| => [s[i]]));
  }

  lemma SanitizeStep(s: string, i: nat)
    requires i < |s|
    ensures var n := UnitLength(s[i..]);
            && i + n <= |s|
            && SanitizeUtf8(s[i..]) == s[i..i + n] + SanitizeUtf8(s[if n == 0 then i + 1 else i + n..])
  {
    var n := UnitLength(s[i..]);
    if n == 0 {
      assert s[i..][1..] == s[i + 1..];
      assert s[i..i + n] == [];
    } else {
      assert s[i..][..n] == s[i..i + n];
      assert s[i..][n..] == s[i + n..];
    }
  }

  lemma TruncateStep(s: string, i: nat, limit: nat)
    requires i < |s| && limit > 0 && WellFormed(s[i..])
    ensures var n := UnitLength(s[i..]);
            && i + n <= |s| && n > 0
            && WellFormed(s[i + n..])
            && Truncate(s[i..], limit) == s[i..i + n] + Truncate(s[i + n..], limit - 1)
  {
    var n := UnitLength(s[i..]);
    assert s[i..][..n] == s[i..i + n];
    assert s[i..][n..] == s[i + n..];
  }

  lemma Regroup(a: string, b: string, c: string, d: string, whole: string)
    requires a + b == whole && b == c + d
    ensures (a + c) + d == whole
  {
    assert (a + c) + d == a + (c + d);
  }

  /** The validity test of one character: leading byte, room, continuation bytes. */
  method MeasureUnit(s: string, i: nat) returns (len: nat)
    requires i < |s|
    ensures len == UnitLength(s[i..])
  {
    len := Announced(s[i]);
    if len == 0 || i + len > |s| { return 0; }
    ghost var t := s[i..];
    var j := 1;
    while j < len
      invariant 1 <= j <= len
      invariant forall k :: 1 <= k < j ==> Continues(t[k])
    {
      assert t[j] == s[i + j];
      if !Continues(s[i + j]) { return 0; }
      j := j + 1;
    }
  }

  method CleanUtf8(s: string) returns (out: string)
    ensures out == SanitizeUtf8(s)
  {
    hide UnitLength;
    out := [];
    var i := 0;
    ghost var whole := SanitizeUtf8(s);
    assert s[0..] == s;
    while i < |s|
      invariant 0 <= i <= |s|
      invariant out + SanitizeUtf8(s[i..]) == whole
    {
      var len := MeasureUnit(s, i);
      SanitizeStep(s, i);
      ghost var rest := SanitizeUtf8(s[if len == 0 then i + 1 else i + len..]);
      Regroup(out, SanitizeUtf8(s[i..]), s[i..i + len], rest, whole);
      out := out + s[i..i + len];
      i := if len == 0 then i + 1 else i + len;
    }
    assert s[i..] == [];
  }

  lemma TruncateEnd(s: string, limit: nat)
    requires WellFormed(s) && (s == [] || limit == 0)
    ensures Truncate(s, limit) == []
  {}

  /** The length test of the truncation loop, which needs no validation. */
  function LeadLength(c: char): nat {
    var v := c as int;
    if v < 0x80 then 1 else if 0xC0 <= v < 0xE0 then 2 else if 0xE0 <= v < 0xF0 then 3 else 4
  }

  lemma LeadIsUnit(s: string)
    requires s != [] && WellFormed(s)
    ensures LeadLength(s[0]) == UnitLength(s)
  {}

  method TakeCodePoints(clean: string, limit: nat) returns (out: string)
    requires WellFormed(clean)
    ensures out == Truncate(clean, limit)
  {
    hide UnitLength, LeadLength, WellFormed, Truncate;
    var count, i := 0, 0;
    ghost var whole := Truncate(clean, limit);
    assert clean[0..] == clean;
    while i < |clean| && count < limit
      invariant 0 <= i <= |clean| && 0 <= count <= limit
      invariant WellFormed(clean[i..])
      invariant clean[..i] + Truncate(clean[i..], limit - count) == whole
    {
      var len := LeadLength(clean[i]);
      LeadIsUnit(clean[i..]);
      TruncateStep(clean, i, limit - count);
      Regroup(clean[..i], Truncate(clean[i..], limit - count), clean[i..i + len],
              Truncate(clean[i + len..], limit - count - 1), whole);
      assert clean[..i] + clean[i..i + len] == clean[..i + len];
      i := i + len;
      count := count + 1;
    }
    TruncateEnd(clean[i..], limit - count);
    out := clean[..i];
  }

  method CleanTagText(s: string) returns (out: string)
    ensures out == SanitizeTag(s)
  {
    var clean := CleanUtf8(s);
    SanitizedIsWellFormed(s);
    out := TakeCodePoints(clean, MAX_CODEPOINTS);
  }
}
