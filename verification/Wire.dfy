/** Fixed-width integers as bytes, least or most significant byte first. */
module Wire {
  import opened Core

  function Pow256(n: nat): (p: nat)
    ensures p > 0
  {
    if n == 0 then 1 else 256 * Pow256(n - 1)
  }

  lemma Widths()
    ensures Pow256(2) == 0x1_0000
    ensures Pow256(4) == 0x1_0000_0000
    ensures Pow256(8) == 0x1_0000_0000_0000_0000
  {
    assert Pow256(1) == 256 * Pow256(0);
    assert Pow256(2) == 256 * Pow256(1);
    assert Pow256(3) == 256 * Pow256(2);
    assert Pow256(4) == 256 * Pow256(3);
    assert Pow256(5) == 256 * Pow256(4);
    assert Pow256(6) == 256 * Pow256(5);
    assert Pow256(7) == 256 * Pow256(6);
    assert Pow256(8) == 256 * Pow256(7);
  }

  function LE(v: nat, n: nat): (s: seq<Byte>)
    ensures |s| == n
  {
    if n == 0 then [] else [v % 256] + LE(v / 256, n - 1)
  }

  function FromLE(s: seq<Byte>): nat {
    if s == [] then 0 else s[0] + 256 * FromLE(s[1..])
  }

  lemma {:induction false} LERoundTrip(v: nat, n: nat)
    requires v < Pow256(n)
    ensures FromLE(LE(v, n)) == v
  {
    if n > 0 {
      assert v / 256 < Pow256(n - 1);
      LERoundTrip(v / 256, n - 1);
      assert LE(v, n)[1..] == LE(v / 256, n - 1);
    }
  }

  lemma LowByte(b: Byte, v: nat)
    ensures (b + 256 * v) % 256 == b && (b + 256 * v) / 256 == v
  {}

  lemma {:induction false} LEBytes(s: seq<Byte>)
    ensures FromLE(s) < Pow256(|s|)
    ensures LE(FromLE(s), |s|) == s
  {
    if s != [] {
      LEBytes(s[1..]);
      LowByte(s[0], FromLE(s[1..]));
      assert s == [s[0]] + s[1..];
    }
  }

  function BE(v: nat, n: nat): (s: seq<Byte>)
    ensures |s| == n
  {
    if n == 0 then [] else BE(v / 256, n - 1) + [v % 256]
  }

  function FromBE(s: seq<Byte>): nat {
    if s == [] then 0 else 256 * FromBE(s[..|s| - 1]) + s[|s| - 1]
  }

  lemma {:induction false} BERoundTrip(v: nat, n: nat)
    requires v < Pow256(n)
    ensures FromBE(BE(v, n)) == v
  {
    if n > 0 {
      assert v / 256 < Pow256(n - 1);
      BERoundTrip(v / 256, n - 1);
      assert BE(v, n)[..n - 1] == BE(v / 256, n - 1);
    }
  }

  lemma {:induction false} BEBytes(s: seq<Byte>)
    ensures FromBE(s) < Pow256(|s|)
    ensures BE(FromBE(s), |s|) == s
  {
    if s != [] {
      BEBytes(s[..|s| - 1]);
      assert s == s[..|s| - 1] + [s[|s| - 1]];
    }
  }

  /** Two's complement reading of an unsigned value of `n` bytes. */
  function Signed(u: nat, n: nat): int {
    if 2 * u >= Pow256(n) then u - Pow256(n) else u
  }

  function Unsigned(v: int, n: nat): nat
    requires 0 <= 2 * v + Pow256(n) && 2 * v < Pow256(n)
  {
    if v < 0 then v + Pow256(n) else v
  }

  lemma SignedRoundTrip(v: int, n: nat)
    requires 0 <= 2 * v + Pow256(n) && 2 * v < Pow256(n)
    ensures Unsigned(v, n) < Pow256(n) && Signed(Unsigned(v, n), n) == v
  {}

  // ---------------------------------------------------------------- byte by byte

  function Four(v: nat): seq<Byte> { [v % 256, v / 0x100 % 256, v / 0x1_0000 % 256, v / 0x100_0000 % 256] }

  function Eight(v: nat): seq<Byte> { Four(v) + Four(v / 0x1_0000_0000) }

  lemma LEHead(v: nat, n: nat)
    ensures LE(v, n + 1) == [v % 256] + LE(v / 256, n)
  {}

  lemma FourFirst(v: nat, n: nat)
    ensures LE(v, 4 + n) == Four(v) + LE(v / 0x1_0000_0000, n)
  {
    hide LE;
    var a := v / 256;
    var b := a / 256;
    var c := b / 256;
    LEHead(v, 3 + n);
    LEHead(a, 2 + n);
    LEHead(b, 1 + n);
    LEHead(c, n);
    assert b == v / 0x1_0000 && c == v / 0x100_0000 && c / 256 == v / 0x1_0000_0000;
    assert Four(v) == [v % 256] + ([a % 256] + ([b % 256] + [c % 256]));
  }

  /** Least significant byte first. */
  lemma FourIs(v: nat)
    ensures LE(v, 4) == Four(v)
  {
    FourFirst(v, 0);
    assert LE(v / 0x1_0000_0000, 0) == [];
  }

  lemma EightIs(v: nat)
    ensures LE(v, 8) == Eight(v)
  {
    hide LE, Four;
    FourFirst(v, 4);
    FourIs(v / 0x1_0000_0000);
  }

  lemma LittleEndian(a: Byte, b: Byte, c: Byte, d: Byte)
    ensures FromLE([a, b, c, d]) == a + 0x100 * b + 0x1_0000 * c + 0x100_0000 * d
  {
    assert [a, b, c, d][1..] == [b, c, d];
    assert [b, c, d][1..] == [c, d];
    assert [c, d][1..] == [d];
    assert FromLE([d]) == d;
    assert FromLE([c, d]) == c + 256 * FromLE([d]);
    assert FromLE([b, c, d]) == b + 256 * FromLE([c, d]);
  }

  /** Most significant byte first. */
  lemma BigEndian(a: Byte, b: Byte, c: Byte, d: Byte)
    ensures FromBE([a, b]) == 256 * a + b
    ensures FromBE([a, b, c, d]) == 0x100_0000 * a + 0x1_0000 * b + 0x100 * c + d
  {
    assert [a, b, c, d][..3] == [a, b, c];
    assert [a, b, c][..2] == [a, b];
    assert [a, b][..1] == [a];
    assert [a][..0] == [];
    assert FromBE([a]) == a;
    assert FromBE([a, b]) == 256 * FromBE([a]) + b;
    assert FromBE([a, b, c]) == 256 * FromBE([a, b]) + c;
  }
}
