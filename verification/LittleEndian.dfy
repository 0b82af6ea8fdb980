/** Little-endian integers and the FNV-1a checksum on byte sequences. */
module LittleEndian {
  import opened StorageTypes

  function Pow(n: nat): (p: nat)
    ensures p > 0
  {
    if n == 0 then 1 else 256 * Pow(n - 1)
  }

  lemma Powers()
    ensures Pow(1) == 256 && Pow(2) == 0x1_0000 && Pow(4) == 0x1_0000_0000 && Pow(8) == 0x1_0000_0000_0000_0000
  {
    assert Pow(0) == 1;
    assert Pow(1) == 256 * Pow(0) && Pow(2) == 256 * Pow(1) && Pow(3) == 256 * Pow(2) && Pow(4) == 256 * Pow(3);
    assert Pow(5) == 256 * Pow(4) && Pow(6) == 256 * Pow(5) && Pow(7) == 256 * Pow(6) && Pow(8) == 256 * Pow(7);
  }

  /** The n low-order bytes of v, least significant first. */
  function Le(v: nat, n: nat): (r: Bytes)
    ensures |r| == n
  {
    if n == 0 then [] else [v % 256] + Le(v / 256, n - 1)
  }

  function Un(s: Bytes): (v: nat)
  {
    if s == [] then 0 else s[0] + 256 * Un(s[1..])
  }

  /** Byte i is the digit of 256 to the i: the least significant byte comes first. */
  lemma {:induction false} LeDigit(v: nat, n: nat, i: nat)
    requires i < n
    ensures Le(v, n)[i] == v / Pow(i) % 256
  {
    if i == 0 {
      assert Pow(0) == 1;
    } else {
      LeDigit(v / 256, n - 1, i - 1);
      DivideTwice(v, Pow(i - 1));
    }
  }

  lemma DivideTwice(v: nat, p: nat)
    requires p > 0
    ensures v / 256 / p == v / (256 * p)
  {
    var q, r := v / 256, v % 256;
    var a, b := q / p, q % p;
    assert v == 256 * q + r && q == p * a + b;
    assert v == 256 * p * a + (256 * b + r);
    assert 256 * b + r < 256 * p;
    QuotientIs(v, 256 * p, a, 256 * b + r);
  }

  lemma QuotientIs(v: nat, d: nat, a: nat, rest: nat)
    requires v == d * a + rest && rest < d
    ensures v / d == a
  {
    var q := v / d;
    assert d * (q - a) == rest - v % d;
    if q > a { AtLeastOnce(d, q - a); } else if q < a { AtLeastOnce(d, a - q); }
  }

  lemma AtLeastOnce(d: nat, k: nat)
    requires k > 0
    ensures d * k >= d
  {
  }

  /** Decoding undoes encoding for every value that fits. */
  lemma {:induction false} UnLe(v: nat, n: nat)
    requires v < Pow(n)
    ensures Un(Le(v, n)) == v
  {
    if n > 0 {
      UnLe(v / 256, n - 1);
      assert Le(v, n)[1..] == Le(v / 256, n - 1);
    }
  }

  /** Encoding undoes decoding, and a decoded value always fits. */
  lemma {:induction false} LeUn(s: Bytes)
    ensures Le(Un(s), |s|) == s && Un(s) < Pow(|s|)
  {
    if s != [] {
      LeUn(s[1..]);
      assert s == [s[0]] + s[1..];
    }
  }

  lemma UnInjective(s: Bytes, t: Bytes)
    requires |s| == |t| && s != t
    ensures Un(s) != Un(t)
  {
    LeUn(s);
    LeUn(t);
  }

  // ---- Exclusive or, bit by bit ------------------------------------------------------

  function XorBits(a: nat, b: nat, n: nat): nat {
    if n == 0 then 0 else (a + b) % 2 + 2 * XorBits(a / 2, b / 2, n - 1)
  }

  function TwoTo(n: nat): nat {
    if n == 0 then 1 else 2 * TwoTo(n - 1)
  }

  lemma Parity(a: nat, b: nat, x: nat)
    requires x % 2 == (a + b) % 2
    ensures (x + b) % 2 == a % 2 && (a + x) % 2 == b % 2
  {
  }

  /** One unfolding of the bitwise definition. */
  lemma XorStep(a: nat, b: nat, n: nat)
    requires n > 0
    ensures var x := XorBits(a, b, n); x / 2 == XorBits(a / 2, b / 2, n - 1) && x % 2 == (a + b) % 2
  {
  }

  /** Exclusive or with the same value twice gives back the low bits, from either side. */
  lemma {:induction false} XorTwice(a: nat, b: nat, n: nat)
    requires a < TwoTo(n) && b < TwoTo(n)
    ensures XorBits(a, b, n) < TwoTo(n)
    ensures XorBits(XorBits(a, b, n), b, n) == a && XorBits(a, XorBits(a, b, n), n) == b
  {
    if n > 0 {
      XorTwice(a / 2, b / 2, n - 1);
      var x := XorBits(a, b, n);
      XorStep(a, b, n);
      Parity(a, b, x);
      assert XorBits(x, b, n) == (x + b) % 2 + 2 * XorBits(x / 2, b / 2, n - 1);
      assert XorBits(a, x, n) == (a + x) % 2 + 2 * XorBits(a / 2, x / 2, n - 1);
    }
  }

  const BITS: nat := 8

  function Xor(a: Byte, b: Byte): Byte
  {
    XorByte(a, b);
    XorBits(a, b, BITS)
  }

  lemma XorByte(a: Byte, b: Byte)
    ensures XorBits(a, b, BITS) < 256
    ensures XorBits(XorBits(a, b, BITS), b, BITS) == a && XorBits(a, XorBits(a, b, BITS), BITS) == b
  {
    assert TwoTo(BITS) == 256;
    XorTwice(a, b, BITS);
  }

  // ---- FNV-1a ------------------------------------------------------------------------

  const M32: nat := 0x1_0000_0000
  const FNV_OFFSET: nat := 2166136261
  const FNV_PRIME: nat := 16777619
  /** FNV_PRIME * FNV_INVERSE leaves remainder one modulo two to the 32nd. */
  const FNV_INVERSE: nat := 899433627
  const FNV_QUOTIENT: nat := 3513497

  /** Exclusive or of a 32-bit value with a byte. */
  function XorLow(h: nat, b: Byte): nat {
    h - h % 256 + Xor(h % 256, b)
  }

  function FnvStep(h: nat, b: Byte): (r: nat)
    ensures r < M32
  {
    XorLow(h, b) * FNV_PRIME % M32
  }

  function Checksum(s: Bytes): (r: nat)
    ensures r < M32
  {
    if s == [] then FNV_OFFSET else FnvStep(Checksum(s[..|s| - 1]), s[|s| - 1])
  }

  /** Multiplying by the prime can be undone modulo two to the 32nd. */
  lemma MulUndone(x: nat)
    requires x < M32
    ensures (x * FNV_PRIME % M32) * FNV_INVERSE % M32 == x
  {
    var q, r := x * FNV_PRIME / M32, x * FNV_PRIME % M32;
    assert FNV_PRIME * FNV_INVERSE == 1 + FNV_QUOTIENT * M32;
    assert r == x * FNV_PRIME - q * M32;
    assert r * FNV_INVERSE == x * FNV_PRIME * FNV_INVERSE - q * M32 * FNV_INVERSE;
    assert x * FNV_PRIME * FNV_INVERSE == x * (1 + FNV_QUOTIENT * M32);
    assert r * FNV_INVERSE == x + M32 * (x * FNV_QUOTIENT - q * FNV_INVERSE);
    ModUnique(r * FNV_INVERSE, x, x * FNV_QUOTIENT - q * FNV_INVERSE);
  }

  lemma ModUnique(v: int, x: nat, k: int)
    requires v == x + M32 * k && x < M32
    ensures v % M32 == x
  {
  }

  lemma XorLowUndone(h: nat, b: Byte)
    requires h < M32
    ensures XorLow(h, b) < M32 && XorLow(XorLow(h, b), b) == h
    ensures Xor(h % 256, XorLow(h, b) % 256) == b
  {
    XorByte(h % 256, b);
    var x: nat := Xor(h % 256, b);
    SplitByte(h / 256, x);
    assert XorLow(h, b) == 256 * (h / 256) + x;
    assert Xor(x, b) == h % 256;
  }

  lemma SplitByte(q: nat, x: nat)
    requires x < 256
    ensures (256 * q + x) % 256 == x && 256 * q + x - x == 256 * q
  {
  }

  /** Each step of the checksum is injective in the running value and in the byte. */
  lemma StepInjective(h: nat, b: Byte, g: nat, c: Byte)
    requires h < M32 && g < M32 && FnvStep(h, b) == FnvStep(g, c)
    ensures b == c ==> h == g
    ensures h == g ==> b == c
  {
    XorLowUndone(h, b);
    XorLowUndone(g, c);
    MulUndone(XorLow(h, b));
    MulUndone(XorLow(g, c));
  }

  /** Changing exactly one byte changes the checksum. */
  lemma {:induction false} ChecksumDetects(s: Bytes, t: Bytes, i: nat)
    requires |s| == |t| && i < |s| && s[i] != t[i] && forall j :: 0 <= j < |s| && j != i ==> s[j] == t[j]
    ensures Checksum(s) != Checksum(t)
  {
    var n := |s| - 1;
    if i == n {
      assert s[..n] == t[..n];
      if Checksum(s) == Checksum(t) { StepInjective(Checksum(s[..n]), s[n], Checksum(t[..n]), t[n]); }
    } else {
      ChecksumDetects(s[..n], t[..n], i);
      if Checksum(s) == Checksum(t) { StepInjective(Checksum(s[..n]), s[n], Checksum(t[..n]), t[n]); }
    }
  }

  /** The checksum as it is computed, one byte after the other. */
  method ComputeChecksum(s: Bytes) returns (value: nat)
    ensures value == Checksum(s)
  {
    value := FNV_OFFSET;
    for i := 0 to |s|
      invariant value == Checksum(s[..i])
    {
      value := value - value % 256 + Xor(value % 256, s[i]);
      value := value * FNV_PRIME % M32;
      assert s[..i + 1][..i] == s[..i];
    }
    assert s[..|s|] == s;
  }

  lemma XorVector()
    ensures Xor(197, 97) == 164
  {
    assert XorBits(1, 0, 1) == 1 && XorBits(3, 1, 2) == 2 && XorBits(6, 3, 3) == 5 && XorBits(12, 6, 4) == 10;
    assert XorBits(24, 12, 5) == 20 && XorBits(49, 24, 6) == 41 && XorBits(98, 48, 7) == 82;
  }

  lemma FnvStepVector()
    ensures FnvStep(0x811C_9DC5, 97) == 0xE40C_292C
  {
    XorVector();
    assert 0x811C_9DC5 % 256 == 197;
    var x: nat := XorLow(0x811C_9DC5, 97);
    assert x == 0x811C_9DA4;
    ModUnique(x * FNV_PRIME, 0xE40C_292C, 8461672);
  }

  /** Two published values of the 32-bit FNV-1a function: of nothing, and of the letter a. */
  lemma FnvVectors()
    ensures Checksum([]) == 0x811C_9DC5 && Checksum([97]) == 0xE40C_292C
  {
    assert [97][..0] == [];
    FnvStepVector();
  }
}
