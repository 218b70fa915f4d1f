/** Numbers as octet strings: big-endian, two's complement, and what of them the low octets keep. */
module Numbers {
  import opened Words

  // ------------------------------------------------------------------ big-endian numbers

  function Pow256(n: nat): (p: nat)
    ensures p > 0
  {
    if n == 0 then 1 else 256 * Pow256(n - 1)
  }

  function BeVal(s: seq<byte>): nat {
    if s == [] then 0 else BeVal(s[..|s| - 1]) * 256 + s[|s| - 1]
  }

  function BeBytes(v: nat, n: nat): (s: seq<byte>)
    ensures |s| == n
  {
    if n == 0 then [] else BeBytes(v / 256, n - 1) + [v % 256]
  }

  lemma {:induction false} BeRoundTrip(v: nat, n: nat)
    requires v < Pow256(n)
    ensures BeVal(BeBytes(v, n)) == v
  {
    if n > 0 {
      BeRoundTrip(v / 256, n - 1);
      var s := BeBytes(v, n);
      assert s[..n - 1] == BeBytes(v / 256, n - 1);
    }
  }

  lemma {:induction false} BeBytesOfVal(s: seq<byte>)
    ensures BeVal(s) < Pow256(|s|)
    ensures BeBytes(BeVal(s), |s|) == s
  {
    if s != [] {
      var n := |s| - 1;
      BeBytesOfVal(s[..n]);
      assert s == s[..n] + [s[n]];
    }
  }

  lemma BeValSnoc(s: seq<byte>, b: byte)
    ensures BeVal(s + [b]) == BeVal(s) * 256 + b
  {
    assert (s + [b])[..|s|] == s;
  }

  lemma BeValNext(s: seq<byte>, i: nat)
    requires i < |s|
    ensures BeVal(s[..i + 1]) == BeVal(s[..i]) * 256 + s[i]
  {
    assert s[..i + 1] == s[..i] + [s[i]];
    BeValSnoc(s[..i], s[i]);
  }

  /** The low `m` octets of a longer big-endian string stand for the number's remainder. */
  lemma {:induction false} BeBytesTail(v: nat, n: nat, m: nat)
    requires m <= n
    ensures BeBytes(v, n)[n - m..] == BeBytes(v % Pow256(m), m)
  {
    if m > 0 {
      BeBytesTail(v / 256, n - 1, m - 1);
      var p := Pow256(m - 1);
      DivModParts(v, p);
      assert BeBytes(v, n)[n - m..] == BeBytes(v / 256, n - 1)[n - m..] + [v % 256];
    }
  }

  lemma DivModParts(v: nat, p: nat)
    requires p > 0
    ensures (v % (256 * p)) / 256 == (v / 256) % p
    ensures (v % (256 * p)) % 256 == v % 256
  {
    var a, b := v / 256, v % 256;
    var q, r := a / p, a % p;
    assert a == p * q + r;
    assert v == 256 * (p * q) + (256 * r + b);
    assert 256 * (p * q) == (256 * p) * q;
    QuotientUnique(v, q, 256 * r + b, 256 * p);
  }

  lemma PowersOf256()
    ensures Pow256(1) == 0x100 && Pow256(2) == 0x1_0000 && Pow256(3) == 0x100_0000 && Pow256(4) == 0x1_0000_0000
  {
    assert Pow256(0) == 1;
    assert Pow256(1) == 256 * Pow256(0);
    assert Pow256(2) == 256 * Pow256(1);
    assert Pow256(3) == 256 * Pow256(2);
    assert Pow256(4) == 256 * Pow256(3);
  }

  function UnsignedLength(v: u32): nat {
    if v < 0x100 then 1 else if v < 0x1_0000 then 2 else if v < 0x100_0000 then 3 else 4
  }

  lemma BeStep(v: nat, n: nat)
    ensures BeBytes(v, 0) == [] && BeBytes(v, n + 1) == BeBytes(v / 256, n) + [v % 256]
  {
  }

  lemma TwoBytes(v: u16)
    ensures BeBytes(v, 2) == [v / 0x100, v % 0x100]
  {
    assert BeBytes(v / 256, 0 + 1) == BeBytes(v / 256 / 256, 0) + [v / 256];
  }

  lemma NestedQuotients(u: u32)
    ensures u / 256 / 256 == u / 0x1_0000
    ensures u / 0x1_0000 / 256 == u / 0x100_0000
    ensures u / 0x100_0000 < 0x100
  {
  }

  lemma FourBytes(u: u32)
    ensures BeBytes(u, 4) == [u / 0x100_0000, u / 0x1_0000 % 0x100, u / 0x100 % 0x100, u % 0x100]
  {
    hide BeBytes;
    NestedQuotients(u);
    BeStep(u, 3);
    BeStep(u / 0x100, 2);
    BeStep(u / 0x1_0000, 1);
    BeStep(u / 0x100_0000, 0);
    SmallRemainder(u / 0x100_0000);
  }

  lemma SmallRemainder(b: nat)
    ensures b < 0x100 ==> b % 0x100 == b
    ensures BeBytes(b / 256, 0) == []
  {
  }

  lemma LengthFits(v: u32)
    ensures v < Pow256(UnsignedLength(v)) && v < Pow256(4)
  {
    PowersOf256();
  }

  /** A number's fewest octets are the low ones of its four. */
  lemma LowOctets(v: u32)
    ensures BeBytes(v, UnsignedLength(v)) == BeBytes(v, 4)[4 - UnsignedLength(v)..]
  {
    hide BeBytes, Pow256, UnsignedLength;
    var n := UnsignedLength(v);
    LengthFits(v);
    UpToFour(v);
    BeBytesTail(v, 4, n);
    SmallMod(v, Pow256(n));
  }

  lemma UpToFour(v: u32)
    ensures 1 <= UnsignedLength(v) <= 4
  {
  }

  lemma SmallMod(v: nat, p: nat)
    requires v < p
    ensures v % p == v
  {
  }

  lemma FourOctets(s: seq<byte>)
    requires |s| <= 4
    ensures BeVal(s) < 0x1_0000_0000
  {
    BeBytesOfVal(s);
    Pow256Monotone(|s|, 4);
    PowersOf256();
  }

  // ------------------------------------------------------------------ short strings, octet by octet

  lemma BeValLast(s: seq<byte>)
    requires s != []
    ensures BeVal(s) == BeVal(s[..|s| - 1]) * 256 + s[|s| - 1] as int
  {
  }

  lemma OneOctetValue(s: seq<byte>)
    requires |s| == 1
    ensures BeVal(s) == s[0]
  {
    BeValLast(s);
    assert BeVal([]) == 0;
  }

  lemma TwoOctetValue(s: seq<byte>)
    requires |s| == 2
    ensures BeVal(s) == s[0] as int * 0x100 + s[1] as int
  {
    hide BeVal;
    BeValLast(s);
    OneOctetValue(s[..1]);
  }

  lemma FourOctetValue(s: seq<byte>)
    requires |s| == 4
    ensures BeVal(s) == s[0] as int * 0x100_0000 + s[1] as int * 0x1_0000 + s[2] as int * 0x100 + s[3] as int
    ensures BeVal(s) < 0x8000_0000 <==> s[0] < 0x80
  {
    hide BeVal;
    BeValLast(s);
    BeValLast(s[..3]);
    TwoOctetValue(s[..2]);
    assert s[..3][..2] == s[..2];
  }

  // ------------------------------------------------------------------ two's complement

  /** `v` is representable in `n` two's-complement octets. */
  predicate SignedFits(v: int, n: nat) {
    n > 0 && 0 <= 2 * v + Pow256(n) && 2 * v < Pow256(n)
  }

  /** The two's-complement value of an octet string. */
  function SignedVal(s: seq<byte>): int {
    if s != [] && s[0] >= 0x80 then BeVal(s) - Pow256(|s|) else BeVal(s)
  }

  /** The top octet decides the sign. */
  lemma {:induction false} TopOctet(s: seq<byte>)
    requires s != []
    ensures s[0] >= 0x80 <==> 2 * BeVal(s) >= Pow256(|s|)
    ensures BeVal(s) < Pow256(|s|)
  {
    BeBytesOfVal(s);
    var n := |s| - 1;
    if n == 0 {
      assert s[..0] == [];
      assert BeVal(s) == s[0];
      PowersOf256();
    } else {
      TopOctet(s[..n]);
      TopStep(BeVal(s[..n]), 128 * Pow256(n - 1), s[n]);
    }
  }

  lemma TopStep(v: nat, half: nat, b: byte)
    ensures 2 * (v * 256 + b) >= 256 * (2 * half) <==> 2 * v >= 2 * half
  {
  }

  /** Every octet string stands for a number its length can represent. */
  lemma SignedValFits(s: seq<byte>)
    requires s != []
    ensures SignedFits(SignedVal(s), |s|)
  {
    TopOctet(s);
  }

  lemma {:induction false} Pow256Monotone(m: nat, n: nat)
    requires m <= n
    ensures Pow256(m) <= Pow256(n)
  {
    if m < n {
      Pow256Monotone(m, n - 1);
    }
  }

  lemma TwosComplement(v: int, p: nat)
    requires p > 0 && 0 <= 2 * v + p && 2 * v < p
    ensures v % p == if v < 0 then v + p else v
    ensures 2 * (v % p) >= p <==> v < 0
  {
  }

  /** Octets below sign octets that are all set or all clear. */
  ghost function Filled(s: seq<byte>, fill: int): int {
    BeVal(s) + fill * Pow256(|s|)
  }

  lemma NothingShifted(bytes: seq<byte>, fill: int)
    ensures Filled(bytes[..0], fill) == fill
  {
    assert Pow256(0) == 1;
  }

  lemma ShiftIn(bytes: seq<byte>, fill: int, i: nat)
    requires i < |bytes|
    ensures Filled(bytes[..i + 1], fill) == Filled(bytes[..i], fill) * 256 + bytes[i]
  {
    BeValNext(bytes, i);
    assert Pow256(i + 1) == 256 * Pow256(i);
    hide BeVal, Pow256;
    assert fill * (256 * Pow256(i)) == (fill * Pow256(i)) * 256;
  }

  lemma LowPart(v: int)
    ensures (v % WRAP) % 0x100 == v % 0x100 && (v % WRAP) % 0x1_0000 == v % 0x1_0000
    ensures (v % WRAP) % 0x100_0000 == v % 0x100_0000 && (v % WRAP) % WRAP == v % WRAP
  {
    var u := v - WRAP * (v / WRAP);
    LowPartOf(u, v / WRAP, 0x100, 0x100_0000);
    LowPartOf(u, v / WRAP, 0x1_0000, 0x1_0000);
    LowPartOf(u, v / WRAP, 0x100_0000, 0x100);
  }

  lemma LowPartOf(u: int, q: int, m: nat, k: nat)
    requires 0 < m && 0 <= u
    ensures (u + (m * k) * q) % m == u % m
  {
    var a, r := u / m, u % m;
    assert u == m * a + r;
    assert (m * k) * q == m * (k * q);
    var x := u + (m * k) * q;
    assert x == m * (a + k * q) + r by { assert m * (a + k * q) == m * a + m * (k * q); }
    QuotientUnique(x, a + k * q, r, m);
  }

  lemma {:induction false} MultipleBounds(d: int, n: int)
    requires 0 < n
    ensures d > 0 ==> d * n >= n
    ensures d < 0 ==> d * n <= -n
    decreases if d < 0 then -d else d
  {
    if d > 1 {
      MultipleBounds(d - 1, n);
      assert d * n == (d - 1) * n + n;
    } else if d < -1 {
      MultipleBounds(d + 1, n);
      assert d * n == (d + 1) * n - n;
    }
  }

  lemma QuotientUnique(x: int, q: int, r: int, m: nat)
    requires 0 <= r < m && x == m * q + r
    ensures x % m == r
  {
    var d := x / m - q;
    assert x == m * (x / m) + x % m;
    assert d * m == m * (x / m) - m * q;
    MultipleBounds(d, m);
  }
}
