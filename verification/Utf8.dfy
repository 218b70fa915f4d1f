/** UTF-8 by section 3 of RFC 3629, and that the octets the bridge takes for well-formed text are just that. */
module Utf8 {
  import opened Words
  import opened Bacnet

  /** A character in UTF-8 (section 3 of RFC 3629). */
  function Utf8Octets(c: char): (s: seq<byte>)
    ensures 1 <= |s| <= 4
  {
    var n := c as int;
    if n <= 0x7F then [n]
    else if n <= 0x7FF then [0xC0 + n / 0x40, 0x80 + n % 0x40]
    else if n <= 0xFFFF then [0xE0 + n / 0x1000, 0x80 + n / 0x40 % 0x40, 0x80 + n % 0x40]
    else [0xF0 + n / 0x4_0000, 0x80 + n / 0x1000 % 0x40, 0x80 + n / 0x40 % 0x40, 0x80 + n % 0x40]
  }

  function Encoded(text: seq<char>): seq<byte> {
    if text == [] then [] else Utf8Octets(text[0]) + Encoded(text[1..])
  }

  // ------------------------------------------------------------------ every character is well-formed

  lemma OctetsAreChar(c: char, rest: seq<byte>)
    ensures CharLength(Utf8Octets(c) + rest) == |Utf8Octets(c)|
  {
    var n := c as int;
    if n <= 0x7FF {
    } else if n <= 0xFFFF {
      ThreeOctets(n);
    } else {
      FourOctetsOf(n);
    }
  }

  lemma ThreeOctets(n: int)
    requires 0x800 <= n <= 0xFFFF && !(0xD800 <= n < 0xE000)
    ensures n / 0x1000 == 0 ==> n / 0x40 % 0x40 >= 0x20
    ensures n / 0x1000 == 0xD ==> n / 0x40 % 0x40 < 0x20
  {
    assert n / 0x1000 == n / 0x40 / 0x40;
    assert n / 0x40 == n / 0x1000 * 0x40 + n / 0x40 % 0x40;
  }

  lemma FourOctetsOf(n: int)
    requires 0x1_0000 <= n <= 0x10_FFFF
    ensures n / 0x4_0000 == 0 ==> n / 0x1000 % 0x40 >= 0x10
    ensures n / 0x4_0000 == 4 ==> n / 0x1000 % 0x40 < 0x10
    ensures n / 0x4_0000 <= 4
  {
    assert n / 0x4_0000 == n / 0x1000 / 0x40;
    assert n / 0x1000 == n / 0x4_0000 * 0x40 + n / 0x1000 % 0x40;
  }

  lemma {:induction false} TextIsValid(text: seq<char>)
    ensures Utf8Valid(Encoded(text))
  {
    if text != [] {
      var a, b := Utf8Octets(text[0]), Encoded(text[1..]);
      OctetsAreChar(text[0], b);
      TextIsValid(text[1..]);
      assert (a + b)[|a|..] == b;
    }
  }

  // ------------------------------------------------------------------ and nothing else is

  /** The number that the bits of a sequence say. */
  function CodePoint(s: seq<byte>): int
    requires 1 <= |s| <= 4
  {
    if |s| == 1 then s[0]
    else if |s| == 2 then (s[0] as int - 0xC0) * 0x40 + (s[1] as int - 0x80)
    else if |s| == 3 then (s[0] as int - 0xE0) * 0x1000 + (s[1] as int - 0x80) * 0x40 + (s[2] as int - 0x80)
    else (s[0] as int - 0xF0) * 0x4_0000 + (s[1] as int - 0x80) * 0x1000 + (s[2] as int - 0x80) * 0x40
         + (s[3] as int - 0x80)
  }

  lemma Digits(a: nat, b: nat, c: nat, d: nat)
    requires b < 0x40 && c < 0x40 && d < 0x40
    ensures var n := a * 0x4_0000 + b * 0x1000 + c * 0x40 + d;
            && n % 0x40 == d && n / 0x40 % 0x40 == c && n / 0x1000 % 0x40 == b && n / 0x4_0000 == a
            && (a == 0 ==> n / 0x1000 == b) && (a == 0 && b == 0 ==> n / 0x40 == c)
  {
    var n := a * 0x4_0000 + b * 0x1000 + c * 0x40 + d;
    assert n / 0x40 == a * 0x1000 + b * 0x40 + c;
    assert n / 0x1000 == a * 0x40 + b;
  }

  lemma CharIsOctets(s: seq<byte>)
    requires CharLength(s) > 0
    ensures var n := CodePoint(s[..CharLength(s)]);
            && 0 <= n <= 0x10_FFFF && !(0xD800 <= n < 0xE000) && s[..CharLength(s)] == Utf8Octets(n as char)
  {
    var k := CharLength(s);
    if k == 1 {
    } else if k == 2 {
      TwoOctetChar(s[0], s[1]);
    } else if k == 3 {
      ThreeOctetChar(s[0], s[1], s[2]);
    } else {
      FourOctetChar(s[0], s[1], s[2], s[3]);
    }
    hide CharLength, CodePoint, Utf8Octets;
    Display(s, k);
  }

  lemma Display(s: seq<byte>, k: nat)
    requires k <= |s|
    ensures k == 1 ==> s[..k] == [s[0]]
    ensures k == 2 ==> s[..k] == [s[0], s[1]]
    ensures k == 3 ==> s[..k] == [s[0], s[1], s[2]]
    ensures k == 4 ==> s[..k] == [s[0], s[1], s[2], s[3]]
  {
  }

  lemma TwoOctetChar(a: byte, b: byte)
    requires 0xC2 <= a < 0xE0 && Continues(b)
    ensures var n := CodePoint([a, b]); 0x80 <= n <= 0x7FF && Utf8Octets(n as char) == [a, b]
  {
    Digits(0, 0, a - 0xC0, b - 0x80);
  }

  lemma ThreeOctetChar(a: byte, b: byte, c: byte)
    requires 0xE0 <= a < 0xF0 && Continues(b) && Continues(c) && (a == 0xE0 ==> b >= 0xA0) && (a == 0xED ==> b < 0xA0)
    ensures var n := CodePoint([a, b, c]);
            0x800 <= n <= 0xFFFF && !(0xD800 <= n < 0xE000) && Utf8Octets(n as char) == [a, b, c]
  {
    Digits(0, a - 0xE0, b - 0x80, c - 0x80);
  }

  lemma FourOctetChar(a: byte, b: byte, c: byte, d: byte)
    requires 0xF0 <= a < 0xF5 && Continues(b) && Continues(c) && Continues(d)
    requires (a == 0xF0 ==> b >= 0x90) && (a == 0xF4 ==> b < 0x90)
    ensures var n := CodePoint([a, b, c, d]);
            0x1_0000 <= n <= 0x10_FFFF && Utf8Octets(n as char) == [a, b, c, d]
  {
    Digits(a - 0xF0, b - 0x80, c - 0x80, d - 0x80);
  }

  lemma {:induction false} ValidIsText(s: seq<byte>) returns (text: seq<char>)
    requires Utf8Valid(s)
    ensures Encoded(text) == s
  {
    if s == [] {
      text := [];
    } else {
      var k := CharLength(s);
      CharIsOctets(s);
      var more := ValidIsText(s[k..]);
      var c := CodePoint(s[..k]) as char;
      text := [c] + more;
      assert text[1..] == more && s == s[..k] + s[k..];
    }
  }

  /** Octets are taken for text if, and only if, they are some characters encoded. */
  lemma ValidExactly(s: seq<byte>)
    ensures Utf8Valid(s) <==> exists text :: Encoded(text) == s
  {
    if Utf8Valid(s) {
      var text := ValidIsText(s);
    }
    forall text | Encoded(text) == s
      ensures Utf8Valid(s)
    {
      TextIsValid(text);
    }
  }

  /** A boundary of a text is where some of its characters end. */
  lemma {:induction false} BoundaryExactly(text: seq<char>, k: nat)
    requires k <= |Encoded(text)|
    ensures CharBoundary(Encoded(text), k) <==> exists n :: 0 <= n <= |text| && |Encoded(text[..n])| == k
  {
    if k == 0 {
      assert text[..0] == [];
      assert |Encoded(text[..0])| == 0;
    } else {
      var a, rest := |Utf8Octets(text[0])|, text[1..];
      var s := Encoded(text);
      assert s[a..] == Encoded(rest);
      if k < a {
        OctetsAreChar(text[0], Encoded(rest));
        forall n | 0 <= n <= |text|
          ensures |Encoded(text[..n])| != k
        {
          if n > 0 {
            assert text[..n][0] == text[0] && text[..n][1..] == rest[..n - 1];
          } else {
            assert text[..n] == [];
          }
        }
      } else {
        BoundaryExactly(rest, k - a);
        SameBoundary(text, k);
        EndsLater(text, k, a);
      }
    }
  }

  lemma EncodedUnfolds(text: seq<char>)
    requires text != []
    ensures Encoded(text) == Utf8Octets(text[0]) + Encoded(text[1..])
  {
    hide Utf8Octets;
  }

  lemma StartsNoContinuation(text: seq<char>)
    requires Encoded(text) != []
    ensures !Continues(Encoded(text)[0])
  {
    hide Utf8Octets, CharLength;
    OctetsAreChar(text[0], Encoded(text[1..]));
    EncodedUnfolds(text);
    hide Encoded;
    FirstOfChar(Encoded(text));
  }

  lemma FirstOfChar(s: seq<byte>)
    requires CharLength(s) > 0
    ensures s != [] && !Continues(s[0])
  {
    hide CharLength;
  }

  lemma BoundaryBehind(a: seq<byte>, t: seq<byte>, k: nat)
    requires |a| <= k <= |a + t| && a != [] && (t != [] ==> !Continues(t[0]))
    ensures CharBoundary(a + t, k) <==> CharBoundary(t, k - |a|)
  {
    if k < |a + t| {
      assert (a + t)[k] == t[k - |a|];
    }
  }

  lemma SameBoundary(text: seq<char>, k: nat)
    requires text != [] && |Utf8Octets(text[0])| <= k <= |Encoded(text)|
    ensures CharBoundary(Encoded(text), k)
            <==> CharBoundary(Encoded(text[1..]), k - |Utf8Octets(text[0])|)
  {
    hide Encoded, Utf8Octets, CharBoundary, Continues;
    EncodedUnfolds(text);
    if Encoded(text[1..]) != [] {
      StartsNoContinuation(text[1..]);
    }
    BoundaryBehind(Utf8Octets(text[0]), Encoded(text[1..]), k);
  }

  lemma EndsLater(text: seq<char>, k: nat, a: nat)
    requires text != [] && a == |Utf8Octets(text[0])| <= k
    ensures (exists n :: 0 <= n <= |text| && |Encoded(text[..n])| == k)
            <==> exists n :: 0 <= n <= |text[1..]| && |Encoded(text[1..][..n])| == k - a
  {
    var rest := text[1..];
    assert text[..0] == [];
    assert |Encoded(text[..0])| == 0;
    if n :| 0 <= n <= |text| && |Encoded(text[..n])| == k {
      assert text[..n][0] == text[0] && text[..n][1..] == rest[..n - 1];
      assert |Encoded(rest[..n - 1])| == k - a;
    }
    if n :| 0 <= n <= |rest| && |Encoded(rest[..n])| == k - a {
      assert text[..n + 1][0] == text[0] && text[..n + 1][1..] == rest[..n];
      assert |Encoded(text[..n + 1])| == k;
    }
  }
}
