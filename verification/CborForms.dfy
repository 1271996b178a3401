/**
 The bytes of the codec, against the standards.

 - heads and their arguments (section 3 of RFC 8949)
 - floats, of which one NaN is admitted
 - text as UTF-8 (section 3 of RFC 3629)
 - examples from Appendix A of RFC 8949
 */
module CborForms {
  import opened Prelude
  import opened Cbor

  // ----- Heads -----

  function Digit(s: seq<byte>, i: nat): int
    requires i < |s|
  {
    s[i]
  }

  /** The argument is in the low five bits, or in 1, 2, 4 or 8 bytes after them, highest first. */
  ghost predicate HeadShape(h: seq<byte>, major: nat, n: nat) {
    var top := 32 * major;
    if n < 24 then h == [top + n]
    else if n < 256 then h == [top + 24, n]
    else if n < 65_536 then |h| == 3 && h[0] == top + 25 && n == 256 * Digit(h, 1) + Digit(h, 2)
    else if n < 4_294_967_296 then
      && |h| == 5 && h[0] == top + 26
      && n == 0x100_0000 * Digit(h, 1) + 0x1_0000 * Digit(h, 2) + 0x100 * Digit(h, 3) + Digit(h, 4)
    else
      && |h| == 9 && h[0] == top + 27
      && n == 0x100_0000_0000_0000 * Digit(h, 1) + 0x1_0000_0000_0000 * Digit(h, 2) + 0x100_0000_0000 * Digit(h, 3)
            + 0x1_0000_0000 * Digit(h, 4) + 0x100_0000 * Digit(h, 5) + 0x1_0000 * Digit(h, 6) + 0x100 * Digit(h, 7)
            + Digit(h, 8)
  }

  lemma {:induction false} Digits(n: nat, k: nat)
    requires k > 0
    ensures BigEndian(n, k)[k - 1] == n % 256 && BigEndian(n, k)[..k - 1] == BigEndian(n / 256, k - 1)
  {
  }

  lemma Two(n: nat)
    requires n < 65_536
    ensures n == 256 * Digit(BigEndian(n, 2), 0) + Digit(BigEndian(n, 2), 1)
  {
    Digits(n, 2);
    Digits(n / 256, 1);
  }

  lemma Four(n: nat)
    requires n < 4_294_967_296
    ensures var h := BigEndian(n, 4);
      n == 0x100_0000 * Digit(h, 0) + 0x1_0000 * Digit(h, 1) + 0x100 * Digit(h, 2) + Digit(h, 3)
  {
    Digits(n, 4);
    Digits(n / 256, 3);
    var h, top := BigEndian(n, 4), BigEndian(n / 256 / 256, 2);
    Two(n / 256 / 256);
    assert h[..3][..2] == top;
    assert h[0] == top[0] && h[1] == top[1];
  }

  lemma Eight(n: nat)
    requires n < U64
    ensures var h := BigEndian(n, 8);
      n == 0x100_0000_0000_0000 * Digit(h, 0) + 0x1_0000_0000_0000 * Digit(h, 1) + 0x100_0000_0000 * Digit(h, 2)
         + 0x1_0000_0000 * Digit(h, 3) + 0x100_0000 * Digit(h, 4) + 0x1_0000 * Digit(h, 5) + 0x100 * Digit(h, 6)
         + Digit(h, 7)
  {
    var m := n / 256 / 256 / 256 / 256;
    Digits(n, 8);
    Digits(n / 256, 7);
    Digits(n / 256 / 256, 6);
    Digits(n / 256 / 256 / 256, 5);
    Four(m);
    var h := BigEndian(n, 8);
    assert h[..7][..6][..5][..4] == BigEndian(m, 4);
    assert forall i | 0 <= i < 4 :: h[i] == h[..7][..6][..5][..4][i];
  }

  /** A head is the shortest of the five forms that holds its argument, highest byte first. */
  lemma HeadExact(major: nat, n: nat)
    requires major < 8 && n < U64
    ensures HeadShape(Head(major, n), major, n)
  {
    hide BigEndian;
    if 24 <= n < 256 {
      Digits(n, 1);
    } else if 256 <= n < 65_536 {
      Two(n);
    } else if 65_536 <= n < 4_294_967_296 {
      Four(n);
    } else if n >= 4_294_967_296 {
      Eight(n);
    }
  }

  // ----- Floats -----

  /** All eleven exponent bits set and a non-zero fraction. */
  predicate IsNan(bits: seq<byte>)
    requires |bits| == 8
  {
    bits[0] % 128 == 127 && bits[1] >= 0xf0 && (bits[1] > 0xf0 || bits[2..] != [0, 0, 0, 0, 0, 0])
  }

  lemma {:induction false} Horner(s: seq<byte>)
    requires |s| > 0
    ensures FromBigEndian(s) == 256 * FromBigEndian(s[..|s| - 1]) + Digit(s, |s| - 1)
  {
  }

  lemma EightBytes(s: seq<byte>)
    requires |s| == 8
    ensures FromBigEndian(s) ==
      0x100_0000_0000_0000 * Digit(s, 0) + 0x1_0000_0000_0000 * Digit(s, 1) + 0x100_0000_0000 * Digit(s, 2)
      + 0x1_0000_0000 * Digit(s, 3) + 0x100_0000 * Digit(s, 4) + 0x1_0000 * Digit(s, 5) + 0x100 * Digit(s, 6)
      + Digit(s, 7)
  {
    Horner(s);
    Horner(s[..7]);
    Horner(s[..7][..6]);
    Horner(s[..7][..6][..5]);
    Horner(s[..7][..6][..5][..4]);
    Horner(s[..7][..6][..5][..4][..3]);
    Horner(s[..7][..6][..5][..4][..3][..2]);
    Horner(s[..7][..6][..5][..4][..3][..2][..1]);
  }

  lemma Fields(n: nat, high: nat, low: nat)
    requires low < 0x10_0000_0000_0000 && n == 0x10_0000_0000_0000 * high + low
    ensures n / 0x10_0000_0000_0000 == high && n % 0x10_0000_0000_0000 == low
  {
  }

  /** The one NaN admitted is the quiet one without payload. */
  lemma FloatExact(bits: seq<byte>)
    requires |bits| == 8
    ensures CanonicalFloat(bits) <==> IsNan(bits) ==> bits == [0x7f, 0xf8, 0, 0, 0, 0, 0, 0]
  {
    EightBytes(bits);
    var n := FromBigEndian(bits);
    var b0, b1 := Digit(bits, 0), Digit(bits, 1);
    var rest := 0x100_0000_0000 * Digit(bits, 2) + 0x1_0000_0000 * Digit(bits, 3) + 0x100_0000 * Digit(bits, 4)
                + 0x1_0000 * Digit(bits, 5) + 0x100 * Digit(bits, 6) + Digit(bits, 7);
    hide FromBigEndian;
    Fields(n, 16 * b0 + b1 / 16, 0x1_0000_0000_0000 * (b1 % 16) + rest);
    ExponentOf(b0, b1);
    assert rest == 0 <==> bits[2..] == [0, 0, 0, 0, 0, 0];
  }

  lemma ExponentOf(b0: byte, b1: byte)
    ensures (16 * b0 + b1 / 16) % 0x800 == 0x7ff <==> b0 % 128 == 127 && b1 >= 0xf0
  {
    var low := 16 * (b0 % 128) + b1 / 16;
    assert 16 * b0 + b1 / 16 == 0x800 * (b0 / 128) + low && low < 0x800;
    assert (16 * b0 + b1 / 16) % 0x800 == low;
  }

  // ----- Text -----

  /** Code points that are characters: no surrogates. */
  predicate Scalar(c: nat) { c < 0xd800 || 0xe000 <= c < 0x11_0000 }

  /** One character: 7 bits in one byte, 11 in two, 16 in three, 21 in four. */
  function Spelt(c: nat): seq<byte>
    requires Scalar(c)
  {
    if c < 0x80 then [c]
    else if c < 0x800 then [0xc0 + c / 0x40, 0x80 + c % 0x40]
    else if c < 0x1_0000 then [0xe0 + c / 0x1000, 0x80 + c / 0x40 % 0x40, 0x80 + c % 0x40]
    else [0xf0 + c / 0x4_0000, 0x80 + c / 0x1000 % 0x40, 0x80 + c / 0x40 % 0x40, 0x80 + c % 0x40]
  }

  predicate AllScalar(cs: seq<nat>) { forall i | 0 <= i < |cs| :: Scalar(cs[i]) }

  function Spelling(cs: seq<nat>): seq<byte>
    requires AllScalar(cs)
  {
    if |cs| == 0 then [] else Spelt(cs[0]) + Spelling(cs[1..])
  }

  ghost predicate Spells(cs: seq<nat>, s: seq<byte>) { AllScalar(cs) && Spelling(cs) == s }

  lemma Two6(high: nat, low: nat)
    requires low < 0x40
    ensures (0x40 * high + low) / 0x40 == high && (0x40 * high + low) % 0x40 == low
  {
  }

  /** The bytes of a character, each with its own six bits. */
  lemma SpeltForm(c: nat)
    requires Scalar(c)
    ensures var s, high := Spelt(c), c / 0x1000;
      && (c < 0x80 ==> s == [c])
      && (0x80 <= c < 0x800 ==> |s| == 2 && 0xc2 <= s[0] < 0xe0 && Continuation(s[1]))
      && (0x800 <= c < 0x1_0000 ==>
            && |s| == 3 && 0xe0 <= s[0] < 0xf0 && Continuation(s[1]) && Continuation(s[2])
            && (s[0] == 0xe0 ==> s[1] >= 0xa0) && (s[0] == 0xed ==> s[1] < 0xa0))
      && (c >= 0x1_0000 ==>
            && |s| == 4 && 0xf0 <= s[0] < 0xf5 && Continuation(s[1]) && Continuation(s[2]) && Continuation(s[3])
            && (s[0] == 0xf0 ==> s[1] >= 0x90) && (s[0] == 0xf4 ==> s[1] < 0x90))
  {
  }

  /** A character in front changes nothing about the rest. */
  lemma SpeltReads(c: nat, rest: seq<byte>)
    requires Scalar(c)
    ensures Utf8(Spelt(c) + rest) <==> Utf8(rest)
  {
    SpeltForm(c);
    hide Spelt;
    Utf8Front(Spelt(c), rest);
  }

  lemma Utf8Front(front: seq<byte>, rest: seq<byte>)
    requires 0 < |front| <= 4
    requires |front| == 1 ==> front[0] < 0x80
    requires |front| == 2 ==> 0xc2 <= front[0] < 0xe0 && Continuation(front[1])
    requires |front| == 3 ==>
      && 0xe0 <= front[0] < 0xf0 && Continuation(front[1]) && Continuation(front[2])
      && (front[0] == 0xe0 ==> front[1] >= 0xa0) && (front[0] == 0xed ==> front[1] < 0xa0)
    requires |front| == 4 ==>
      && 0xf0 <= front[0] < 0xf5 && Continuation(front[1]) && Continuation(front[2]) && Continuation(front[3])
      && (front[0] == 0xf0 ==> front[1] >= 0x90) && (front[0] == 0xf4 ==> front[1] < 0x90)
    ensures Utf8(front + rest) <==> Utf8(rest)
  {
    var s := front + rest;
    assert s[|front|..] == rest;
  }

  /** The six low bits of a continuation byte. */
  function Low(b: byte): nat
    requires Continuation(b)
  {
    b - 0x80
  }

  lemma SpeltTwo(a: nat, b: byte)
    requires 2 <= a < 0x20 && Continuation(b)
    ensures var c := 0x40 * a + Low(b); Scalar(c) && Spelt(c) == [0xc0 + a, b]
  {
    Two6(a, Low(b));
  }

  lemma SpeltThree(a: nat, b: byte, d: byte)
    requires a < 0x10 && Continuation(b) && Continuation(d) && (a == 0 ==> b >= 0xa0) && (a == 13 ==> b < 0xa0)
    ensures var c := 0x40 * (0x40 * a + Low(b)) + Low(d); Scalar(c) && Spelt(c) == [0xe0 + a, b, d]
  {
    var c := 0x40 * (0x40 * a + Low(b)) + Low(d);
    Two6(a, Low(b));
    Two6(0x40 * a + Low(b), Low(d));
    assert c / 0x1000 == a;
    assert 0x800 <= c < 0x1_0000;
  }

  lemma SpeltFour(a: nat, b: byte, d: byte, e: byte)
    requires a < 5 && Continuation(b) && Continuation(d) && Continuation(e)
    requires (a == 0 ==> b >= 0x90) && (a == 4 ==> b < 0x90)
    ensures var c := 0x40 * (0x40 * (0x40 * a + Low(b)) + Low(d)) + Low(e);
      Scalar(c) && Spelt(c) == [0xf0 + a, b, d, e]
  {
    var c := 0x40 * (0x40 * (0x40 * a + Low(b)) + Low(d)) + Low(e);
    Two6(a, Low(b));
    Two6(0x40 * a + Low(b), Low(d));
    Two6(0x40 * (0x40 * a + Low(b)) + Low(d), Low(e));
    assert c / 0x1000 == 0x40 * a + Low(b) && c / 0x4_0000 == a;
    assert 0x1_0000 <= c < 0x11_0000;
  }

  /** Valid text starts with a character. */
  lemma FirstSpelt(s: seq<byte>) returns (c: nat)
    requires |s| > 0 && Utf8(s)
    ensures Scalar(c) && Spelt(c) <= s
  {
    hide Spelt, Scalar;
    if s[0] < 0x80 {
      c := s[0];
      SpeltForm(c);
      assert Scalar(c) && Spelt(c) == [s[0]] by { SpeltOne(c); }
    } else if s[0] < 0xe0 {
      c := 0x40 * (s[0] - 0xc0) + Low(s[1]);
      SpeltTwo(s[0] - 0xc0, s[1]);
    } else if s[0] < 0xf0 {
      c := 0x40 * (0x40 * (s[0] - 0xe0) + Low(s[1])) + Low(s[2]);
      SpeltThree(s[0] - 0xe0, s[1], s[2]);
    } else {
      c := 0x40 * (0x40 * (0x40 * (s[0] - 0xf0) + Low(s[1])) + Low(s[2])) + Low(s[3]);
      SpeltFour(s[0] - 0xf0, s[1], s[2], s[3]);
    }
  }

  lemma SpeltOne(c: nat)
    requires c < 0x80
    ensures Scalar(c) && Spelt(c) == [c]
  {
  }

  lemma {:induction false} SpellingReads(cs: seq<nat>)
    requires AllScalar(cs)
    ensures Utf8(Spelling(cs))
  {
    hide Spelt;
    if |cs| > 0 {
      SpellingReads(cs[1..]);
      SpeltReads(cs[0], Spelling(cs[1..]));
    }
  }

  lemma {:induction false} TextSpelt(s: seq<byte>) returns (cs: seq<nat>)
    requires Utf8(s)
    ensures Spells(cs, s)
    decreases |s|
  {
    if |s| == 0 {
      cs := [];
    } else {
      var c := FirstSpelt(s);
      var rest := s[|Spelt(c)|..];
      assert s == Spelt(c) + rest;
      SpeltReads(c, rest);
      var more := TextSpelt(rest);
      cs := [c] + more;
      assert cs[1..] == more;
    }
  }

  /** Text is accepted exactly when it spells some characters. */
  lemma Utf8Exact(s: seq<byte>)
    ensures Utf8(s) <==> exists cs :: Spells(cs, s)
  {
    if Utf8(s) { var cs := TextSpelt(s); }
    if cs :| Spells(cs, s) { SpellingReads(cs); }
  }

  // ----- Examples of Appendix A of RFC 8949 -----

  lemma MinimalStep(n: nat)
    requires n > 0
    ensures Minimal(n) == Minimal(n / 256) + [n % 256]
  {
  }

  lemma MinimalOfU64()
    ensures Minimal(0x1_0000_0000_0000_0000) == [1, 0, 0, 0, 0, 0, 0, 0, 0]
  {
    assert Minimal(0) == [];
    hide Minimal;
    MinimalStep(0x1);
    MinimalStep(0x100);
    MinimalStep(0x1_0000);
    MinimalStep(0x100_0000);
    MinimalStep(0x1_0000_0000);
    MinimalStep(0x100_0000_0000);
    MinimalStep(0x1_0000_0000_0000);
    MinimalStep(0x100_0000_0000_0000);
    MinimalStep(0x1_0000_0000_0000_0000);
  }

  lemma ExampleBignum()
    ensures Encode(Int(0x1_0000_0000_0000_0000)) == [0xc2, 0x49, 1, 0, 0, 0, 0, 0, 0, 0, 0]
    ensures Encode(Int(-0x1_0000_0000_0000_0001)) == [0xc3, 0x49, 1, 0, 0, 0, 0, 0, 0, 0, 0]
  {
    MinimalOfU64();
    hide Minimal;
  }

  lemma ExampleNested()
    ensures Encode(Array([Int(1), Array([Int(2), Int(3)])])) == [0x82, 0x01, 0x82, 0x02, 0x03]
  {
    var inner := [Int(2), Int(3)];
    assert inner[1..] == [Int(3)] && EncodeAll([Int(3)]) == [3] && EncodeAll(inner) == [2, 3];
    var outer := [Int(1), Array(inner)];
    assert outer[1..] == [Array(inner)] && EncodeAll([Array(inner)]) == [0x82, 2, 3];
  }

  lemma ExampleMap()
    ensures Encode(Map([Pair(Int(1), Int(2)), Pair(Int(3), Int(4))])) == [0xa2, 1, 2, 3, 4]
  {
    var ps := [Pair(Int(1), Int(2)), Pair(Int(3), Int(4))];
    assert ps[1..] == [Pair(Int(3), Int(4))] && EncodePairs(ps[1..]) == [3, 4];
  }

  lemma ExampleScalars()
    ensures Encode(Int(-10)) == [0x29] && Encode(Int(-500)) == [0x39, 0x01, 0xf3]
    ensures Encode(Bytes([1, 2, 3, 4])) == [0x44, 1, 2, 3, 4]
    ensures Encode(Text([0x49, 0x45, 0x54, 0x46])) == [0x64, 0x49, 0x45, 0x54, 0x46]
    ensures Encode(Tag(23, Bytes([1, 2, 3, 4]))) == [0xd7, 0x44, 1, 2, 3, 4]
    ensures Encode(Bool(false)) == [0xf4] && Encode(Bool(true)) == [0xf5] && Encode(Null) == [0xf6]
  {
  }
}
