/**
 * Shared vocabulary.
 *
 * - bytes, optional values and results
 * - signs, minimum and maximum
 * - the lexicographic order of byte strings and its laws
 * - powers, and arithmetic facts the solver does not find by itself
 * - big-endian numbers and their shortest forms
 */
module Prelude {

  type byte = b: int | 0 <= b < 256

  const U64: nat := 0x1_0000_0000_0000_0000

  datatype Option<+T> = None | Some(value: T)

  /** The source raises one exception class with a message; the message is not modelled. */
  datatype Result<+T> = Err | Ok(value: T) {
    predicate IsFailure() { Err? }
    function PropagateFailure<U>(): Result<U> requires Err? { Err }
    function Extract(): T requires Ok? { value }
  }

  function Min(a: int, b: int): int { if a < b then a else b }

  function Max(a: int, b: int): int { if a < b then b else a }

  function Sign(n: int): (r: int)
    ensures -1 <= r <= 1
  {
    if n > 0 then 1 else if n < 0 then -1 else 0
  }

  // ----- Byte-string order (Python's comparison of bytes objects) -----

  /** Strict lexicographic order: a proper prefix precedes its extensions. */
  predicate LexLess(a: seq<byte>, b: seq<byte>)
    decreases |a|
  {
    if |b| == 0 then false
    else if |a| == 0 then true
    else a[0] < b[0] || (a[0] == b[0] && LexLess(a[1..], b[1..]))
  }

  lemma {:induction false} LexIrreflexive(a: seq<byte>)
    ensures !LexLess(a, a)
    decreases |a|
  {
    if |a| > 0 { LexIrreflexive(a[1..]); }
  }

  lemma {:induction false} LexTransitive(a: seq<byte>, b: seq<byte>, c: seq<byte>)
    requires LexLess(a, b) && LexLess(b, c)
    ensures LexLess(a, c)
    decreases |a|
  {
    if |a| > 0 && a[0] == b[0] && b[0] == c[0] { LexTransitive(a[1..], b[1..], c[1..]); }
  }

  lemma {:induction false} LexTotal(a: seq<byte>, b: seq<byte>)
    ensures LexLess(a, b) || a == b || LexLess(b, a)
    decreases |a|
  {
    if |a| > 0 && |b| > 0 && a[0] == b[0] {
      LexTotal(a[1..], b[1..]);
      assert a == [a[0]] + a[1..] && b == [b[0]] + b[1..];
    }
  }

  lemma LexAsymmetric(a: seq<byte>, b: seq<byte>)
    requires LexLess(a, b)
    ensures !LexLess(b, a)
  {
    if LexLess(b, a) {
      LexTransitive(a, b, a);
      LexIrreflexive(a);
    }
  }

  /** (left > right) - (left < right) */
  function LexOrder(a: seq<byte>, b: seq<byte>): int {
    if LexLess(b, a) then 1 else if LexLess(a, b) then -1 else 0
  }

  /** A proper prefix, or smaller at the first byte that differs. */
  ghost predicate LexBefore(s: seq<byte>, t: seq<byte>) {
    (|s| < |t| && s == t[..|s|])
    || exists i | 0 <= i < |s| && i < |t| :: s[..i] == t[..i] && s[i] < t[i]
  }

  lemma {:induction false} LexExact(s: seq<byte>, t: seq<byte>)
    ensures LexLess(s, t) <==> LexBefore(s, t)
    decreases |s|
  {
    if |s| > 0 && |t| > 0 {
      LexExact(s[1..], t[1..]);
      assert s == [s[0]] + s[1..] && t == [t[0]] + t[1..];
      if s[0] == t[0] {
        if LexBefore(s[1..], t[1..]) { LexBeforeCons(s, t); }
        if LexBefore(s, t) { LexBeforeTail(s, t); }
      } else if s[0] < t[0] {
        assert s[..0] == t[..0];
      }
    }
  }

  lemma LexBeforeCons(s: seq<byte>, t: seq<byte>)
    requires |s| > 0 && |t| > 0 && s[0] == t[0] && LexBefore(s[1..], t[1..])
    ensures LexBefore(s, t)
  {
    var p, q := s[1..], t[1..];
    if i :| 0 <= i < |p| && i < |q| && p[..i] == q[..i] && p[i] < q[i] {
      assert s[..i + 1] == [s[0]] + p[..i] && t[..i + 1] == [t[0]] + q[..i];
    } else {
      assert s == [s[0]] + p && t[..|s|] == [t[0]] + q[..|p|];
    }
  }

  lemma LexBeforeTail(s: seq<byte>, t: seq<byte>)
    requires |s| > 0 && |t| > 0 && s[0] == t[0] && LexBefore(s, t)
    ensures LexBefore(s[1..], t[1..])
  {
    var p, q := s[1..], t[1..];
    if i :| 0 <= i < |s| && i < |t| && s[..i] == t[..i] && s[i] < t[i] {
      assert p[..i - 1] == s[..i][1..] && q[..i - 1] == t[..i][1..];
    } else {
      assert q[..|p|] == t[..|s|][1..];
    }
  }

  // ----- Powers and big-endian numbers -----

  function Pow(b: nat, e: nat): nat {
    if e == 0 then 1 else b * Pow(b, e - 1)
  }

  lemma {:induction false} MulAtLeast(k: nat, p: nat)
    requires k > 0
    ensures k * p >= p
  {
    if k > 1 {
      MulAtLeast(k - 1, p);
      assert k * p == (k - 1) * p + p;
    }
  }

  lemma MulStrict(x: nat, y: nat, p: nat)
    requires x < y && p > 0
    ensures x * p < y * p
  {
    MulAtLeast(y - x, p);
    assert y * p == x * p + (y - x) * p;
  }

  lemma MulAssociative(a: nat, x: nat, y: nat)
    ensures a * x * y == a * (x * y)
  {
  }

  lemma MulMonotone(x: nat, y: nat, p: nat)
    requires x <= y
    ensures x * p <= y * p
  {
    if x < y && p > 0 { MulStrict(x, y, p); }
  }

  lemma {:induction false} PowPositive(b: nat, e: nat)
    requires b > 0
    ensures Pow(b, e) > 0
  {
    if e > 0 { PowPositive(b, e - 1); }
  }

  lemma {:induction false} PowAdd(b: nat, x: nat, y: nat)
    ensures Pow(b, x + y) == Pow(b, x) * Pow(b, y)
  {
    if x > 0 {
      PowAdd(b, x - 1, y);
      MulAssociative(b, Pow(b, x - 1), Pow(b, y));
    }
  }

  lemma {:induction false} PowMonotone(b: nat, x: nat, y: nat)
    requires b > 0 && x <= y
    ensures Pow(b, x) <= Pow(b, y)
  {
    if x < y {
      PowMonotone(b, x, y - 1);
      MulAtLeast(b, Pow(b, y - 1));
    }
  }

  lemma PowersOf256()
    ensures Pow(256, 1) == 256 && Pow(256, 2) == 0x1_0000 && Pow(256, 4) == 0x1_0000_0000
    ensures Pow(256, 8) == U64
  {
    assert Pow(256, 2) == 256 * Pow(256, 1);
    assert Pow(256, 4) == 256 * Pow(256, 3);
    PowAdd(256, 4, 4);
  }

  /** n.to_bytes(k, "big") */
  function BigEndian(n: nat, k: nat): (s: seq<byte>)
    ensures |s| == k
  {
    if k == 0 then [] else BigEndian(n / 256, k - 1) + [n % 256]
  }

  /** int.from_bytes(s, "big") */
  function FromBigEndian(s: seq<byte>): nat {
    if |s| == 0 then 0 else FromBigEndian(s[..|s| - 1]) * 256 + s[|s| - 1]
  }

  /** The shortest big-endian form: n.to_bytes((n.bit_length() + 7) // 8, "big") */
  function Minimal(n: nat): seq<byte> {
    if n == 0 then [] else Minimal(n / 256) + [n % 256]
  }

  lemma {:induction false} FromBigEndianBound(s: seq<byte>)
    ensures FromBigEndian(s) < Pow(256, |s|)
  {
    if |s| > 0 {
      FromBigEndianBound(s[..|s| - 1]);
      assert Pow(256, |s|) == 256 * Pow(256, |s| - 1);
    }
  }

  lemma {:induction false} BigEndianRoundTrip(n: nat, k: nat)
    requires n < Pow(256, k)
    ensures FromBigEndian(BigEndian(n, k)) == n
  {
    if k > 0 {
      assert Pow(256, k) == 256 * Pow(256, k - 1);
      BigEndianRoundTrip(n / 256, k - 1);
      assert BigEndian(n, k)[..k - 1] == BigEndian(n / 256, k - 1);
    }
  }

  lemma {:induction false} BigEndianInverse(s: seq<byte>)
    ensures BigEndian(FromBigEndian(s), |s|) == s
  {
    if |s| > 0 {
      BigEndianInverse(s[..|s| - 1]);
      assert s == s[..|s| - 1] + [s[|s| - 1]];
    }
  }

  lemma {:induction false} MinimalRoundTrip(n: nat)
    ensures FromBigEndian(Minimal(n)) == n
    ensures n > 0 ==> |Minimal(n)| > 0 && Minimal(n)[0] != 0
  {
    if n > 0 {
      MinimalRoundTrip(n / 256);
      assert Minimal(n)[..|Minimal(n)| - 1] == Minimal(n / 256);
    }
  }

  lemma {:induction false} MinimalInverse(s: seq<byte>)
    requires |s| > 0 && s[0] != 0
    ensures FromBigEndian(s) >= Pow(256, |s| - 1)
    ensures Minimal(FromBigEndian(s)) == s
  {
    var init, last := s[..|s| - 1], s[|s| - 1];
    assert s == init + [last];
    if |s| == 1 {
      assert FromBigEndian(init) == 0 && FromBigEndian(s) == last;
      assert Minimal(last) == Minimal(0) + [last];
    } else {
      MinimalInverse(init);
      assert Pow(256, |s| - 1) == 256 * Pow(256, |s| - 2);
      assert FromBigEndian(s) / 256 == FromBigEndian(init);
    }
  }
}
