/**
 The RLE / bit-packed hybrid of Parquet levels and dictionary indices (`_rle_hybrid`), as in the
 Encodings specification of the Apache Parquet format, and the data pages built on it.
 */
module RleHybrid {
  // A run list is serialised as headers and payloads; the decoder accepts exactly the serialised run
  // lists that reach the wanted count in their last run.

  import opened Prelude

  // ----- Little-endian numbers and digits in base 2^width -----

  /** int.from_bytes(s, "little") */
  function FromLittleEndian(s: seq<byte>): nat {
    if |s| == 0 then 0 else s[0] + 256 * FromLittleEndian(s[1..])
  }

  function Quotient(n: nat, m: nat): (q: nat)
    requires m > 0
  {
    n / m
  }

  function Remainder(n: nat, m: nat): (r: nat)
    requires m > 0
    ensures r < m
  {
    n % m
  }

  lemma Euclid(n: nat, m: nat)
    requires m > 0
    ensures n == m * Quotient(n, m) + Remainder(n, m)
  {
  }

  /** The values packed into a number, lowest first. */
  function Unpack(n: nat, base: nat, count: nat): (vs: seq<nat>)
    requires base > 0
    ensures |vs| == count
    decreases count
  {
    if count == 0 then [] else [Remainder(n, base)] + Unpack(Quotient(n, base), base, count - 1)
  }

  function Pack(vs: seq<nat>, base: nat): nat {
    if |vs| == 0 then 0 else vs[0] + base * Pack(vs[1..], base)
  }

  predicate Below(vs: seq<nat>, base: nat) { forall i | 0 <= i < |vs| :: vs[i] < base }

  lemma DivModUnique(a: nat, q: nat, r: nat, m: nat)
    requires r < m && a == m * q + r
    ensures Quotient(a, m) == q && Remainder(a, m) == r
  {
    hide Quotient, Remainder;
    Euclid(a, m);
    var q', r' := Quotient(a, m), Remainder(a, m);
    if q' > q {
      MulMonotone(q + 1, q', m);
    } else if q' < q {
      MulMonotone(q' + 1, q, m);
    }
  }

  lemma {:induction false} UnpackPack(vs: seq<nat>, base: nat)
    requires base > 0 && Below(vs, base)
    ensures Unpack(Pack(vs, base), base, |vs|) == vs
  {
    hide Quotient, Remainder;
    if |vs| > 0 {
      assert Below(vs[1..], base);
      UnpackPack(vs[1..], base);
      DivModUnique(Pack(vs, base), Pack(vs[1..], base), vs[0], base);
      assert vs == [vs[0]] + vs[1..];
    }
  }

  lemma {:induction false} PackUnpack(n: nat, base: nat, count: nat)
    requires base > 0 && n < Pow(base, count)
    ensures Pack(Unpack(n, base, count), base) == n && Below(Unpack(n, base, count), base)
    decreases count
  {
    hide Quotient, Remainder;
    if count > 0 {
      Euclid(n, base);
      QuotientBound(n, base, Pow(base, count - 1));
      PackUnpack(Quotient(n, base), base, count - 1);
      var rest := Unpack(Quotient(n, base), base, count - 1);
      assert ([Remainder(n, base)] + rest)[1..] == rest;
    }
  }

  lemma QuotientBound(n: nat, m: nat, bound: nat)
    requires m > 0 && n < m * bound
    ensures Quotient(n, m) < bound
  {
    hide Quotient, Remainder;
    Euclid(n, m);
    if Quotient(n, m) >= bound { MulMonotone(bound, Quotient(n, m), m); }
  }

  lemma DivDiv(a: nat, b: nat, c: nat)
    requires b > 0 && c > 0
    ensures b * c > 0 && Quotient(Quotient(a, b), c) == Quotient(a, b * c)
  {
    hide Quotient, Remainder;
    var q, r := Quotient(a, b), Remainder(a, b);
    var q', r' := Quotient(q, c), Remainder(q, c);
    Euclid(a, b);
    Euclid(q, c);
    MulAtLeast(b, c);
    MulMonotone(r', c - 1, b);
    Recombine(b, c, q', r', r);
    DivModUnique(a, q', b * r' + r, b * c);
  }

  lemma Recombine(b: nat, c: nat, q: nat, s: nat, r: nat)
    requires s < c && r < b && s * b <= (c - 1) * b
    ensures b * (c * q + s) + r == (b * c) * q + (b * s + r)
    ensures b * s + r < b * c
  {
    MulAssociative(b, c, q);
    assert b * (c * q + s) == b * (c * q) + b * s;
    assert (c - 1) * b == b * c - b;
  }

  /** (n >> (i * width)) & mask, for each i */
  lemma {:induction false} UnpackAt(n: nat, base: nat, count: nat, i: nat)
    requires base > 0 && i < count
    ensures Pow(base, i) > 0 && Unpack(n, base, count)[i] == Remainder(Quotient(n, Pow(base, i)), base)
    decreases i
  {
    hide Quotient, Remainder;
    PowPositive(base, i);
    if i > 0 {
      UnpackAt(Quotient(n, base), base, count - 1, i - 1);
      DivDiv(n, base, Pow(base, i - 1));
    } else {
      assert Pow(base, 0) == 1;
      DivModUnique(n, n, 0, 1);
    }
  }

  /** Digit i of a number written lowest digit first. */
  lemma PackAt(vs: seq<nat>, base: nat, i: nat)
    requires base > 0 && Below(vs, base) && i < |vs|
    ensures Pow(base, i) > 0 && vs[i] == Remainder(Quotient(Pack(vs, base), Pow(base, i)), base)
  {
    hide Quotient, Remainder, Unpack, Pack;
    UnpackPack(vs, base);
    UnpackAt(Pack(vs, base), base, |vs|, i);
  }

  function Naturals(s: seq<byte>): seq<nat> {
    seq(|s|, i requires 0 <= i < |s| => s[i])
  }

  lemma {:induction false} LittleEndianPacks(s: seq<byte>)
    ensures FromLittleEndian(s) == Pack(Naturals(s), 256)
  {
    if |s| > 0 {
      LittleEndianPacks(s[1..]);
      assert Naturals(s)[1..] == Naturals(s[1..]);
    }
  }

  /** Byte i of a little-endian number counts 256^i: (n >> (8 * i)) & 255 */
  lemma LittleEndianAt(s: seq<byte>, i: nat)
    requires i < |s|
    ensures Pow(256, i) > 0 && s[i] == Remainder(Quotient(FromLittleEndian(s), Pow(256, i)), 256)
  {
    hide Quotient, Remainder;
    LittleEndianPacks(s);
    PackAt(Naturals(s), 256, i);
  }

  lemma {:induction false} LittleEndianBound(s: seq<byte>)
    ensures FromLittleEndian(s) < Pow(256, |s|)
  {
    if |s| > 0 { LittleEndianBound(s[1..]); }
  }

  lemma {:induction false} PowPow(b: nat, x: nat, y: nat)
    ensures Pow(Pow(b, x), y) == Pow(b, x * y)
  {
    if y > 0 {
      PowPow(b, x, y - 1);
      PowAdd(b, x, x * (y - 1));
      assert x + x * (y - 1) == x * y;
    } else {
      assert x * 0 == 0;
    }
  }

  /** A group of `width` bytes per eight values holds exactly that many digits. */
  lemma PackedBound(payload: seq<byte>, width: nat, groups: nat)
    requires |payload| == groups * width
    ensures FromLittleEndian(payload) < Pow(Pow(2, width), groups * 8)
  {
    hide Pow, FromLittleEndian;
    LittleEndianBound(payload);
    PowPow(2, 8, groups * width);
    PowPow(2, width, groups * 8);
    Commute(groups, width);
    TwoToTheEighth();
  }

  lemma Commute(groups: nat, width: nat)
    ensures 8 * (groups * width) == width * (groups * 8)
  {
  }

  lemma TwoToTheEighth()
    ensures Pow(2, 8) == 256
  {
    PowAdd(2, 4, 4);
    assert Pow(2, 4) == 16;
  }

  // ----- Runs -----

  datatype Run = Packed(values: seq<nat>) | Repeated(count: nat, value: nat)

  function RunValues(run: Run): seq<nat> {
    match run
    case Packed(values) => values
    case Repeated(count, value) => seq(count, _ => value)
  }

  /** The unsigned variable-length number a header spells: seven bits a byte, lowest first. */
  function VarintValue(header: seq<byte>): nat {
    if |header| == 0 then 0 else header[0] % 128 + 128 * VarintValue(header[1..])
  }

  function SevenBits(header: seq<byte>): seq<nat> {
    seq(|header|, i requires 0 <= i < |header| => header[i] % 128)
  }

  lemma {:induction false} VarintPacks(header: seq<byte>)
    ensures VarintValue(header) == Pack(SevenBits(header), 128)
  {
    if |header| > 0 {
      VarintPacks(header[1..]);
      assert SevenBits(header)[1..] == SevenBits(header[1..]);
    }
  }

  /** The low seven bits of byte i count 128^i: (n >> (7 * i)) & 127 */
  lemma VarintAt(header: seq<byte>, i: nat)
    requires i < |header|
    ensures Pow(128, i) > 0 && header[i] % 128 == Remainder(Quotient(VarintValue(header), Pow(128, i)), 128)
  {
    hide Quotient, Remainder;
    VarintPacks(header);
    PackAt(SevenBits(header), 128, i);
  }

  /** At most ten bytes, all but the last with the continuation bit. */
  predicate IsVarint(header: seq<byte>) {
    && 0 < |header| <= 10
    && header[|header| - 1] < 128
    && forall i | 0 <= i < |header| - 1 :: header[i] >= 128
  }

  function ByteWidth(width: nat): nat { (width + 7) / 8 }

  /** A run written out: its header and what follows it. */
  datatype Written = Written(run: Run, header: seq<byte>, payload: seq<byte>)

  ghost predicate Wrote(x: Written, width: nat) {
    var base := Pow(2, width);
    && IsVarint(x.header)
    && match x.run
       case Packed(values) =>
         exists groups :: PackedGroups(x, width, groups)
       case Repeated(count, value) =>
         && count > 0 && VarintValue(x.header) == 2 * count
         && |x.payload| == ByteWidth(width) && FromLittleEndian(x.payload) == value < base
  }

  ghost predicate PackedGroups(x: Written, width: nat, groups: nat)
    requires x.run.Packed?
  {
    && groups > 0 && VarintValue(x.header) == 2 * groups + 1
    && |x.run.values| == groups * 8 && Below(x.run.values, Pow(2, width))
    && |x.payload| == groups * width && FromLittleEndian(x.payload) == Pack(x.run.values, Pow(2, width))
  }

  ghost predicate AllWrote(xs: seq<Written>, width: nat) { forall i | 0 <= i < |xs| :: Wrote(xs[i], width) }

  function Serialise(xs: seq<Written>): seq<byte> {
    if |xs| == 0 then [] else xs[0].header + xs[0].payload + Serialise(xs[1..])
  }

  function Expansion(xs: seq<Written>): seq<nat> {
    if |xs| == 0 then [] else RunValues(xs[0].run) + Expansion(xs[1..])
  }

  /** The runs reach `count` values, and only the last run does. */
  ghost predicate CoversInLast(xs: seq<Written>, count: nat) {
    if |xs| == 0 then count == 0
    else
      var n := |RunValues(xs[0].run)|;
      if |xs| == 1 then 0 < count <= n else n < count && CoversInLast(xs[1..], count - n)
  }

  // ----- Reading -----

  datatype HeaderRead = NoHeader | HeaderIs(value: nat, rest: seq<byte>)

  /** The header at the front of `s`, with at most `left` more bytes. */
  function ReadHeader(s: seq<byte>, left: nat): (r: HeaderRead)
    ensures r.HeaderIs? ==> |r.rest| < |s|
    decreases left
  {
    if |s| == 0 || left == 0 then NoHeader
    else if s[0] < 128 then HeaderIs(s[0], s[1..])
    else
      match ReadHeader(s[1..], left - 1)
      case NoHeader => NoHeader
      case HeaderIs(v, rest) => HeaderIs(s[0] % 128 + 128 * v, rest)
  }

  datatype RunRead = NoRun | RunIs(run: Run, rest: seq<byte>)

  function ReadRun(s: seq<byte>, width: nat): (r: RunRead)
    ensures r.RunIs? ==> |r.rest| < |s| && |RunValues(r.run)| > 0
  {
    match ReadHeader(s, 10)
    case NoHeader => NoRun
    case HeaderIs(header, rest) => ReadBody(header, rest, width)
  }

  function ReadBody(header: nat, rest: seq<byte>, width: nat): (r: RunRead)
    ensures r.RunIs? ==> |r.rest| <= |rest| && |RunValues(r.run)| > 0
  {
    var n := header / 2;
    if n == 0 then NoRun
    else if header % 2 == 1 then
      if n * width > |rest| then NoRun
      else
        PowPositive(2, width);
        RunIs(Packed(Unpack(FromLittleEndian(rest[..n * width]), Pow(2, width), n * 8)), rest[n * width..])
    else
      var bytes := ByteWidth(width);
      if bytes > |rest| || FromLittleEndian(rest[..bytes]) >= Pow(2, width) then NoRun
      else RunIs(Repeated(n, FromLittleEndian(rest[..bytes])), rest[bytes..])
  }

  /** The next `count` values, which must use up the input. */
  function Decode(s: seq<byte>, width: nat, count: nat): Result<seq<nat>>
    decreases |s|
  {
    if count == 0 then (if |s| == 0 then Ok([]) else Err)
    else
      match ReadRun(s, width)
      case NoRun => Err
      case RunIs(run, rest) =>
        var vs := RunValues(run);
        if |vs| >= count then (if |rest| == 0 then Ok(vs[..count]) else Err)
        else
          match Decode(rest, width, count - |vs|)
          case Err => Err
          case Ok(more) => Ok(vs + more)
  }

  // ----- Headers and runs read back -----

  lemma {:induction false} HeaderSound(s: seq<byte>, left: nat) returns (header: seq<byte>)
    requires ReadHeader(s, left).HeaderIs?
    ensures s == header + ReadHeader(s, left).rest && VarintValue(header) == ReadHeader(s, left).value
    ensures 0 < |header| <= left && header[|header| - 1] < 128
    ensures forall i | 0 <= i < |header| - 1 :: header[i] >= 128
    decreases left
  {
    if s[0] < 128 {
      header := [s[0]];
      assert s == [s[0]] + s[1..] && header[1..] == [];
    } else {
      var tail := HeaderSound(s[1..], left - 1);
      header := [s[0]] + tail;
      assert header[1..] == tail;
    }
  }

  lemma {:induction false} HeaderComplete(header: seq<byte>, rest: seq<byte>, left: nat)
    requires 0 < |header| <= left && header[|header| - 1] < 128
    requires forall i | 0 <= i < |header| - 1 :: header[i] >= 128
    ensures ReadHeader(header + rest, left) == HeaderIs(VarintValue(header), rest)
    decreases left
  {
    var s := header + rest;
    assert s[1..] == header[1..] + rest;
    if |header| == 1 {
      assert s[1..] == rest && VarintValue(header[1..]) == 0;
    } else {
      HeaderComplete(header[1..], rest, left - 1);
    }
  }

  lemma BodySound(header: nat, rest: seq<byte>, width: nat) returns (payload: seq<byte>)
    requires width > 0 && ReadBody(header, rest, width).RunIs?
    ensures rest == payload + ReadBody(header, rest, width).rest
    ensures forall h | IsVarint(h) && VarintValue(h) == header ::
        Wrote(Written(ReadBody(header, rest, width).run, h, payload), width)
  {
    hide FromLittleEndian, Unpack, Pack, Pow, VarintValue, Below;
    var n := header / 2;
    PowPositive(2, width);
    if header % 2 == 1 {
      var size := n * width;
      payload := rest[..size];
      PackedBound(payload, width, n);
      PackUnpack(FromLittleEndian(payload), Pow(2, width), n * 8);
      forall h | IsVarint(h) && VarintValue(h) == header
        ensures Wrote(Written(ReadBody(header, rest, width).run, h, payload), width)
      {
        assert PackedGroups(Written(ReadBody(header, rest, width).run, h, payload), width, n);
      }
    } else {
      payload := rest[..ByteWidth(width)];
    }
  }

  lemma RunSound(s: seq<byte>, width: nat) returns (x: Written)
    requires width > 0 && ReadRun(s, width).RunIs?
    ensures Wrote(x, width) && x.run == ReadRun(s, width).run
    ensures s == x.header + x.payload + ReadRun(s, width).rest
  {
    hide ReadBody, Wrote, VarintValue, ReadHeader;
    var header := HeaderSound(s, 10);
    var HeaderIs(value, after) := ReadHeader(s, 10);
    var payload := BodySound(value, after, width);
    var RunIs(run, rest) := ReadBody(value, after, width);
    x := Written(run, header, payload);
    assert s == header + payload + rest;
  }

  lemma RunComplete(x: Written, rest: seq<byte>, width: nat)
    requires width > 0 && Wrote(x, width)
    ensures ReadRun(x.header + x.payload + rest, width) == RunIs(x.run, rest)
  {
    hide FromLittleEndian, Unpack, Pack, Pow, VarintValue, ReadHeader, Below;
    var after := x.payload + rest;
    assert x.header + x.payload + rest == x.header + after;
    HeaderComplete(x.header, after, 10);
    assert after[..|x.payload|] == x.payload && after[|x.payload|..] == rest;
    match x.run
    case Packed(values) =>
      var groups :| PackedGroups(x, width, groups);
      PowPositive(2, width);
      UnpackPack(values, Pow(2, width));
      assert VarintValue(x.header) / 2 == groups;
    case Repeated(count, value) =>
      assert VarintValue(x.header) / 2 == count;
  }

  // ----- Decoding is exactly the expansion of some written runs -----

  lemma {:induction false} DecodeComplete(xs: seq<Written>, width: nat, count: nat)
    requires width > 0 && AllWrote(xs, width) && CoversInLast(xs, count)
    ensures count <= |Expansion(xs)| && Decode(Serialise(xs), width, count) == Ok(Expansion(xs)[..count])
    decreases |xs|
  {
    hide Wrote, ReadRun, RunValues;
    if |xs| > 0 {
      var x, tail := xs[0], xs[1..];
      RunComplete(x, Serialise(tail), width);
      var vs := RunValues(x.run);
      if |xs| == 1 {
        assert tail == [];
        assert Expansion(tail) == [] && Serialise(tail) == [] && vs + [] == vs;
      } else {
        assert AllWrote(tail, width);
        DecodeComplete(tail, width, count - |vs|);
        assert (vs + Expansion(tail))[..count] == vs + Expansion(tail)[..count - |vs|];
      }
    }
  }

  lemma {:induction false} DecodeSound(s: seq<byte>, width: nat, count: nat) returns (xs: seq<Written>)
    requires width > 0 && Decode(s, width, count).Ok?
    ensures AllWrote(xs, width) && CoversInLast(xs, count) && Serialise(xs) == s
    ensures count <= |Expansion(xs)| && Decode(s, width, count).value == Expansion(xs)[..count]
    decreases |s|
  {
    hide Wrote, ReadRun, RunValues;
    if count == 0 {
      xs := [];
    } else {
      var x := RunSound(s, width);
      var rest := ReadRun(s, width).rest;
      var vs := RunValues(x.run);
      if |vs| >= count {
        xs := [x];
        assert xs[1..] == [];
        assert Serialise([]) == [] && Expansion([]) == [];
        assert vs + [] == vs && s == x.header + x.payload + [];
      } else {
        var tail := DecodeSound(rest, width, count - |vs|);
        xs := [x] + tail;
        assert xs[1..] == tail;
        assert tail != [];
        assert (vs + Expansion(tail))[..count] == vs + Expansion(tail)[..count - |vs|];
      }
    }
  }

  /** Some serialised run list explains the input and yields these values. */
  ghost predicate Explains(xs: seq<Written>, s: seq<byte>, width: nat, count: nat, out: seq<nat>) {
    && AllWrote(xs, width) && CoversInLast(xs, count) && Serialise(xs) == s
    && count <= |Expansion(xs)| && out == Expansion(xs)[..count]
  }

  /**
   * The decoder accepts an input exactly when it is a serialised run list that reaches the count
   * only in its last run, and returns the first `count` values of its expansion.
   */
  lemma DecodeExact(s: seq<byte>, width: nat, count: nat, out: seq<nat>)
    requires width > 0
    ensures Decode(s, width, count) == Ok(out) <==> exists xs :: Explains(xs, s, width, count, out)
  {
    hide Decode, AllWrote, CoversInLast, Expansion, Serialise;
    if Decode(s, width, count) == Ok(out) {
      var xs := DecodeSound(s, width, count);
      assert Explains(xs, s, width, count, out);
    }
    if xs :| Explains(xs, s, width, count, out) {
      DecodeComplete(xs, width, count);
    }
  }

  /** Exactly `count` values come out, each below 2^width. */
  lemma {:induction false} DecodeRange(s: seq<byte>, width: nat, count: nat)
    requires Decode(s, width, count).Ok?
    ensures |Decode(s, width, count).value| == count && Below(Decode(s, width, count).value, Pow(2, width))
    decreases |s|
  {
    hide ReadRun, Pow, RunValues;
    if count > 0 {
      ReadRunRange(s, width);
      var RunIs(run, rest) := ReadRun(s, width);
      if |RunValues(run)| < count { DecodeRange(rest, width, count - |RunValues(run)|); }
    }
  }

  lemma {:induction false} UnpackBelow(n: nat, base: nat, count: nat)
    requires base > 0
    ensures Below(Unpack(n, base, count), base)
    decreases count
  {
    hide Quotient, Remainder;
    if count > 0 { UnpackBelow(Quotient(n, base), base, count - 1); }
  }

  lemma ReadRunRange(s: seq<byte>, width: nat)
    requires ReadRun(s, width).RunIs?
    ensures Below(RunValues(ReadRun(s, width).run), Pow(2, width))
  {
    hide Unpack, FromLittleEndian, ReadHeader, Pow;
    var HeaderIs(header, rest) := ReadHeader(s, 10);
    PowPositive(2, width);
    if header % 2 == 1 {
      UnpackBelow(FromLittleEndian(rest[..header / 2 * width]), Pow(2, width), header / 2 * 8);
    }
  }

  // ----- The decoding loops -----

  /** A header continued from `k` bytes that already gave `header`. */
  ghost function HeaderFrom(header: nat, scale: nat, r: HeaderRead): HeaderRead {
    match r
    case NoHeader => NoHeader
    case HeaderIs(v, rest) => HeaderIs(header + scale * v, rest)
  }

  lemma HeaderStep(s: seq<byte>, k: nat, header: nat)
    requires k < 10 && |s| > 0
    ensures HeaderFrom(header, Pow(128, k), ReadHeader(s, 10 - k)) ==
            if s[0] < 128 then HeaderIs(header + Pow(128, k) * s[0], s[1..])
            else HeaderFrom(header + Pow(128, k) * (s[0] % 128), Pow(128, k + 1), ReadHeader(s[1..], 10 - (k + 1)))
  {
    assert Pow(128, k + 1) == 128 * Pow(128, k);
    hide Pow;
    match ReadHeader(s[1..], 10 - (k + 1))
    case NoHeader =>
    case HeaderIs(v, rest) => Distribute(Pow(128, k), s[0] % 128, v);
  }

  lemma Distribute(p: nat, a: nat, v: nat)
    ensures p * (a + 128 * v) == p * a + 128 * p * v
  {
  }

  /** The inner loop: one header, with its growing shift. */
  method NextHeader(data: seq<byte>, start: nat) returns (r: Result<nat>, pos: nat)
    requires start <= |data|
    ensures start <= pos <= |data|
    ensures match ReadHeader(data[start..], 10)
            case NoHeader => r.Err?
            case HeaderIs(value, rest) => r == Ok(value) && rest == data[pos..] && pos > start
  {
    hide ReadHeader, Pow, HeaderFrom;
    pos := start;
    var header: nat, shift: nat := 0, 0;
    ghost var k := 0;
    ghost var goal := ReadHeader(data[start..], 10);
    StartHeader(data[start..]);
    while true
      invariant start <= pos <= |data| && 0 <= k < 10 && shift == 7 * k && pos == start + k
      invariant goal == HeaderFrom(header, Pow(128, k), ReadHeader(data[pos..], 10 - k))
      decreases 10 - k
    {
      if pos >= |data| {
        NoHeaderLeft(data[pos..], 10 - k, header, Pow(128, k));
        return Err, pos;
      }
      var value := data[pos];
      HeaderStep(data[pos..], k, header);
      assert data[pos..][0] == value && data[pos..][1..] == data[pos + 1..];
      pos := pos + 1;
      ShiftPower(k);
      header := header + Pow(2, shift) * (value % 128);
      if value < 128 { return Ok(header), pos; }
      shift := shift + 7;
      k := k + 1;
      if shift > 63 {
        NoHeaderLeft(data[pos..], 10 - k, header, Pow(128, k));
        return Err, pos;
      }
    }
  }

  lemma StartHeader(s: seq<byte>)
    ensures ReadHeader(s, 10) == HeaderFrom(0, Pow(128, 0), ReadHeader(s, 10))
  {
    hide ReadHeader;
    assert Pow(128, 0) == 1;
  }

  lemma NoHeaderLeft(s: seq<byte>, left: nat, header: nat, scale: nat)
    requires |s| == 0 || left == 0
    ensures HeaderFrom(header, scale, ReadHeader(s, left)) == NoHeader
  {
  }

  lemma ShiftPower(k: nat)
    ensures Pow(2, 7 * k) == Pow(128, k)
  {
    PowPow(2, 7, k);
    assert Pow(2, 7) == 128 by { PowAdd(2, 4, 3); assert Pow(2, 4) == 16 && Pow(2, 3) == 8; }
  }

  ghost function Then(done: seq<nat>, rest: Result<seq<nat>>): Result<seq<nat>> {
    match rest
    case Err => Err
    case Ok(more) => Ok(done + more)
  }

  /** Taking a run, or as much of it as is still wanted. */
  lemma DecodeStep(s: seq<byte>, width: nat, count: nat, out: seq<nat>)
    requires count > 0
    ensures Then(out, Decode(s, width, count)) ==
            match ReadRun(s, width)
            case NoRun => Err
            case RunIs(run, rest) =>
              var taken := Min(|RunValues(run)|, count);
              Then(out + RunValues(run)[..taken], Decode(rest, width, count - taken))
  {
    hide ReadRun, RunValues;
    match ReadRun(s, width)
    case NoRun =>
    case RunIs(run, rest) =>
      var vs := RunValues(run);
      if |vs| >= count {
        assert out + vs[..count] + [] == out + vs[..count];
      } else {
        assert vs[..|vs|] == vs;
        var more := Decode(rest, width, count - |vs|);
        if more.Ok? { assert out + (vs + more.value) == out + vs + more.value; }
      }
  }

  /** The decoder for every bit width: zero bits say nothing but zeros, and more than 32 are refused. */
  function Hybrid(data: seq<byte>, width: int, count: nat): Result<seq<nat>> {
    if !(0 <= width <= 32) then Err
    else if width == 0 then (if |data| == 0 then Ok(seq(count, _ => 0)) else Err)
    else Decode(data, width, count)
  }

  /** _rle_hybrid */
  method DecodeHybrid(data: seq<byte>, width: int, count: nat) returns (r: Result<seq<nat>>)
    ensures r == Hybrid(data, width, count)
    ensures r.Ok? ==> |r.value| == count && Below(r.value, Pow(2, width))
  {
    hide Decode, ReadHeader, Pow, Then, Unpack, FromLittleEndian, Quotient, Remainder;
    if !(0 <= width <= 32) { return Err; }
    if width == 0 {
      PowPositive(2, 0);
      if |data| > 0 { return Err; }
      return Ok(seq(count, _ => 0));
    }
    var base := Pow(2, width);
    var byteWidth := (width + 7) / 8;
    var out: seq<nat> := [];
    var pos := 0;
    ghost var goal := Decode(data, width, count);
    StartDecode(data, width, count);
    while |out| < count
      invariant 0 <= pos <= |data| && |out| <= count
      invariant goal == Then(out, Decode(data[pos..], width, count - |out|))
      decreases count - |out|
    {
      DecodeStep(data[pos..], width, count - |out|, out);
      var header, next := NextHeader(data, pos);
      if header.Err? { return Err; }
      var n := header.value / 2;
      ghost var rest := data[next..];
      if n == 0 { return Err; }
      if header.value % 2 == 1 {
        var size := n * width;
        if next + size > |data| { return Err; }
        PowPositive(2, width);
        var bits := FromLittleEndian(data[next..next + size]);
        assert rest[..size] == data[next..next + size] && rest[size..] == data[next + size..];
        var take := Min(n * 8, count - |out|);
        var values := TakeBits(bits, base, take, n * 8);
        out := out + values;
        pos := next + size;
      } else {
        if next + byteWidth > |data| { return Err; }
        var value := FromLittleEndian(data[next..next + byteWidth]);
        assert rest[..byteWidth] == data[next..next + byteWidth] && rest[byteWidth..] == data[next + byteWidth..];
        if value >= base { return Err; }
        var take := Min(n, count - |out|);
        assert seq(n, _ => value)[..take] == seq(take, _ => value);
        out := out + seq(take, _ => value);
        pos := next + byteWidth;
      }
    }
    EndDecode(data[pos..], width, out);
    if pos != |data| { return Err; }
    r := Ok(out);
    DecodeRange(data, width, count);
  }

  /** The generator of a bit-packed run: shift and mask, once per value. */
  method TakeBits(bits: nat, base: nat, take: nat, all: nat) returns (values: seq<nat>)
    requires base > 0 && take <= all
    ensures values == Unpack(bits, base, all)[..take]
  {
    hide Quotient, Remainder, Unpack, Pow;
    values := [];
    for i := 0 to take
      invariant |values| == i && values == Unpack(bits, base, all)[..i]
    {
      UnpackAt(bits, base, all, i);
      values := values + [Remainder(Quotient(bits, Pow(base, i)), base)];
    }
  }

  lemma StartDecode(s: seq<byte>, width: nat, count: nat)
    ensures Decode(s, width, count) == Then([], Decode(s[0..], width, count))
  {
    hide Decode;
    assert s[0..] == s;
    var goal := Decode(s, width, count);
    if goal.Ok? { assert [] + goal.value == goal.value; }
  }

  lemma EndDecode(s: seq<byte>, width: nat, out: seq<nat>)
    ensures Then(out, Decode(s, width, 0)) == if |s| == 0 then Ok(out) else Err
  {
    assert out + [] == out;
  }

  // ----- Data pages -----

  function Zeros(levels: seq<nat>): nat {
    if |levels| == 0 then 0 else Zeros(levels[..|levels| - 1]) + if levels[|levels| - 1] == 0 then 1 else 0
  }

  /** The present values of a page, in order. */
  function Present<V>(cells: seq<Option<V>>): seq<V> {
    if |cells| == 0 then []
    else
      var last := cells[|cells| - 1];
      Present(cells[..|cells| - 1]) + if last.Some? then [last.value] else []
  }

  lemma {:induction false} ZerosPrefix(levels: seq<nat>, k: nat)
    requires k <= |levels|
    ensures k - Zeros(levels[..k]) <= |levels| - Zeros(levels)
    ensures k < |levels| && levels[k] != 0 ==> k - Zeros(levels[..k]) < |levels| - Zeros(levels)
    decreases |levels|
  {
    if k == |levels| {
      assert levels[..k] == levels;
    } else {
      var init := levels[..|levels| - 1];
      assert init[..k] == levels[..k];
      ZerosPrefix(init, k);
    }
  }

  lemma {:induction false} ZerosBound(levels: seq<nat>)
    ensures Zeros(levels) <= |levels|
  {
    if |levels| > 0 { ZerosBound(levels[..|levels| - 1]); }
  }

  /**
   * The cells of a page: a value for each non-zero level, drawn from an iterator that is never
   * empty when drawn from and is used up at the end.
   */
  method FillCells<V>(levels: seq<nat>, values: seq<V>) returns (cells: seq<Option<V>>)
    requires |values| == |levels| - Zeros(levels)
    ensures |cells| == |levels|
    ensures forall i | 0 <= i < |cells| :: cells[i].None? <==> levels[i] == 0
    ensures Present(cells) == values
  {
    hide Zeros, Present;
    cells := [];
    var next := 0;
    NothingYet<V>(levels);
    for i := 0 to |levels|
      invariant |cells| == i && 0 <= next <= |values| && next == i - Zeros(levels[..i])
      invariant forall k | 0 <= k < i :: cells[k].None? <==> levels[k] == 0
      invariant Present(cells) == values[..next]
    {
      ZerosPrefix(levels, i);
      ZerosNext(levels, i);
      if levels[i] != 0 {
        PresentNext(cells, Some(values[next]));
        cells := cells + [Some(values[next])];
        next := next + 1;
      } else {
        PresentNext(cells, None);
        cells := cells + [None];
      }
    }
    assert levels[..|levels|] == levels && values[..|values|] == values;
  }

  lemma NothingYet<V>(levels: seq<nat>)
    ensures Zeros(levels[..0]) == 0 && Present<V>([]) == []
  {
  }

  lemma ZerosNext(levels: seq<nat>, i: nat)
    requires i < |levels|
    ensures Zeros(levels[..i + 1]) == Zeros(levels[..i]) + if levels[i] == 0 then 1 else 0
  {
    assert levels[..i + 1][..i] == levels[..i];
  }

  lemma PresentNext<V>(cells: seq<Option<V>>, cell: Option<V>)
    ensures Present(cells + [cell]) == Present(cells) + if cell.Some? then [cell.value] else []
  {
    assert (cells + [cell])[..|cells|] == cells;
  }

  function Lookup<V>(indices: seq<nat>, dictionary: seq<V>): Result<seq<V>> {
    if |indices| == 0 then Ok([]) else
    match Lookup(indices[..|indices| - 1], dictionary)
    case Err => Err
    case Ok(vs) =>
      var index := indices[|indices| - 1];
      if index >= |dictionary| then Err else Ok(vs + [dictionary[index]])
  }

  /** Each value is the dictionary's at its index; one index out of range refuses them all. */
  lemma {:induction false} LookupExact<V>(indices: seq<nat>, dictionary: seq<V>)
    ensures Lookup(indices, dictionary).Ok? <==> forall i | 0 <= i < |indices| :: indices[i] < |dictionary|
    ensures Lookup(indices, dictionary).Ok? ==>
      var vs := Lookup(indices, dictionary).value;
      |vs| == |indices| && forall i | 0 <= i < |vs| :: indices[i] < |dictionary| && vs[i] == dictionary[indices[i]]
  {
    if |indices| > 0 { LookupExact(indices[..|indices| - 1], dictionary); }
  }

  /** Dictionary-encoded values: a width byte, then indices into the dictionary. */
  function DictionaryPage<V>(raw: seq<byte>, count: nat, dictionary: seq<V>): Result<seq<V>> {
    if |raw| == 0 then (if count > 0 then Err else Ok([])) else
    match Hybrid(raw[1..], raw[0], count)
    case Err => Err
    case Ok(indices) => Lookup(indices, dictionary)
  }

  method DictionaryValues<V>(raw: seq<byte>, count: nat, dictionary: seq<V>) returns (r: Result<seq<V>>)
    ensures r == DictionaryPage(raw, count, dictionary)
    ensures r.Ok? ==> |r.value| == count
  {
    hide Hybrid, Pow, Lookup;
    if |raw| == 0 { return if count > 0 then Err else Ok([]); }
    var decoded := DecodeHybrid(raw[1..], raw[0], count);
    if decoded.Err? { return Err; }
    var indices := decoded.value;
    var out: seq<V> := [];
    LookupExact(indices, dictionary);
    for i := 0 to count
      invariant |out| == i
      invariant forall k | 0 <= k < i :: indices[k] < |dictionary| && out[k] == dictionary[indices[k]]
    {
      if indices[i] >= |dictionary| { return Err; }
      out := out + [dictionary[indices[i]]];
    }
    assert out == Lookup(indices, dictionary).value;
    r := Ok(out);
  }

  const PLAIN: nat := 0
  const RLE_DICTIONARY: nat := 8

  datatype PageHeader = PageHeader(
    count: nat, nulls: int, rows: nat, encoding: nat, defLength: int, repLength: int,
    compressed: bool, uncompressedSize: int)

  /** The definition levels, once the header's counts and lengths agree with them. */
  function PageLevels(optional: bool, h: PageHeader, body: seq<byte>): (r: Result<seq<nat>>) {
    if h.repLength != 0 || h.rows != h.count || !(0 <= h.defLength <= |body|) then Err
    else if !optional && (h.defLength != 0 || h.nulls != 0) then Err
    else match if optional then Hybrid(body[..h.defLength], 1, h.count) else Ok(seq(h.count, _ => 1))
      case Err => Err
      case Ok(levels) => if Zeros(levels) != h.nulls then Err else Ok(levels)
  }

  /** The value bytes, of exactly the size the header gives. */
  function PageBytes(
      h: PageHeader, rest: seq<byte>, decompress: (seq<byte>, int) -> Result<seq<byte>>): Result<seq<byte>>
  {
    if h.compressed then decompress(rest, h.uncompressedSize - h.defLength)
    else if |rest| != h.uncompressedSize - h.defLength then Err
    else Ok(rest)
  }

  function PageValues<V>(
      encoding: nat, raw: seq<byte>, count: nat, dictionary: Option<seq<V>>,
      plain: (seq<byte>, nat) -> Result<seq<V>>): Result<seq<V>>
  {
    if encoding == PLAIN then plain(raw, count)
    else if encoding == RLE_DICTIONARY && dictionary.Some? then DictionaryPage(raw, count, dictionary.value)
    else Err
  }

  lemma LevelsCounted(optional: bool, h: PageHeader, body: seq<byte>)
    requires PageLevels(optional, h, body).Ok?
    ensures var levels := PageLevels(optional, h, body).value;
      |levels| == h.count && Zeros(levels) == h.nulls && 0 <= h.nulls <= h.count
  {
    hide Decode, Pow, Zeros;
    if optional { DecodeRange(body[..h.defLength], 1, h.count); }
    ZerosBound(PageLevels(optional, h, body).value);
  }

  /** What a page decodes to: its levels, and its values for the non-zero ones. */
  ghost predicate PageHolds<V>(
      optional: bool, h: PageHeader, body: seq<byte>, dictionary: Option<seq<V>>,
      plain: (seq<byte>, nat) -> Result<seq<V>>, decompress: (seq<byte>, int) -> Result<seq<byte>>,
      levels: seq<nat>, values: seq<V>)
  {
    && PageLevels(optional, h, body) == Ok(levels)
    && 0 <= h.defLength <= |body| && 0 <= h.nulls <= h.count
    && PageBytes(h, body[h.defLength..], decompress).Ok?
    && var raw := PageBytes(h, body[h.defLength..], decompress).value;
       PageValues(h.encoding, raw, h.count - h.nulls, dictionary, plain) == Ok(values)
  }

  /** The cells a page stands for: present exactly at the non-zero levels, with all its values in order. */
  ghost predicate CellsOf<V>(cells: seq<Option<V>>, levels: seq<nat>, values: seq<V>) {
    && |cells| == |levels|
    && (forall i | 0 <= i < |cells| :: cells[i].None? <==> levels[i] == 0)
    && Present(cells) == values
  }

  /** A page's levels and values leave no choice of cells. */
  lemma {:induction false} CellsUnique<V>(a: seq<Option<V>>, b: seq<Option<V>>, levels: seq<nat>, values: seq<V>)
    requires CellsOf(a, levels, values) && CellsOf(b, levels, values)
    ensures a == b
    decreases |levels|
  {
    if |levels| > 0 {
      var k := |levels| - 1;
      assert a == a[..k] + [a[k]] && b == b[..k] + [b[k]];
      if levels[k] == 0 {
        CellsUnique(a[..k], b[..k], levels[..k], values);
      } else {
        assert values[|values| - 1] == a[k].value == b[k].value;
        assert values[..|values| - 1] == Present(a[..k]) == Present(b[..k]);
        CellsUnique(a[..k], b[..k], levels[..k], values[..|values| - 1]);
      }
    }
  }

  /**
   * _data_page_v2: levels, then values, which may be compressed. The page's null count must match
   * its levels, so the decoded values fill exactly the non-zero levels and none is left over.
   */
  method DataPage<V>(
      optional: bool, h: PageHeader, body: seq<byte>, dictionary: Option<seq<V>>,
      plain: (seq<byte>, nat) -> Result<seq<V>>, decompress: (seq<byte>, int) -> Result<seq<byte>>)
    returns (r: Result<seq<Option<V>>>)
    requires forall raw, n :: plain(raw, n).Ok? ==> |plain(raw, n).value| == n
    ensures r.Err? ==> forall levels, values ::
        !PageHolds(optional, h, body, dictionary, plain, decompress, levels, values)
    ensures r.Ok? ==> exists levels, values ::
      PageHolds(optional, h, body, dictionary, plain, decompress, levels, values) && CellsOf(r.value, levels, values)
  {
    hide Hybrid, Pow, DictionaryPage, Zeros, Present;
    if h.repLength != 0 || h.rows != h.count { return Err; }
    if !(0 <= h.defLength <= |body|) { return Err; }
    if !optional && (h.defLength != 0 || h.nulls != 0) { return Err; }
    var levels: seq<nat> := seq(h.count, _ => 1);
    if optional {
      var decoded := DecodeHybrid(body[..h.defLength], 1, h.count);
      if decoded.Err? { return Err; }
      levels := decoded.value;
    }
    if Zeros(levels) != h.nulls { return Err; }
    LevelsCounted(optional, h, body);
    var raw := body[h.defLength..];
    if h.compressed {
      var unpacked := decompress(raw, h.uncompressedSize - h.defLength);
      if unpacked.Err? { return Err; }
      raw := unpacked.value;
    } else if |raw| != h.uncompressedSize - h.defLength {
      return Err;
    }
    assert PageBytes(h, body[h.defLength..], decompress) == Ok(raw);
    var values := ReadValues(h.encoding, raw, h.count - h.nulls, dictionary, plain);
    if values.Err? { return Err; }
    var cells := FillCells(levels, values.value);
    assert PageHolds(optional, h, body, dictionary, plain, decompress, levels, values.value);
    r := Ok(cells);
  }

  /** _values */
  method ReadValues<V>(
      encoding: nat, raw: seq<byte>, count: nat, dictionary: Option<seq<V>>, plain: (seq<byte>, nat) -> Result<seq<V>>)
    returns (r: Result<seq<V>>)
    requires forall raw, n :: plain(raw, n).Ok? ==> |plain(raw, n).value| == n
    ensures r == PageValues(encoding, raw, count, dictionary, plain)
    ensures r.Ok? ==> |r.value| == count
  {
    hide DictionaryPage;
    if encoding == PLAIN { return plain(raw, count); }
    if encoding != RLE_DICTIONARY || dictionary.None? { return Err; }
    r := DictionaryValues(raw, count, dictionary.value);
  }
}
