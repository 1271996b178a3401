/**
 The content-defined chunker of OGB-2 byte indexes: `gear_cuts` checks one chunk with a scan that
 starts 64 bytes before the first permitted cut, and `GearBoundaries` checks a run of chunks.
 */
module Gear {
  import opened Prelude

  const GEAR_MINIMUM: nat := 65_536
  const GEAR_MAXIMUM: nat := 1_048_576
  /** A cut needs the accumulator's low 18 bits clear (mask 262,143). */
  const GEAR_STEP: nat := 262_144

  /** The gear table: one 64-bit word per byte, taken from a digest. */
  type Table = byte -> nat

  function Roll(g: Table, accumulator: nat, b: byte): nat {
    (2 * accumulator + g(b)) % U64
  }

  /** The rolling accumulator after all of `s`, starting from `accumulator`. */
  function Scan(g: Table, accumulator: nat, s: seq<byte>): nat {
    if |s| == 0 then accumulator else Roll(g, Scan(g, accumulator, s[..|s| - 1]), s[|s| - 1])
  }

  // ----- The chunker: a full scan from the start of every chunk -----

  /** A chunk that starts with `s` may end after its first `p` bytes. */
  predicate IsCut(g: Table, s: seq<byte>, p: nat)
    requires p <= |s|
  {
    p >= GEAR_MINIMUM && (Scan(g, 0, s[..p]) % GEAR_STEP == 0 || p == GEAR_MAXIMUM)
  }

  /** The first permitted end at or after `p`; the end of the input when there is none. */
  function ChunkEnd(g: Table, s: seq<byte>, p: nat): (end: nat)
    requires 0 < p <= |s|
    ensures p <= end <= |s|
    decreases |s| - p
  {
    if p == |s| || IsCut(g, s, p) then p else ChunkEnd(g, s, p + 1)
  }

  function Chunks(g: Table, s: seq<byte>): seq<seq<byte>>
    decreases |s|
  {
    if |s| == 0 then []
    else
      var end := ChunkEnd(g, s, 1);
      [s[..end]] + Chunks(g, s[end..])
  }

  function Concat(chunks: seq<seq<byte>>): seq<byte> {
    if |chunks| == 0 then [] else chunks[0] + Concat(chunks[1..])
  }

  // ----- Only the last 64 bytes reach a 64-bit accumulator -----

  lemma {:induction false} ModMultiple(a: nat, q: nat, m: nat)
    requires m > 0
    ensures (a + q * m) % m == a % m
  {
    if q > 0 {
      ModMultiple(a, q - 1, m);
      assert a + q * m == a + (q - 1) * m + m;
      ModOnce(a + (q - 1) * m, m);
    }
  }

  lemma ModOnce(a: nat, m: nat)
    requires m > 0
    ensures (a + m) % m == a % m
  {
    var q, r := a / m, a % m;
    assert a + m == (q + 1) * m + r;
    ModUnique(a + m, q + 1, r, m);
  }

  lemma {:induction false} ModUnique(a: nat, q: nat, r: nat, m: nat)
    requires r < m && a == q * m + r
    ensures a % m == r
  {
    var q', r' := a / m, a % m;
    assert a == q' * m + r';
    if q' > q {
      MulMonotone(q + 1, q', m);
    } else if q' < q {
      MulMonotone(q' + 1, q, m);
    }
  }

  /** A step forgets multiples of 2^64 in the accumulator it starts from. */
  lemma RollReduced(g: Table, u: nat, b: byte)
    ensures Roll(g, u % U64, b) == Roll(g, u, b)
  {
    var q, r := u / U64, u % U64;
    ModMultiple(2 * r + g(b), 2 * q, U64);
    assert 2 * u + g(b) == 2 * r + g(b) + (2 * q) * U64;
  }

  /** A starting accumulator only shifts left, once per byte. */
  lemma {:induction false} ScanShift(g: Table, x: nat, s: seq<byte>)
    requires |s| > 0
    ensures Scan(g, x, s) == (x * Pow(2, |s|) + Scan(g, 0, s)) % U64
  {
    var init, last := s[..|s| - 1], s[|s| - 1];
    assert Pow(2, |s|) == 2 * Pow(2, |init|);
    var u := x * Pow(2, |init|) + Scan(g, 0, init);
    assert Scan(g, x, s) == Roll(g, u, last) by {
      if |init| > 0 {
        ScanShift(g, x, init);
        RollReduced(g, u, last);
      } else {
        assert Pow(2, 0) == 1;
      }
    }
    DoubleShift(x, Pow(2, |init|), Scan(g, 0, init), g(last));
  }

  lemma DoubleShift(x: nat, p: nat, a: nat, b: nat)
    ensures (2 * (x * p + a) + b) % U64 == (x * (2 * p) + (2 * a + b) % U64) % U64
  {
    var w := 2 * a + b;
    var q, r := w / U64, w % U64;
    assert 2 * (x * p + a) + b == x * (2 * p) + r + q * U64;
    ModMultiple(x * (2 * p) + r, q, U64);
  }

  lemma {:induction false} ScanReduced(g: Table, s: seq<byte>)
    ensures Scan(g, 0, s) < U64
  {
  }

  lemma {:induction false} ScanAppend(g: Table, x: nat, s: seq<byte>, t: seq<byte>)
    ensures Scan(g, x, s + t) == Scan(g, Scan(g, x, s), t)
    decreases |t|
  {
    if |t| == 0 {
      assert s + t == s;
    } else {
      ScanAppend(g, x, s, t[..|t| - 1]);
      assert (s + t)[..|s + t| - 1] == s + t[..|t| - 1];
    }
  }

  lemma Pow2At64()
    ensures Pow(2, 64) == U64
  {
    assert Pow(2, 4) == 16 by { assert Pow(2, 2) == 4; }
    PowAdd(2, 4, 4);
    PowAdd(2, 8, 8);
    PowAdd(2, 16, 16);
    PowAdd(2, 32, 32);
  }

  /** Whatever came before, 64 bytes determine the accumulator. */
  lemma Window(g: Table, s: seq<byte>, t: seq<byte>)
    requires |t| >= 64
    ensures Scan(g, 0, s + t) == Scan(g, 0, t)
  {
    ScanAppend(g, 0, s, t);
    var x := Scan(g, 0, s);
    ScanShift(g, x, t);
    Pow2At64();
    PowAdd(2, 64, |t| - 64);
    ScanReduced(g, t);
    hide Scan, Pow;
    var q := x * Pow(2, |t| - 64);
    assert x * (U64 * Pow(2, |t| - 64)) == q * U64 by {
      MulAssociative(x, Pow(2, |t| - 64), U64);
    }
    ModMultiple(Scan(g, 0, t), q, U64);
    ModSmall(Scan(g, 0, t));
  }

  lemma ModSmall(a: nat)
    requires a < U64
    ensures a % U64 == a
  {
  }

  // ----- gear_cuts -----

  /** No cut is permitted before `p`. */
  ghost predicate NoCutBefore(g: Table, s: seq<byte>, p: nat)
    requires p <= |s|
  {
    forall q | 0 <= q < p :: !IsCut(g, s, q)
  }

  /** What the full scan says about a chunk: a cut inside it, or its first cut at its end. */
  method GearCuts(g: Table, chunk: seq<byte>) returns (interior: bool, atEnd: bool)
    ensures interior <==> !NoCutBefore(g, chunk, |chunk|)
    ensures atEnd <==> NoCutBefore(g, chunk, |chunk|) && IsCut(g, chunk, |chunk|)
  {
    hide Scan;
    var length := |chunk|;
    if length < GEAR_MINIMUM { return false, false; }
    var accumulator := 0;
    ghost var start := GEAR_MINIMUM - 64;
    ScanEmpty(g);
    assert chunk[start..start] == [];
    for i := GEAR_MINIMUM - 64 to GEAR_MINIMUM - 1
      invariant accumulator == Scan(g, 0, chunk[start..i])
    {
      ScanNext(g, chunk, start, i);
      accumulator := (2 * accumulator + g(chunk[i])) % U64;
    }
    var position := GEAR_MINIMUM - 1;
    while position < length
      invariant GEAR_MINIMUM - 1 <= position <= length
      invariant accumulator == Scan(g, 0, chunk[start..position])
      invariant forall q | 0 <= q <= position :: !IsCut(g, chunk, q)
    {
      ScanNext(g, chunk, start, position);
      accumulator := (2 * accumulator + g(chunk[position])) % U64;
      position := position + 1;
      assert chunk[..position] == chunk[..start] + chunk[start..position];
      Window(g, chunk[..start], chunk[start..position]);
      if accumulator % GEAR_STEP == 0 || position == GEAR_MAXIMUM {
        assert IsCut(g, chunk, position);
        return position != length, position == length;
      }
    }
    return false, false;
  }

  lemma ScanEmpty(g: Table)
    ensures Scan(g, 0, []) == 0
  {
  }

  lemma ScanNext(g: Table, s: seq<byte>, start: nat, i: nat)
    requires start <= i < |s|
    ensures Scan(g, 0, s[start..i + 1]) == (2 * Scan(g, 0, s[start..i]) + g(s[i])) % U64
  {
    assert s[start..i + 1][..i - start] == s[start..i];
  }

  // ----- GearBoundaries -----

  /** The chunks a run of pushes admits, given whether an unfinished chunk is already open. */
  ghost predicate Admits(g: Table, open: bool, chunks: seq<seq<byte>>)
    decreases |chunks|
  {
    if |chunks| == 0 then true
    else
      var c := chunks[0];
      !open && NoCutBefore(g, c, |c|) && Admits(g, !IsCut(g, c, |c|), chunks[1..])
  }

  class GearBoundaries {
    const g: Table
    /** Set once a chunk ended before a cut point; it must have been the final one. */
    var open: bool

    constructor (g: Table)
      ensures this.g == g && !open
    {
      this.g, open := g, false;
    }

    method Push(chunk: seq<byte>) returns (ok: bool)
      modifies this
      ensures ok <==> !old(open) && NoCutBefore(g, chunk, |chunk|)
      ensures ok ==> (open <==> !IsCut(g, chunk, |chunk|))
    {
      if open { return false; }
      var interior, atEnd := GearCuts(g, chunk);
      if interior { return false; }
      if !atEnd { open := true; }
      ok := true;
    }
  }

  /** A scanned prefix decides its own cuts, whatever follows it. */
  lemma CutIsLocal(g: Table, c: seq<byte>, rest: seq<byte>, p: nat)
    requires p <= |c|
    ensures IsCut(g, c + rest, p) <==> IsCut(g, c, p)
  {
    assert (c + rest)[..p] == c[..p];
  }

  lemma {:induction false} ChunkEndIsFirst(g: Table, s: seq<byte>, p: nat)
    requires 0 < p <= |s|
    ensures var end := ChunkEnd(g, s, p);
            (end < |s| ==> IsCut(g, s, end)) && forall q | p <= q < end :: !IsCut(g, s, q)
    decreases |s| - p
  {
    hide IsCut;
    if !(p == |s| || IsCut(g, s, p)) { ChunkEndIsFirst(g, s, p + 1); }
  }

  /** The chunker's first chunk is `c` exactly when no cut lies inside it and it ends at a cut or the end. */
  lemma FirstChunk(g: Table, c: seq<byte>, rest: seq<byte>)
    requires |c| > 0
    ensures ChunkEnd(g, c + rest, 1) == |c| <==> NoCutBefore(g, c, |c|) && (|rest| == 0 || IsCut(g, c, |c|))
  {
    var s := c + rest;
    ChunkEndIsFirst(g, s, 1);
    forall p | 0 <= p <= |c| ensures IsCut(g, s, p) <==> IsCut(g, c, p) { CutIsLocal(g, c, rest, p); }
    assert !IsCut(g, s, 0);
    hide IsCut;
    if ChunkEnd(g, s, 1) != |c| && NoCutBefore(g, c, |c|) {
      assert ChunkEnd(g, s, 1) > |c|;
      assert !IsCut(g, s, |c|);
    }
  }

  /**
   * A run of non-empty chunks is admitted if and only if it is the chunker's own partition of
   * the bytes they hold together.
   */
  lemma {:induction false} AdmitsCanonical(g: Table, chunks: seq<seq<byte>>)
    requires forall i | 0 <= i < |chunks| :: |chunks[i]| > 0
    ensures Admits(g, false, chunks) <==> chunks == Chunks(g, Concat(chunks))
    decreases |chunks|
  {
    hide IsCut, ChunkEnd, NoCutBefore;
    if |chunks| > 0 {
      var c, rest := chunks[0], Concat(chunks[1..]);
      var s := c + rest;
      var end := ChunkEnd(g, s, 1);
      FirstChunk(g, c, rest);
      AdmitsCanonical(g, chunks[1..]);
      ConcatEmpty(chunks[1..]);
      assert s[..|c|] == c && s[|c|..] == rest;
      assert chunks == [c] + chunks[1..];
      assert Chunks(g, s)[0] == s[..end] && Chunks(g, s)[1..] == Chunks(g, s[end..]);
      if end == |c| {
        assert Chunks(g, s) == [c] + Chunks(g, rest);
        if |rest| == 0 {
          assert chunks[1..] == [];
          assert Admits(g, !IsCut(g, c, |c|), []);
        }
      } else {
        assert |s[..end]| == end;
        if |chunks[1..]| > 0 && NoCutBefore(g, c, |c|) {
          assert !IsCut(g, c, |c|);
          assert !Admits(g, true, chunks[1..]);
        }
      }
    }
  }

  lemma ConcatEmpty(chunks: seq<seq<byte>>)
    requires forall i | 0 <= i < |chunks| :: |chunks[i]| > 0
    ensures |Concat(chunks)| == 0 <==> |chunks| == 0
  {
  }

  // ----- What a chunk is, without the accumulator -----

  /** Each byte's word counts twice as much as that of the byte after it. */
  function Weighted(g: Table, s: seq<byte>): nat {
    if |s| == 0 then 0 else g(s[0]) * Pow(2, |s| - 1) + Weighted(g, s[1..])
  }

  lemma ModTwice(x: nat, p: nat, w: nat)
    ensures (x % U64 * p + w % U64) % U64 == (x * p + w) % U64
  {
    var q, r := x / U64, x % U64;
    var q', r' := w / U64, w % U64;
    assert x * p == r * p + q * p * U64 by { assert x == r + q * U64; MulAssociative(q, p, U64); }
    ModMultiple(r * p + r', q * p + q', U64);
    assert x * p + w == r * p + r' + (q * p + q') * U64;
  }

  lemma {:induction false} ScanWeighted(g: Table, s: seq<byte>)
    ensures Scan(g, 0, s) == Weighted(g, s) % U64
    decreases |s|
  {
    if |s| > 0 {
      var first, rest := [s[0]], s[1..];
      assert s == first + rest;
      ScanAppend(g, 0, first, rest);
      assert Scan(g, 0, first) == g(s[0]) % U64 by { assert first[..0] == []; }
      ScanWeighted(g, rest);
      if |rest| > 0 {
        ScanShift(g, g(s[0]) % U64, rest);
        ModTwice(g(s[0]), Pow(2, |rest|), Weighted(g, rest));
      } else {
        assert rest == [] && Pow(2, 0) == 1;
      }
    }
  }

  /** The low bits of a reduced number are those of the number. */
  lemma LowBits(a: nat)
    ensures a % U64 % GEAR_STEP == a % GEAR_STEP
  {
    var q, r := a / U64, a % U64;
    ModMultiple(r, q * 0x4000_0000_0000, GEAR_STEP);
  }

  /**
   * Where a chunk may end: no earlier than 65,536 bytes, where the weighted sum of its words is a
   * multiple of 262,144, or at 1,048,576 bytes.
   */
  predicate CutAt(g: Table, c: seq<byte>, p: nat)
    requires p <= |c|
  {
    p >= 65_536 && (Weighted(g, c[..p]) % 262_144 == 0 || p == 1_048_576)
  }

  lemma CutExact(g: Table, c: seq<byte>, p: nat)
    requires p <= |c|
    ensures IsCut(g, c, p) <==> CutAt(g, c, p)
  {
    hide Scan, Weighted;
    ScanWeighted(g, c[..p]);
    LowBits(Weighted(g, c[..p]));
  }

  lemma ScanJoined(g: Table, s: seq<byte>, t: seq<byte>)
    requires |t| >= 18
    ensures Scan(g, 0, s + t) == (Scan(g, 0, s) * (GEAR_STEP * Pow(2, |t| - 18)) + Scan(g, 0, t)) % U64
  {
    hide Scan, Pow;
    ScanAppend(g, 0, s, t);
    ScanShift(g, Scan(g, 0, s), t);
    Pow2At18();
    PowAdd(2, 18, |t| - 18);
  }

  /** Only the last 18 bytes before a place decide whether the words sum to a multiple there. */
  lemma CutWindow(g: Table, s: seq<byte>, t: seq<byte>)
    requires |t| >= 18
    ensures Weighted(g, s + t) % GEAR_STEP == Weighted(g, t) % GEAR_STEP
  {
    hide Scan, Weighted, Pow;
    ScanWeighted(g, s + t);
    ScanWeighted(g, t);
    ScanJoined(g, s, t);
    LowBits(Weighted(g, s + t));
    LowBits(Weighted(g, t));
    ShiftedBits(Scan(g, 0, s), Pow(2, |t| - 18), Scan(g, 0, t));
  }

  /** A number shifted by 18 bits or more leaves the low bits alone. */
  lemma ShiftedBits(x: nat, p: nat, a: nat)
    ensures (x * (GEAR_STEP * p) + a) % U64 % GEAR_STEP == a % GEAR_STEP
  {
    LowBits(x * (GEAR_STEP * p) + a);
    MulAssociative(x, p, GEAR_STEP);
    ModMultiple(a, x * p, GEAR_STEP);
  }

  lemma Pow2At18()
    ensures Pow(2, 18) == GEAR_STEP
  {
    assert Pow(2, 2) == 4;
    PowAdd(2, 2, 2);
    PowAdd(2, 4, 4);
    PowAdd(2, 8, 8);
    PowAdd(2, 16, 2);
  }

  /** A chunk holds no place to end before its end, and ends at one unless it is the last. */
  ghost predicate ChunkRight(g: Table, chunks: seq<seq<byte>>, i: nat)
    requires i < |chunks|
  {
    var c := chunks[i];
    && |c| > 0 && (forall p | 0 <= p < |c| :: !CutAt(g, c, p))
    && (i + 1 < |chunks| ==> CutAt(g, c, |c|))
  }

  lemma {:induction false} AdmitsByChunk(g: Table, open: bool, chunks: seq<seq<byte>>)
    requires forall i | 0 <= i < |chunks| :: |chunks[i]| > 0
    ensures Admits(g, open, chunks) <==>
      (|chunks| > 0 ==> !open) && forall i | 0 <= i < |chunks| :: ChunkRight(g, chunks, i)
    decreases |chunks|
  {
    hide IsCut, CutAt;
    if |chunks| > 0 {
      var c := chunks[0];
      forall p | 0 <= p <= |c| ensures IsCut(g, c, p) <==> CutAt(g, c, p) { CutExact(g, c, p); }
      AdmitsByChunk(g, !IsCut(g, c, |c|), chunks[1..]);
      assert ChunkRight(g, chunks, 0) <==> NoCutBefore(g, c, |c|) && (|chunks| > 1 ==> IsCut(g, c, |c|));
      hide ChunkRight;
      forall i | 0 < i < |chunks| ensures ChunkRight(g, chunks, i) <==> ChunkRight(g, chunks[1..], i - 1) {
        RightTail(g, chunks, i);
      }
      assert forall i | 0 <= i < |chunks[1..]| :: ChunkRight(g, chunks[1..], i) <==> ChunkRight(g, chunks, i + 1);
    }
  }

  lemma RightTail(g: Table, chunks: seq<seq<byte>>, i: nat)
    requires 0 < i < |chunks|
    ensures ChunkRight(g, chunks, i) <==> ChunkRight(g, chunks[1..], i - 1)
  {
    assert chunks[1..][i - 1] == chunks[i];
  }

  lemma {:induction false} ChunksCover(g: Table, s: seq<byte>)
    ensures Concat(Chunks(g, s)) == s && forall i | 0 <= i < |Chunks(g, s)| :: |Chunks(g, s)[i]| > 0
    decreases |s|
  {
    hide ChunkEnd;
    if |s| > 0 {
      var end := ChunkEnd(g, s, 1);
      ChunksCover(g, s[end..]);
      assert Chunks(g, s)[1..] == Chunks(g, s[end..]);
    }
  }

  /** The chunks of some bytes are the one way to cut them in which every chunk is right. */
  lemma ChunksExact(g: Table, s: seq<byte>, chunks: seq<seq<byte>>)
    ensures Chunks(g, s) == chunks <==>
      Concat(chunks) == s && forall i | 0 <= i < |chunks| :: ChunkRight(g, chunks, i)
  {
    hide Chunks, Admits;
    ChunksCover(g, s);
    if forall i | 0 <= i < |chunks| :: |chunks[i]| > 0 {
      AdmitsByChunk(g, false, chunks);
      AdmitsCanonical(g, chunks);
    } else {
      var i :| 0 <= i < |chunks| && |chunks[i]| == 0;
      assert !ChunkRight(g, chunks, i);
    }
  }

  /** Every chunk has at most 1,048,576 bytes, and every one but the last at least 65,536. */
  lemma ChunkSizes(g: Table, s: seq<byte>, i: nat)
    requires i < |Chunks(g, s)|
    ensures 0 < |Chunks(g, s)[i]| <= 1_048_576
    ensures i + 1 < |Chunks(g, s)| ==> |Chunks(g, s)[i]| >= 65_536
  {
    hide Chunks, Weighted;
    ChunksExact(g, s, Chunks(g, s));
    assert ChunkRight(g, Chunks(g, s), i);
    assert |Chunks(g, s)[i]| >= 1_048_576 ==> CutAt(g, Chunks(g, s)[i], 1_048_576);
  }

  /** The walk's use of the checker: push every chunk in order. */
  method CheckChunks(g: Table, chunks: seq<seq<byte>>) returns (ok: bool)
    requires forall i | 0 <= i < |chunks| :: |chunks[i]| > 0
    ensures ok <==> chunks == Chunks(g, Concat(chunks))
  {
    hide IsCut, NoCutBefore, Chunks;
    AdmitsCanonical(g, chunks);
    var boundaries := new GearBoundaries(g);
    assert chunks[0..] == chunks;
    for i := 0 to |chunks|
      invariant boundaries.g == g
      invariant Admits(g, false, chunks) <==> Admits(g, boundaries.open, chunks[i..])
    {
      assert chunks[i..][0] == chunks[i] && chunks[i..][1..] == chunks[i + 1..];
      var pushed := boundaries.Push(chunks[i]);
      if !pushed { return false; }
    }
    ok := true;
  }
}
