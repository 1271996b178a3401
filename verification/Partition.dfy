/**
 The content-defined partition of one level of entries into pages (`replay_partition`): a page
 is emitted before it would exceed its bounds, and after an anchored entry once it is long enough.
 */
module Partition {
  import opened Prelude
  import opened Cbor

  type Oid = seq<byte>

  /** A span or length: unsigned and at most 2^63 - 1. */
  type Length = n: nat | n < 0x8000_0000_0000_0000

  const NODE_DATA_LIMIT: nat := 65_536
  const MAX_REFS: nat := 256
  const MIN_PAGE_ENTRIES: nat := 16
  const MAX_PAGE_ENTRIES: nat := 256

  /** One element of the parallel lists sizes, references, tokens and spans. */
  datatype Entry = Entry(size: nat, references: set<Oid>, token: seq<byte>, span: Length)

  /**
   * `fixed` is the node's size apart from the entries and their array head, `spans` says whether
   * the node also records the total span, and `anchor` is the digest test of a token at this level.
   */
  datatype Rule = Rule(fixed: nat, spans: bool, anchor: seq<byte> -> bool)

  function SizeSum(es: seq<Entry>): nat {
    if |es| == 0 then 0 else SizeSum(es[..|es| - 1]) + es[|es| - 1].size
  }

  function SpanSum(es: seq<Entry>): nat {
    if |es| == 0 then 0 else SpanSum(es[..|es| - 1]) + es[|es| - 1].span
  }

  function References(es: seq<Entry>): set<Oid> {
    if |es| == 0 then {} else References(es[..|es| - 1]) + es[|es| - 1].references
  }

  function DataSize(rule: Rule, count: nat, payload: nat, span: nat): nat {
    rule.fixed + |Head(4, count)| + payload + if rule.spans then |Encode(Int(span))| else 0
  }

  /** The encoded size of a node that holds exactly these entries. */
  function NodeSize(rule: Rule, es: seq<Entry>): nat {
    DataSize(rule, |es|, SizeSum(es), SpanSum(es))
  }

  /** The entries may share one node. */
  predicate Fits(rule: Rule, es: seq<Entry>) {
    && |es| <= MAX_PAGE_ENTRIES
    && NodeSize(rule, es) <= NODE_DATA_LIMIT
    && |References(es)| <= MAX_REFS
  }

  /** The last entry ends its page: the page is full, or long enough and anchored. */
  predicate Closes(rule: Rule, es: seq<Entry>) {
    |es| == MAX_PAGE_ENTRIES || (|es| >= MIN_PAGE_ENTRIES && rule.anchor(es[|es| - 1].token))
  }

  // ----- The rule, stated about a finished grouping -----

  /** `n` is where the first page of `es` must end. */
  ghost predicate FirstPage(rule: Rule, es: seq<Entry>, n: nat) {
    && 0 < n <= |es|
    && Fits(rule, es[..n])
    && (forall m | 0 < m < n :: !Closes(rule, es[..m]))
    && (n < |es| ==> Closes(rule, es[..n]) || !Fits(rule, es[..n + 1]))
  }

  /** Every page in turn ends where it must. */
  ghost predicate Canonical(rule: Rule, es: seq<Entry>, groups: seq<nat>)
    decreases |groups|
  {
    if |groups| == 0 then |es| == 0
    else
      && FirstPage(rule, es, groups[0])
      && Canonical(rule, es[groups[0]..], groups[1..])
  }

  /** Each entry fits a node of its own; otherwise it needed overflow lowering. */
  ghost predicate EachFits(rule: Rule, es: seq<Entry>) {
    forall i | 0 <= i < |es| :: Fits(rule, [es[i]])
  }

  function Sum(groups: seq<nat>): nat {
    if |groups| == 0 then 0 else groups[0] + Sum(groups[1..])
  }

  // ----- The greedy reading of the rule -----

  /** The end of the page whose first `n` entries are already in it. */
  function PageEnd(rule: Rule, es: seq<Entry>, n: nat): (end: nat)
    requires 0 < n <= |es|
    ensures n <= end <= |es|
    decreases |es| - n
  {
    if n == |es| || Closes(rule, es[..n]) || !Fits(rule, es[..n + 1]) then n else PageEnd(rule, es, n + 1)
  }

  function Greedy(rule: Rule, es: seq<Entry>): Result<seq<nat>>
    decreases |es|
  {
    if |es| == 0 then Ok([])
    else if !Fits(rule, es[..1]) then Err
    else GreedyFrom(rule, es, PageEnd(rule, es, 1))
  }

  /** The grouping whose first page ends at `n`. */
  function GreedyFrom(rule: Rule, es: seq<Entry>, n: nat): Result<seq<nat>>
    requires 0 < n <= |es|
    decreases |es|, 0
  {
    var groups :- Greedy(rule, es[n..]);
    Ok([n] + groups)
  }

  // ----- Sizes grow with the entries -----

  lemma {:induction false} MinimalGrows(m: nat, n: nat)
    requires m <= n
    ensures |Minimal(m)| <= |Minimal(n)|
  {
    if m > 0 { MinimalGrows(m / 256, n / 256); }
  }

  lemma HeadGrows(major: nat, a: nat, b: nat)
    requires major < 8 && a <= b < U64
    ensures |Head(major, a)| <= |Head(major, b)|
  {
  }

  lemma NatEncodingLength(n: nat)
    requires n < U64
    ensures |Encode(Int(n))| == |Head(0, n)| <= 9
  {
  }

  lemma WideEncodingLength(n: nat)
    requires U64 <= n < Pow(256, 16)
    ensures |Encode(Int(n))| == 2 + |Minimal(n)| > 9
  {
    WideMinimal(n);
    assert |Minimal(n)| <= 16 by {
      if |Minimal(n)| > 16 {
        MinimalInverse(Minimal(n));
        PowMonotone(256, 16, |Minimal(n)| - 1);
      }
    }
    hide Minimal, Pow, FromBigEndian;
  }

  lemma SpanEncodingGrows(m: nat, n: nat)
    requires m <= n < Pow(256, 16)
    ensures |Encode(Int(m))| <= |Encode(Int(n))|
  {
    hide Encode, Head, Minimal, Pow;
    if n < U64 {
      NatEncodingLength(m);
      NatEncodingLength(n);
      HeadGrows(0, m, n);
    } else if m < U64 {
      NatEncodingLength(m);
      WideEncodingLength(n);
    } else {
      WideEncodingLength(m);
      WideEncodingLength(n);
      MinimalGrows(m, n);
    }
  }

  lemma {:induction false} SpanSumBound(es: seq<Entry>)
    requires |es| <= MAX_PAGE_ENTRIES
    ensures SpanSum(es) <= |es| * 0x8000_0000_0000_0000
    ensures SpanSum(es) < Pow(256, 16)
  {
    if |es| > 0 { SpanSumBound(es[..|es| - 1]); }
    PowersOf256();
    PowAdd(256, 8, 8);
    hide Pow;
  }

  lemma {:induction false} CardinalityGrows<T>(a: set<T>, b: set<T>)
    requires a <= b
    ensures |a| <= |b|
  {
    assert b == a + (b - a);
  }

  /** Entries kept in order and possibly with others between them weigh no more. */
  lemma {:induction false} PrefixSums(es: seq<Entry>, m: nat)
    requires m <= |es|
    ensures SizeSum(es[..m]) <= SizeSum(es) && SpanSum(es[..m]) <= SpanSum(es)
    ensures References(es[..m]) <= References(es)
    decreases |es|
  {
    if m < |es| {
      var init := es[..|es| - 1];
      PrefixSums(init, m);
      assert init[..m] == es[..m];
    } else {
      assert es[..m] == es;
    }
  }

  lemma {:induction false} LastSums(es: seq<Entry>)
    requires |es| > 0
    ensures SizeSum([es[|es| - 1]]) <= SizeSum(es) && SpanSum([es[|es| - 1]]) <= SpanSum(es)
    ensures References([es[|es| - 1]]) <= References(es)
  {
    var last := [es[|es| - 1]];
    assert last[..0] == [];
    assert SizeSum(last) == SizeSum(last[..0]) + last[0].size;
    assert SpanSum(last) == SpanSum(last[..0]) + last[0].span;
    assert References(last) == References(last[..0]) + last[0].references;
  }

  /** Taking entries away keeps a page within its bounds. */
  lemma FitsFewer(rule: Rule, es: seq<Entry>, fewer: seq<Entry>)
    requires Fits(rule, es) && |fewer| <= |es|
    requires SizeSum(fewer) <= SizeSum(es) && SpanSum(fewer) <= SpanSum(es) && References(fewer) <= References(es)
    ensures Fits(rule, fewer)
  {
    HeadGrows(4, |fewer|, |es|);
    SpanSumBound(es);
    SpanEncodingGrows(SpanSum(fewer), SpanSum(es));
    CardinalityGrows(References(fewer), References(es));
    hide Head, Encode, SizeSum, SpanSum, References, Pow;
  }

  lemma FitsPrefix(rule: Rule, es: seq<Entry>, m: nat)
    requires Fits(rule, es) && m <= |es|
    ensures Fits(rule, es[..m])
  {
    hide SizeSum, SpanSum, References, NodeSize;
    PrefixSums(es, m);
    FitsFewer(rule, es, es[..m]);
  }

  lemma FitsLast(rule: Rule, es: seq<Entry>)
    requires Fits(rule, es) && |es| > 0
    ensures Fits(rule, [es[|es| - 1]])
  {
    hide SizeSum, SpanSum, References, NodeSize;
    LastSums(es);
    FitsFewer(rule, es, [es[|es| - 1]]);
  }

  // ----- Greedy and the rule agree -----

  lemma {:induction false} PageEndIsFirstPage(rule: Rule, es: seq<Entry>, n: nat)
    requires 0 < n <= |es| && Fits(rule, es[..n])
    requires forall m | 0 < m < n :: !Closes(rule, es[..m])
    ensures FirstPage(rule, es, PageEnd(rule, es, n))
    decreases |es| - n
  {
    hide Fits, Closes;
    if !(n == |es| || Closes(rule, es[..n]) || !Fits(rule, es[..n + 1])) {
      PageEndIsFirstPage(rule, es, n + 1);
    }
  }

  lemma FirstPageUnique(rule: Rule, es: seq<Entry>, m: nat, n: nat)
    requires FirstPage(rule, es, m) && FirstPage(rule, es, n)
    ensures m == n
  {
    var lo, hi := Min(m, n), Max(m, n);
    hide Closes, NodeSize, References;
    if lo < hi {
      FitsPrefix(rule, es[..hi], lo + 1);
      assert es[..hi][..lo + 1] == es[..lo + 1];
    }
  }

  /** The rule admits at most one grouping. */
  lemma {:induction false} CanonicalUnique(rule: Rule, es: seq<Entry>, g: seq<nat>, h: seq<nat>)
    requires Canonical(rule, es, g) && Canonical(rule, es, h)
    ensures g == h
    decreases |g|
  {
    hide FirstPage;
    if |g| > 0 && |h| > 0 {
      FirstPageNonEmpty(rule, es, g[0]);
      FirstPageUnique(rule, es, g[0], h[0]);
      CanonicalUnique(rule, es[g[0]..], g[1..], h[1..]);
      assert g == [g[0]] + g[1..] && h == [h[0]] + h[1..];
    } else if |g| + |h| > 0 {
      FirstPageNonEmpty(rule, es, if |g| > 0 then g[0] else h[0]);
    }
  }

  lemma FirstPageNonEmpty(rule: Rule, es: seq<Entry>, n: nat)
    requires FirstPage(rule, es, n)
    ensures 0 < n <= |es|
  {
  }

  /** The greedy reading produces the canonical grouping. */
  lemma {:induction false} GreedyCanonical(rule: Rule, es: seq<Entry>)
    requires Greedy(rule, es).Ok?
    ensures Canonical(rule, es, Greedy(rule, es).value)
    decreases |es|
  {
    hide FirstPage, Fits, Closes, PageEnd;
    if |es| > 0 {
      var n := PageEnd(rule, es, 1);
      PageEndIsFirstPage(rule, es, 1);
      GreedyCanonical(rule, es[n..]);
      var groups := Greedy(rule, es[n..]).value;
      assert ([n] + groups)[1..] == groups;
    }
  }

  /** It refuses exactly when some entry does not fit a node of its own. */
  lemma {:induction false} GreedyRefuses(rule: Rule, es: seq<Entry>)
    ensures Greedy(rule, es).Ok? <==> EachFits(rule, es)
    decreases |es|
  {
    hide Fits, Closes, PageEnd;
    if |es| > 0 {
      assert es[..1] == [es[0]];
      if Fits(rule, es[..1]) {
        var n := PageEnd(rule, es, 1);
        PageEndIsFirstPage(rule, es, 1);
        GreedyRefuses(rule, es[n..]);
        forall i | 0 <= i < n ensures Fits(rule, [es[i]]) {
          MemberFits(rule, es[..n], i);
        }
        assert forall i | n <= i < |es| :: es[i] == es[n..][i - n];
        if EachFits(rule, es[n..]) {
          forall i | 0 <= i < |es| ensures Fits(rule, [es[i]]) {
            if i >= n { assert Fits(rule, [es[n..][i - n]]); }
          }
        } else {
          var i :| 0 <= i < |es[n..]| && !Fits(rule, [es[n..][i]]);
          assert !Fits(rule, [es[n + i]]);
        }
      }
    }
  }

  lemma MemberFits(rule: Rule, page: seq<Entry>, i: nat)
    requires Fits(rule, page) && i < |page|
    ensures Fits(rule, [page[i]])
  {
    FitsPrefix(rule, page, i + 1);
    FitsLast(rule, page[..i + 1]);
  }

  /** A grouping covers the entries with pages of 1 to 256 entries, each within the node bounds. */
  lemma {:induction false} CanonicalBounds(rule: Rule, es: seq<Entry>, groups: seq<nat>)
    requires Canonical(rule, es, groups)
    ensures Sum(groups) == |es|
    ensures forall i | 0 <= i < |groups| :: 0 < groups[i] <= MAX_PAGE_ENTRIES
    ensures forall i | 0 <= i < |groups| :: PageFits(rule, es, groups, i)
    decreases |groups|
  {
    hide NodeSize, References, Closes;
    if |groups| > 0 {
      CanonicalBounds(rule, es[groups[0]..], groups[1..]);
      forall i | 0 <= i < |groups|
        ensures 0 < groups[i] <= MAX_PAGE_ENTRIES && PageFits(rule, es, groups, i)
      {
        if i > 0 {
          assert groups[i] == groups[1..][i - 1];
          assert PageFits(rule, es[groups[0]..], groups[1..], i - 1);
          PageAtTail(es, groups, i);
        } else {
          assert PageAt(es, groups, 0) == es[..groups[0]];
        }
      }
    }
  }

  /** The entries of page `i` of a grouping; empty when the grouping runs past the entries. */
  function PageAt(es: seq<Entry>, groups: seq<nat>, i: nat): seq<Entry>
    requires i < |groups|
  {
    var start := Sum(groups[..i]);
    if start + groups[i] <= |es| then es[start..start + groups[i]] else []
  }

  ghost predicate PageFits(rule: Rule, es: seq<Entry>, groups: seq<nat>, i: nat)
    requires i < |groups|
  {
    |PageAt(es, groups, i)| == groups[i] && Fits(rule, PageAt(es, groups, i))
  }

  lemma SliceOfTail(es: seq<Entry>, a: nat, b: nat, c: nat)
    requires b <= c && a + c <= |es|
    ensures es[a + b..a + c] == es[a..][b..c]
  {
  }

  lemma PageAtTail(es: seq<Entry>, groups: seq<nat>, i: nat)
    requires 0 < i < |groups| && groups[0] <= |es|
    ensures PageAt(es, groups, i) == PageAt(es[groups[0]..], groups[1..], i - 1)
  {
    assert groups[..i] == [groups[0]] + groups[1..][..i - 1];
    var start := Sum(groups[1..][..i - 1]);
    assert Sum(groups[..i]) == groups[0] + start by { assert groups[..i][1..] == groups[1..][..i - 1]; }
    if groups[0] + start + groups[i] <= |es| {
      SliceOfTail(es, groups[0], start, start + groups[i]);
    }
  }

  // ----- The rule, page by page -----

  /** Where page `i` begins among the entries. */
  function PageStart(groups: seq<nat>, i: nat): nat
    requires i <= |groups|
  {
    Sum(groups[..i])
  }

  /**
   * Page `i` is right: it fits, nothing before its last entry ends it, and if more entries follow it
   * either ends itself or has no room for the next.
   */
  ghost predicate PageRight(rule: Rule, es: seq<Entry>, groups: seq<nat>, i: nat)
    requires i < |groups|
  {
    var start, page := PageStart(groups, i), PageAt(es, groups, i);
    && groups[i] > 0 && |page| == groups[i] && Fits(rule, page)
    && (forall m | 0 < m < groups[i] :: !Closes(rule, page[..m]))
    && (start + groups[i] < |es| ==> Closes(rule, page) || !Fits(rule, page + [es[start + groups[i]]]))
  }

  lemma StartOfTail(groups: seq<nat>, i: nat)
    requires 0 < i <= |groups|
    ensures PageStart(groups, i) == groups[0] + PageStart(groups[1..], i - 1)
  {
    assert groups[..i][0] == groups[0] && groups[..i][1..] == groups[1..][..i - 1];
  }

  lemma {:induction false} StartGrows(sizes: seq<nat>, p: nat)
    requires p < |sizes|
    ensures PageStart(sizes, p + 1) == PageStart(sizes, p) + sizes[p]
  {
    if p == 0 {
      assert sizes[..1] == [sizes[0]] && sizes[..1][1..] == [];
    } else {
      StartOfTail(sizes, p + 1);
      StartOfTail(sizes, p);
      StartGrows(sizes[1..], p - 1);
    }
  }

  lemma WholeStart(groups: seq<nat>)
    ensures PageStart(groups, |groups|) == Sum(groups)
  {
    assert groups[..|groups|] == groups;
  }

  lemma FirstPageRight(rule: Rule, es: seq<Entry>, groups: seq<nat>)
    requires |groups| > 0
    ensures FirstPage(rule, es, groups[0]) <==> PageRight(rule, es, groups, 0)
  {
    hide NodeSize, References, Fits, Closes;
    var n := groups[0];
    assert PageStart(groups, 0) == 0;
    if n <= |es| {
      assert PageAt(es, groups, 0) == es[..n];
      assert forall m | 0 < m < n :: es[..n][..m] == es[..m];
      if n < |es| { assert es[..n + 1] == es[..n] + [es[n]]; }
    }
  }

  lemma PageRightTail(rule: Rule, es: seq<Entry>, groups: seq<nat>, i: nat)
    requires 0 < i < |groups| && groups[0] <= |es|
    ensures PageRight(rule, es, groups, i) <==> PageRight(rule, es[groups[0]..], groups[1..], i - 1)
  {
    hide NodeSize, References, Fits, Closes;
    StartOfTail(groups, i);
    PageAtTail(es, groups, i);
  }

  /** A grouping obeys the rule exactly when it covers the entries and every page of it is right. */
  lemma {:induction false} CanonicalByPages(rule: Rule, es: seq<Entry>, groups: seq<nat>)
    ensures Canonical(rule, es, groups) <==>
      Sum(groups) == |es| && forall i | 0 <= i < |groups| :: PageRight(rule, es, groups, i)
    decreases |groups|
  {
    hide FirstPage, PageRight;
    if |groups| > 0 {
      FirstPageRight(rule, es, groups);
      if groups[0] <= |es| {
        CanonicalByPages(rule, es[groups[0]..], groups[1..]);
        forall i | 0 < i < |groups|
          ensures PageRight(rule, es, groups, i) <==> PageRight(rule, es[groups[0]..], groups[1..], i - 1)
        {
          PageRightTail(rule, es, groups, i);
        }
        assert forall i | 0 <= i < |groups[1..]| ::
          PageRight(rule, es[groups[0]..], groups[1..], i) <==> PageRight(rule, es, groups, i + 1);
      } else {
        PageWithin(rule, es, groups);
      }
    }
  }

  lemma PageWithin(rule: Rule, es: seq<Entry>, groups: seq<nat>)
    requires |groups| > 0 && groups[0] > |es|
    ensures !PageRight(rule, es, groups, 0) && !FirstPage(rule, es, groups[0])
  {
    assert PageStart(groups, 0) == 0;
  }

  /** The groups the loop produces are the one grouping that obeys the rule, whenever there is one. */
  lemma {:induction false} GreedyExact(rule: Rule, es: seq<Entry>, groups: seq<nat>)
    ensures Greedy(rule, es) == Ok(groups) <==> Canonical(rule, es, groups)
  {
    hide Greedy, Canonical, EachFits;
    if Greedy(rule, es) == Ok(groups) { GreedyCanonical(rule, es); }
    if Canonical(rule, es, groups) {
      CanonicalEachFits(rule, es, groups);
      GreedyRefuses(rule, es);
      GreedyCanonical(rule, es);
      CanonicalUnique(rule, es, groups, Greedy(rule, es).value);
    }
  }

  lemma {:induction false} CanonicalEachFits(rule: Rule, es: seq<Entry>, groups: seq<nat>)
    requires Canonical(rule, es, groups)
    ensures EachFits(rule, es)
    decreases |groups|
  {
    hide Fits, Closes;
    if |groups| > 0 {
      var n := groups[0];
      CanonicalEachFits(rule, es[n..], groups[1..]);
      forall i | 0 <= i < |es| ensures Fits(rule, [es[i]]) {
        if i < n { MemberFits(rule, es[..n], i); } else { assert es[i] == es[n..][i - n]; }
      }
    }
  }

  /** The references of a page are those of its entries. */
  lemma {:induction false} ReferencesExact(es: seq<Entry>, o: Oid)
    ensures o in References(es) <==> exists i | 0 <= i < |es| :: o in es[i].references
  {
    if |es| > 0 {
      var k := |es| - 1;
      ReferencesExact(es[..k], o);
      if i :| 0 <= i < k && o in es[..k][i].references { assert o in es[i].references; }
      if i :| 0 <= i < |es| && o in es[i].references { if i < k { assert o in es[..k][i].references; } }
    }
  }

  // ----- Appending entries -----

  /** Nothing that is appended reaches into a page: it closed itself, or the next entry does not fit. */
  predicate Settled(rule: Rule, page: seq<Entry>, more: seq<Entry>) {
    |more| == 0 || Closes(rule, page) || !Fits(rule, page + [more[0]])
  }

  /** A page that another entry follows ended for good: more entries never move that end. */
  lemma FirstPageStable(rule: Rule, es: seq<Entry>, more: seq<Entry>, n: nat)
    requires FirstPage(rule, es, n) && n < |es|
    ensures FirstPage(rule, es + more, n)
  {
    hide NodeSize, References;
    assert forall m | 0 <= m <= |es| :: (es + more)[..m] == es[..m];
  }

  /** The only page of some entries stays as it is exactly when it is settled. */
  lemma LastPageStable(rule: Rule, es: seq<Entry>, more: seq<Entry>)
    requires FirstPage(rule, es, |es|)
    ensures FirstPage(rule, es + more, |es|) <==> Settled(rule, es, more)
  {
    hide NodeSize, References, Fits, Closes;
    assert forall m | 0 <= m <= |es| :: (es + more)[..m] == es[..m];
    assert es[..|es|] == es;
    if |more| > 0 { assert (es + more)[..|es| + 1] == es + [more[0]]; }
  }

  /**
   * Appending entries keeps every page but the last, and keeps the last one exactly when it is
   * settled: closed by its own final entry, or with no room for the next.
   */
  lemma {:induction false} AppendStable(rule: Rule, es: seq<Entry>, more: seq<Entry>, g: seq<nat>, h: seq<nat>)
    requires Canonical(rule, es, g) && Canonical(rule, es + more, h)
    ensures |g| > 0 ==> g[..|g| - 1] <= h
    ensures |g| > 0 ==> (g <= h <==> Settled(rule, PageAt(es, g, |g| - 1), more))
    decreases |g|
  {
    hide NodeSize, References, Closes, FirstPage, Settled;
    if |g| > 0 {
      var n := g[0];
      FirstPageNonEmpty(rule, es, n);
      assert es + more != [];
      FirstPageNonEmpty(rule, es + more, h[0]);
      if |g| > 1 {
        FirstPageNonEmpty(rule, es[n..], g[1]);
        FirstPageStable(rule, es, more, n);
        FirstPageUnique(rule, es + more, n, h[0]);
        assert (es + more)[n..] == es[n..] + more;
        AppendStable(rule, es[n..], more, g[1..], h[1..]);
        PageAtTail(es, g, |g| - 1);
        assert g[..|g| - 1] == [n] + g[1..][..|g| - 2] && g == [n] + g[1..] && h == [n] + h[1..];
        assert g <= h <==> g[1..] <= h[1..];
      } else {
        assert |es[n..]| == 0;
        assert PageAt(es, g, 0) == es[..n] == es;
        assert g == [n];
        LastPageStable(rule, es, more);
        if FirstPage(rule, es + more, n) { FirstPageUnique(rule, es + more, n, h[0]); }
        assert g <= h <==> h[0] == n;
      }
    }
  }

  // ----- The streaming loop -----

  /** Emitted pages followed by the grouping of what is left. */
  ghost function After(groups: seq<nat>, rest: Result<seq<nat>>): Result<seq<nat>> {
    match rest
    case Err => Err
    case Ok(more) => Ok(groups + more)
  }

  /** The grouping of what is left when `count` of it is already in the open page. */
  ghost function Resume(rule: Rule, es: seq<Entry>, count: nat): Result<seq<nat>>
    requires count <= |es|
  {
    if count == 0 then Greedy(rule, es) else GreedyFrom(rule, es, PageEnd(rule, es, count))
  }

  /** The running counters describe the open page. */
  ghost predicate Tracks(page: seq<Entry>, count: nat, entryBytes: nat, total: nat, open: set<Oid>) {
    |page| == count && SizeSum(page) == entryBytes && SpanSum(page) == total && References(page) == open
  }

  method ReplayPartition(rule: Rule, es: seq<Entry>) returns (r: Result<seq<nat>>)
    ensures r == Greedy(rule, es)
    ensures r.Ok? <==> EachFits(rule, es)
    ensures r.Ok? ==> Canonical(rule, es, r.value)
  {
    hide Greedy, Resume, After, Tracks, Fits, Closes, DataSize, EachFits, Canonical;
    var groups: seq<nat> := [];
    var count: nat, entryBytes: nat, total: nat := 0, 0, 0;
    var open: set<Oid> := {};
    ghost var page: seq<Entry> := [];
    Start(rule, es);
    for index := 0 to |es|
      invariant Tracks(page, count, entryBytes, total, open) && |page| == count
      invariant count > 0 ==> Fits(rule, page) && !Closes(rule, page)
      invariant Greedy(rule, es) == After(groups, Resume(rule, page + es[index..], count))
    {
      var e := es[index];
      assert es[index..] == [e] + es[index + 1..];
      TracksNext(rule, page, count, entryBytes, total, open, e);
      if count > 0
         && (count + 1 > MAX_PAGE_ENTRIES
             || DataSize(rule, count + 1, entryBytes + e.size, total + e.span) > NODE_DATA_LIMIT
             || |open + e.references| > MAX_REFS) {
        Emit(rule, page, es[index..], groups);
        groups := groups + [count];
        count, entryBytes, total, open := 0, 0, 0, {};
        page := [];
        TracksNext(rule, page, count, entryBytes, total, open, e);
      }
      ResumeStep(rule, page, e, es[index + 1..], groups);
      count := count + 1;
      entryBytes := entryBytes + e.size;
      total := total + e.span;
      open := open + e.references;
      page := page + [e];
      if DataSize(rule, count, entryBytes, total) > NODE_DATA_LIMIT || |open| > MAX_REFS {
        GreedyRefuses(rule, es);
        return Err;
      }
      if count == MAX_PAGE_ENTRIES || (count >= MIN_PAGE_ENTRIES && rule.anchor(e.token)) {
        Emit(rule, page, es[index + 1..], groups);
        groups := groups + [count];
        count, entryBytes, total, open := 0, 0, 0, {};
        page := [];
        TracksNext(rule, page, count, entryBytes, total, open, e);
      }
    }
    if count > 0 {
      Emit(rule, page, es[|es|..], groups);
      groups := groups + [count];
    }
    NothingLeft(rule, groups);
    r := Ok(groups);
    GreedyRefuses(rule, es);
    GreedyCanonical(rule, es);
  }

  lemma Start(rule: Rule, es: seq<Entry>)
    ensures Greedy(rule, es) == After([], Resume(rule, [] + es[0..], 0))
    ensures Tracks([], 0, 0, 0, {})
  {
    hide Greedy;
    assert [] + es[0..] == es;
    match Greedy(rule, es)
    case Err =>
    case Ok(g) => assert [] + g == g;
  }

  lemma TracksNext(
      rule: Rule, page: seq<Entry>, count: nat, entryBytes: nat, total: nat, open: set<Oid>, e: Entry)
    requires (page == [] && count == entryBytes == total == 0 && open == {})
          || Tracks(page, count, entryBytes, total, open)
    ensures Tracks(page, count, entryBytes, total, open) && |page| == count
    ensures Tracks(page + [e], count + 1, entryBytes + e.size, total + e.span, open + e.references)
    ensures Fits(rule, page + [e]) <==>
              && count + 1 <= MAX_PAGE_ENTRIES
              && DataSize(rule, count + 1, entryBytes + e.size, total + e.span) <= NODE_DATA_LIMIT
              && |open + e.references| <= MAX_REFS
    ensures Closes(rule, page + [e]) <==>
              count + 1 == MAX_PAGE_ENTRIES || (count + 1 >= MIN_PAGE_ENTRIES && rule.anchor(e.token))
  {
    hide DataSize;
    assert (page + [e])[..|page|] == page;
  }

  /** Emitting the open page: it closed itself, or the next entry does not fit, or none follows. */
  lemma Emit(rule: Rule, page: seq<Entry>, left: seq<Entry>, groups: seq<nat>)
    requires |page| > 0
    requires |left| == 0 || Closes(rule, page) || !Fits(rule, page + [left[0]])
    ensures After(groups, Resume(rule, page + left, |page|)) == After(groups + [|page|], Resume(rule, [] + left, 0))
  {
    hide Fits, Closes, Greedy;
    var es := page + left;
    assert es[..|page|] == page && es[|page|..] == left && [] + left == left;
    if |left| > 0 { assert es[..|page| + 1] == page + [left[0]]; }
    assert PageEnd(rule, es, |page|) == |page|;
    match Greedy(rule, left)
    case Err =>
    case Ok(more) => assert groups + ([|page|] + more) == groups + [|page|] + more;
  }

  /** Adding the next entry to the open page, which refuses only an entry that fits no page. */
  lemma ResumeStep(rule: Rule, page: seq<Entry>, e: Entry, left: seq<Entry>, groups: seq<nat>)
    requires |page| > 0 ==> !Closes(rule, page) && Fits(rule, page + [e])
    ensures After(groups, Resume(rule, page + ([e] + left), |page|)) ==
            if Fits(rule, page + [e]) then After(groups, Resume(rule, page + [e] + left, |page| + 1)) else Err
  {
    hide Fits, Closes;
    var es := page + [e] + left;
    assert page + ([e] + left) == es;
    assert es[..|page|] == page && es[..|page| + 1] == page + [e];
  }

  lemma NothingLeft(rule: Rule, groups: seq<nat>)
    ensures After(groups, Resume(rule, [] + [], 0)) == Ok(groups)
  {
    assert groups + [] == groups;
  }
}
