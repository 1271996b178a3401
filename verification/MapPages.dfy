/**
 What an accepted ordered map is (`ordered_map`, `_check_map_partition`).

 - which keys end its pages, and what has room in them
 - the pages of every height, as the walk gathers them
 - sound trees, which are walked to the end
 - acceptance: these things, and nothing else, decide it
 */
module MapPages {
  import opened Prelude
  import opened Cbor
  import opened OrderedMap
  import opened MapStructure
  import KeyOrder
  import P = Partition

  // ----- One page, by its keys, its bytes and its references -----

  /** The key of a row, the fence of a child. */
  function KeyAt(n: Node, i: nat): Value
    requires i < Size(n)
  {
    if n.Leaf? then n.rows[i].key else n.children[i].fence
  }

  /** The native references of a page's rows, or of its fences and the children themselves. */
  ghost function PageReferences(x: Context, n: Node): set<Oid> {
    match n
    case Leaf(_, rows) => set r, o | r in rows && o in x.rowReferences(r.key, r.value) :: o
    case Branch(_, _, children) =>
      (set c, o | c in children && o in x.fenceReferences(c.fence) :: o) + (set c | c in children :: c.oid)
    case Other => {}
  }

  /** The page with the first item of the next one added. */
  function Extended(n: Node, next: Node): Node
    requires Size(next) > 0 && (n.Leaf? <==> next.Leaf?) && (n.Branch? <==> next.Branch?)
  {
    match n
    case Leaf(domain, rows) => Leaf(domain, rows + [next.rows[0]])
    case Branch(domain, height, children) => Branch(domain, height, children + [next.children[0]])
    case Other => Other
  }

  /** A page within the limits of a node. */
  ghost predicate WithinLimits(x: Context, n: Node)
    requires !n.Other?
  {
    Size(n) <= 256 && |Encode(NodeValue(n))| <= 65_536 && |PageReferences(x, n)| <= 256
  }

  /** Ending after its first `m` items: it is full, or long enough and the last key among them is anchored. */
  predicate EndsAt(x: Context, n: Node, height: nat, m: nat)
    requires m <= Size(n)
  {
    m == 256 || (m >= 16 && x.anchor(height, Encode(KeyAt(n, m - 1))))
  }

  /**
   * A page of a level is right: it keeps the limits, no earlier item ends it, and if a page follows it
   * either ends itself or has no room for the next item.
   */
  ghost predicate PageIsRight(x: Context, level: seq<Node>, height: nat, p: nat)
    requires p < |level|
  {
    var n := level[p];
    && !n.Other? && Size(n) > 0 && WithinLimits(x, n)
    && (forall m | 0 < m < Size(n) :: !EndsAt(x, n, height, m))
    && (p + 1 < |level| && Size(level[p + 1]) > 0
        && (n.Leaf? <==> level[p + 1].Leaf?) && (n.Branch? <==> level[p + 1].Branch?) ==>
          EndsAt(x, n, height, Size(n)) || !WithinLimits(x, Extended(n, level[p + 1])))
  }

  // ----- The partition rule says the same -----

  lemma PageEntries(x: Context, n: Node, domain: Value, height: nat)
    requires Uniform([n], domain, height)
    ensures var es := LevelEntries(x, [n], height);
      |es| == Size(n)
      && forall i | 0 <= i < Size(n) ::
           es[i] == (if n.Leaf? then LeafEntry(x, n.rows[i]) else BranchEntry(x, n.children[i]))
           && es[i].token == Encode(KeyAt(n, i))
  {
    hide Encode;
    LevelEntriesSplit(x, [n], domain, height);
    if height == 0 { assert Rows([n]) == n.rows + Rows([n][1..]) == n.rows; }
    else { assert Children([n]) == n.children + Children([n][1..]) == n.children; }
  }

  lemma PageReferencesExact(x: Context, n: Node, domain: Value, height: nat)
    requires Uniform([n], domain, height)
    ensures P.References(LevelEntries(x, [n], height)) == PageReferences(x, n)
  {
    hide Encode;
    PageEntries(x, n, domain, height);
    var es := LevelEntries(x, [n], height);
    forall o ensures o in P.References(es) <==> o in PageReferences(x, n) {
      P.ReferencesExact(es, o);
      if o in PageReferences(x, n) { EntryOfReference(x, n, domain, height, o); }
      if i :| 0 <= i < |es| && o in es[i].references { ReferenceOfEntry(x, n, domain, height, i, o); }
    }
  }

  lemma EntryOfReference(x: Context, n: Node, domain: Value, height: nat, o: Oid)
    requires Uniform([n], domain, height) && o in PageReferences(x, n)
    ensures var es := LevelEntries(x, [n], height); exists i :: 0 <= i < |es| && o in es[i].references
  {
    hide Encode;
    PageEntries(x, n, domain, height);
    var es := LevelEntries(x, [n], height);
    if n.Leaf? {
      var r :| r in n.rows && o in x.rowReferences(r.key, r.value);
      var i :| 0 <= i < |n.rows| && n.rows[i] == r;
      assert o in es[i].references;
    } else {
      var c :| c in n.children && (o in x.fenceReferences(c.fence) || o == c.oid);
      var i :| 0 <= i < |n.children| && n.children[i] == c;
      assert o in es[i].references;
    }
  }

  lemma ReferenceOfEntry(x: Context, n: Node, domain: Value, height: nat, i: nat, o: Oid)
    requires Uniform([n], domain, height) && i < Size(n)
    requires |LevelEntries(x, [n], height)| == Size(n) && o in LevelEntries(x, [n], height)[i].references
    ensures o in PageReferences(x, n)
  {
    hide Encode;
    PageEntries(x, n, domain, height);
    if n.Leaf? { assert n.rows[i] in n.rows; } else { assert n.children[i] in n.children; }
  }

  lemma FitsExact(x: Context, n: Node, domain: Value, height: nat)
    requires Uniform([n], domain, height)
    ensures P.Fits(LevelRule(x, domain, height), LevelEntries(x, [n], height)) <==> WithinLimits(x, n)
  {
    hide Encode, P.NodeSize, P.References, NodeValue, LevelEntries, PageReferences, LevelRule;
    assert [n][0] == n && RootHeight(n) == height && n.domain == domain;
    PageEntries(x, n, domain, height);
    PageReferencesExact(x, n, domain, height);
    PageSize(x, n);
  }

  lemma ClosesExact(x: Context, n: Node, domain: Value, height: nat, m: nat)
    requires Uniform([n], domain, height) && m <= Size(n)
    ensures var es := LevelEntries(x, [n], height);
      |es| == Size(n) && (P.Closes(LevelRule(x, domain, height), es[..m]) <==> EndsAt(x, n, height, m))
  {
    hide Encode, LevelEntries;
    PageEntries(x, n, domain, height);
  }

  lemma {:induction false} LevelSum(x: Context, level: seq<Node>, domain: Value, height: nat)
    requires Uniform(level, domain, height)
    ensures P.Sum(Sizes(level)) == |LevelEntries(x, level, height)|
    decreases |level|
  {
    hide Size;
    if |level| > 0 {
      LevelEntriesSplit(x, level, domain, height);
      LevelSum(x, level[1..], domain, height);
      assert Sizes(level)[0] == Size(level[0]) && Sizes(level)[1..] == Sizes(level[1..]);
    } else {
      NoEntries(x, height);
    }
  }

  lemma NoEntries(x: Context, height: nat)
    ensures LevelEntries(x, [], height) == []
  {
  }

  /** Where the next page begins among the entries, and with what. */
  lemma NextStart(x: Context, level: seq<Node>, domain: Value, height: nat, p: nat)
    requires Uniform(level, domain, height) && p + 1 < |level| && Size(level[p + 1]) > 0
    ensures var es, at := LevelEntries(x, level, height), P.PageStart(Sizes(level), p) + Size(level[p]);
      at < |es| && |LevelEntries(x, [level[p + 1]], height)| > 0
      && es[at] == LevelEntries(x, [level[p + 1]], height)[0]
  {
    hide Encode, LevelEntries, LeafEntry, BranchEntry, Rows, Children;
    var next, sizes := level[p + 1], Sizes(level);
    P.StartGrows(sizes, p);
    PageOfLevel(x, level, domain, height, p + 1);
    PageEntries(x, next, domain, height);
  }

  /** Adding the first item of the next page extends a page by its entry. */
  lemma ExtendedEntries(x: Context, n: Node, next: Node, domain: Value, height: nat)
    requires Uniform([n], domain, height) && Uniform([next], domain, height) && Size(next) > 0
    requires (n.Leaf? <==> next.Leaf?) && (n.Branch? <==> next.Branch?)
    ensures var page, more := LevelEntries(x, [n], height), LevelEntries(x, [next], height);
      |more| > 0 && page + [more[0]] == LevelEntries(x, [Extended(n, next)], height)
  {
    hide Encode, LevelEntries, LeafEntry, BranchEntry;
    assert [n][0] == n && [next][0] == next;
    PageEntries(x, n, domain, height);
    PageEntries(x, next, domain, height);
    PageEntries(x, Extended(n, next), domain, height);
  }

  /** The item after a page is the first of the next, and adding it extends the page by it. */
  lemma NextItem(x: Context, level: seq<Node>, domain: Value, height: nat, p: nat)
    requires Uniform(level, domain, height) && p + 1 < |level| && Size(level[p + 1]) > 0
    ensures var es, at := LevelEntries(x, level, height), P.PageStart(Sizes(level), p) + Size(level[p]);
      at < |es|
      && LevelEntries(x, [level[p]], height) + [es[at]] == LevelEntries(x, [Extended(level[p], level[p + 1])], height)
  {
    hide LevelEntries, P.PageStart, Size;
    NextStart(x, level, domain, height, p);
    ExtendedEntries(x, level[p], level[p + 1], domain, height);
  }

  /** The partition rule asks of a page exactly what makes it right. */
  lemma PageMeans(x: Context, level: seq<Node>, domain: Value, height: nat, p: nat)
    requires Uniform(level, domain, height) && p < |level| && AllSized(level)
    ensures P.PageRight(LevelRule(x, domain, height), LevelEntries(x, level, height), Sizes(level), p) <==>
      PageIsRight(x, level, height, p)
  {
    hide Encode, LevelEntries, P.Fits, P.Closes, WithinLimits, EndsAt, LevelRule;
    var n := level[p];
    var es, sizes := LevelEntries(x, level, height), Sizes(level);
    var rule, page := LevelRule(x, domain, height), LevelEntries(x, [n], height);
    PageOfLevel(x, level, domain, height, p);
    FitsExact(x, n, domain, height);
    ClosesExact(x, n, domain, height, 0);
    forall m | 0 < m <= Size(n) ensures P.Closes(rule, page[..m]) <==> EndsAt(x, n, height, m) {
      ClosesExact(x, n, domain, height, m);
    }
    assert page[..Size(n)] == page;
    LevelSum(x, level, domain, height);
    if p + 1 < |level| {
      NextItem(x, level, domain, height, p);
      FitsExact(x, Extended(n, level[p + 1]), domain, height);
    } else {
      P.StartGrows(sizes, p);
      assert sizes[..p + 1] == sizes;
    }
  }

  /** A level passes the partition check exactly when every page of it is right. */
  lemma LevelExact(x: Context, level: seq<Node>, domain: Value, height: nat)
    requires Uniform(level, domain, height) && (height == 0 ==> |Rows(level)| > 0)
    ensures PartitionOk(x, level, domain, height) <==> forall p | 0 <= p < |level| :: PageIsRight(x, level, height, p)
  {
    hide Encode, LevelEntries, P.Greedy, P.Canonical, P.PageRight, LevelRule, PageIsRight, Size;
    var rule, es, sizes := LevelRule(x, domain, height), LevelEntries(x, level, height), Sizes(level);
    LevelHasEntries(x, level, height);
    P.GreedyExact(rule, es, sizes);
    P.CanonicalByPages(rule, es, sizes);
    LevelSum(x, level, domain, height);
    if P.Canonical(rule, es, sizes) { P.CanonicalBounds(rule, es, sizes); }
    if forall p | 0 <= p < |level| :: PageIsRight(x, level, height, p) { RightSized(x, level, height); }
    if AllSized(level) {
      forall p | 0 <= p < |level|
        ensures P.PageRight(rule, es, sizes, p) <==> PageIsRight(x, level, height, p)
      {
        PageMeans(x, level, domain, height, p);
      }
    } else {
      var p :| 0 <= p < |level| && Size(level[p]) <= 0;
      assert sizes[p] == 0;
      NotRight(x, level, height, p);
    }
  }

  lemma RightSized(x: Context, level: seq<Node>, height: nat)
    requires forall p | 0 <= p < |level| :: PageIsRight(x, level, height, p)
    ensures AllSized(level)
  {
    forall p | 0 <= p < |level| ensures Size(level[p]) > 0 { assert PageIsRight(x, level, height, p); }
  }

  lemma NotRight(x: Context, level: seq<Node>, height: nat, p: nat)
    requires p < |level| && Size(level[p]) == 0
    ensures !PageIsRight(x, level, height, p)
  {
  }

  /**
   * Levels of leaves with the same keys, values of the same encoded lengths and the same references
   * have pages of the same sizes: nothing else about the rows decides where pages end.
   */
  lemma SizesDecided(x: Context, a: seq<Node>, b: seq<Node>, domain: Value)
    requires PartitionOk(x, a, domain, 0) && PartitionOk(x, b, domain, 0) && |Rows(a)| > 0
    requires |Rows(a)| == |Rows(b)|
    requires forall i | 0 <= i < |Rows(a)| ::
               && Rows(a)[i].key == Rows(b)[i].key
               && |Encode(Rows(a)[i].value)| == |Encode(Rows(b)[i].value)|
               && x.rowReferences(Rows(a)[i].key, Rows(a)[i].value) == x.rowReferences(Rows(b)[i].key, Rows(b)[i].value)
    ensures Sizes(a) == Sizes(b)
  {
    hide Encode, P.Greedy, Sizes, Rows;
    assert LevelEntries(x, a, 0) == LevelEntries(x, b, 0);
  }

  // ----- Sound trees of pages -----

  /** Every page below is one the entry naming it describes. */
  ghost predicate Shaped(store: Store, n: Node, domain: Value, height: nat)
    decreases height, 0
  {
    if height == 0 then n.Leaf? && n.domain == domain
    else
      && n.Branch? && n.domain == domain && n.height == height && |n.children| >= 1
      && forall j | 0 <= j < |n.children| :: ChildShaped(store, n.children[j], domain, height - 1)
  }

  ghost predicate ChildShaped(store: Store, c: Child, domain: Value, height: nat)
    decreases height, 1
  {
    && c.oid in store && Shaped(store, store[c.oid], domain, height)
    && var rows := UnderChild(store, c, height);
       |rows| == c.count > 0 && rows[|rows| - 1].key == c.fence
  }

  ghost predicate AllShaped(store: Store, cs: seq<Child>, domain: Value, height: nat) {
    forall j | 0 <= j < |cs| :: ChildShaped(store, cs[j], domain, height)
  }

  lemma {:induction false} CountsUnder(store: Store, cs: seq<Child>, domain: Value, height: nat)
    requires AllShaped(store, cs, domain, height)
    ensures |UnderAll(store, cs, height)| == CountSum(cs)
    decreases |cs|
  {
    hide Shaped, UnderChild;
    if |cs| > 0 {
      assert ChildShaped(store, cs[0], domain, height);
      CountsUnder(store, cs[1..], domain, height);
      ChildFirst(store, cs, height);
    }
  }

  lemma ChildFirst(store: Store, cs: seq<Child>, height: nat)
    requires |cs| > 0
    ensures UnderAll(store, cs, height) == UnderChild(store, cs[0], height) + UnderAll(store, cs[1..], height)
  {
    hide UnderChild;
  }

  lemma ChildLast(store: Store, cs: seq<Child>, height: nat)
    requires |cs| > 0
    ensures UnderAll(store, cs, height)
         == UnderAll(store, cs[..|cs| - 1], height) + UnderChild(store, cs[|cs| - 1], height)
  {
    hide UnderChild, UnderAll;
    UnderSplit(store, cs, height, |cs| - 1);
    assert cs[|cs| - 1 + 1..] == [];
    NoChildren(store, height);
  }

  lemma NoChildren(store: Store, height: nat)
    ensures UnderAll(store, [], height) == []
  {
  }

  // ----- Accepted maps are sound -----

  /** Every page of a walk that passes its checks is what the entry naming it describes. */
  lemma {:induction false} DescendShaped(
      store: Store, level: seq<Node>, domain: Value, height: nat, idOf: Node -> Oid, tags: set<nat>)
    requires Loaded(store, idOf, tags) && WellFormed(domain, tags) && AllDecoded(level, tags)
    requires Descend(store, level, domain, height).Ok?
    requires LeavesOk(Bottom(Descend(store, level, domain, height).value), domain)
    ensures forall p | 0 <= p < |level| :: Shaped(store, level[p], domain, height)
    decreases height
  {
    hide WellFormed, Encode, UnderLevel, NextLevel, Loaded, Shaped, LeavesOk, AllDecoded, KeyOrder.Ascending;
    if height == 0 {
      LeavesShaped(store, level, domain, tags);
    } else {
      var next := NextLevel(store, level, domain, height).value;
      NextLevelEntries(store, level, domain, height, idOf, tags);
      DescendShaped(store, next, domain, height - 1, idOf, tags);
      assert forall n :: n in Bottom(Descend(store, level, domain, height).value) ==> n.Leaf? by {
        BottomLeaves(Bottom(Descend(store, level, domain, height).value), domain);
      }
      DescendChecked(store, level, domain, height);
      forall p | 0 <= p < |level| ensures Shaped(store, level[p], domain, height) {
        BranchShaped(store, level, domain, height, p, idOf, tags);
      }
    }
  }

  lemma LeavesShaped(store: Store, level: seq<Node>, domain: Value, tags: set<nat>)
    requires WellFormed(domain, tags) && AllDecoded(level, tags) && LeavesOk(level, domain)
    ensures forall p | 0 <= p < |level| :: Shaped(store, level[p], domain, 0)
  {
    hide WellFormed, Encode, KeyOrder.Ascending;
    forall p | 0 <= p < |level| ensures Shaped(store, level[p], domain, 0) {
      assert Decoded(level[p], tags);
      EncodeInjective(level[p].domain, domain, tags);
    }
  }

  lemma BottomLeaves(level: seq<Node>, domain: Value)
    requires LeavesOk(level, domain)
    ensures forall n :: n in level ==> n.Leaf?
  {
  }

  lemma BranchShaped(
      store: Store, level: seq<Node>, domain: Value, height: nat, p: nat, idOf: Node -> Oid, tags: set<nat>)
    requires Loaded(store, idOf, tags) && AllDecoded(level, tags) && p < |level| && height > 0
    requires NextLevel(store, level, domain, height).Ok? && Uniform(level, domain, height)
    requires Checked(store, level[p], height)
    requires var next := NextLevel(store, level, domain, height).value;
      forall q | 0 <= q < |next| :: Shaped(store, next[q], domain, height - 1)
    ensures Shaped(store, level[p], domain, height)
  {
    var n := level[p];
    var cs := n.children;
    assert Decoded(n, tags) && |cs| >= 1;
    assert forall j | 0 <= j < |cs| :: WellFormed(cs[j].fence, tags);
    hide WellFormed, ChildPage, NextLevel, Decoded, Under, UnderChild, UnderLevel, Loaded, Shaped;
    NextLevelAt(store, level, domain, height, p);
    forall j | 0 <= j < |cs| ensures ChildShaped(store, cs[j], domain, height - 1) {
      ChildPagesAt(store, height, cs, j);
      ChildPageLoaded(store, height, cs[j]);
      ChildFacts(store, cs[j], height, idOf, tags);
      var page := ChildPages(store, height, cs).value[j];
      assert page in ChildPages(store, height, cs).value;
    }
    ShapedBranch(store, n, domain, height);
  }

  lemma ShapedBranch(store: Store, n: Node, domain: Value, height: nat)
    requires height > 0 && n.Branch? && n.domain == domain && n.height == height && |n.children| >= 1
    requires AllShaped(store, n.children, domain, height - 1)
    ensures Shaped(store, n, domain, height)
  {
    hide ChildShaped;
  }

  // ----- The pages of one height -----

  /** The pages at a height below a page, from left to right. */
  function PagesAt(store: Store, n: Node, height: nat, k: nat): seq<Node>
    decreases height, 0
  {
    if k == height then [n]
    else if k < height && n.Branch? then PagesAtAll(store, n.children, height - 1, k)
    else []
  }

  function PagesAtAll(store: Store, cs: seq<Child>, height: nat, k: nat): seq<Node>
    decreases height, 1, |cs|
  {
    if |cs| == 0 then []
    else
      (if cs[0].oid in store then PagesAt(store, store[cs[0].oid], height, k) else [])
      + PagesAtAll(store, cs[1..], height, k)
  }

  function PagesOfLevel(store: Store, level: seq<Node>, height: nat, k: nat): seq<Node> {
    if |level| == 0 then [] else PagesAt(store, level[0], height, k) + PagesOfLevel(store, level[1..], height, k)
  }

  lemma {:induction false} PagesOfLevelJoin(store: Store, a: seq<Node>, b: seq<Node>, height: nat, k: nat)
    ensures PagesOfLevel(store, a + b, height, k)
         == PagesOfLevel(store, a, height, k) + PagesOfLevel(store, b, height, k)
    decreases |a|
  {
    hide PagesAt;
    if |a| == 0 {
      assert a + b == b;
    } else {
      PagesOfLevelJoin(store, a[1..], b, height, k);
      var c := a + b;
      assert c[1..] == a[1..] + b && c[0] == a[0];
    }
  }

  lemma {:induction false} PagesOfThemselves(store: Store, level: seq<Node>, height: nat)
    ensures PagesOfLevel(store, level, height, height) == level
  {
    if |level| > 0 { PagesOfThemselves(store, level[1..], height); }
  }

  lemma {:induction false} PagesOfChildren(store: Store, cs: seq<Child>, height: nat, k: nat)
    requires height > 0 && ChildPages(store, height, cs).Ok?
    ensures PagesOfLevel(store, ChildPages(store, height, cs).value, height - 1, k)
         == PagesAtAll(store, cs, height - 1, k)
    decreases |cs|
  {
    hide Encode, PagesAt;
    if |cs| > 0 {
      PagesOfChildren(store, cs[1..], height, k);
      ChildPageLoaded(store, height, cs[0]);
      var n, rest := store[cs[0].oid], ChildPages(store, height, cs[1..]).value;
      assert ([n] + rest)[1..] == rest;
    }
  }

  lemma {:induction false} PagesOfNext(store: Store, level: seq<Node>, domain: Value, height: nat, k: nat)
    requires height > k && NextLevel(store, level, domain, height).Ok?
    ensures PagesOfLevel(store, NextLevel(store, level, domain, height).value, height - 1, k)
         == PagesOfLevel(store, level, height, k)
    decreases |level|
  {
    hide ChildPages, PagesAtAll, PageOk;
    if |level| > 0 {
      PagesOfChildren(store, level[0].children, height, k);
      PagesOfNext(store, level[1..], domain, height, k);
      var pages, rest := ChildPages(store, height, level[0].children).value,
                         NextLevel(store, level[1..], domain, height).value;
      PagesOfLevelJoin(store, pages, rest, height - 1, k);
    }
  }

  /** The levels of a walk are the pages of each height. */
  lemma {:induction false} LevelsArePages(store: Store, level: seq<Node>, domain: Value, height: nat, i: nat)
    requires Descend(store, level, domain, height).Ok? && i <= height
    ensures Descend(store, level, domain, height).value[i] == PagesOfLevel(store, level, height, height - i)
    decreases height
  {
    hide NextLevel;
    if i == 0 {
      PagesOfThemselves(store, level, height);
    } else {
      var next := NextLevel(store, level, domain, height).value;
      LevelsArePages(store, next, domain, height - 1, i - 1);
      PagesOfNext(store, level, domain, height, height - i);
    }
  }

  // ----- Sound trees are walked to the end -----

  /** A sound page holds as many rows as it counts, and its last key is that of its last row. */
  lemma {:induction false} ShapedEnds(store: Store, n: Node, domain: Value, height: nat)
    requires Shaped(store, n, domain, height) && |Under(store, n, height)| > 0
    ensures var rows := Under(store, n, height);
      Size(n) > 0 && Count(n) == |rows| && LastKey(n) == rows[|rows| - 1].key
  {
    if height > 0 {
      var cs := n.children;
      assert ChildShaped(store, cs[|cs| - 1], domain, height - 1);
      CountsUnder(store, cs, domain, height - 1);
      hide Shaped;
      ChildLast(store, cs, height - 1);
    }
  }

  lemma ShapedChild(store: Store, c: Child, domain: Value, height: nat)
    requires height > 0 && ChildShaped(store, c, domain, height - 1)
    ensures ChildPage(store, height, c) == Ok(store[c.oid])
  {
    hide Encode, Under;
    var n := store[c.oid];
    ShapedEnds(store, n, domain, height - 1);
    assert if height == 1 then n.Leaf? else n.Branch? && n.height == height - 1;
    hide Shaped;
  }

  lemma {:induction false} ShapedChildren(store: Store, cs: seq<Child>, domain: Value, height: nat)
    requires height > 0 && AllShaped(store, cs, domain, height - 1)
    ensures ChildPages(store, height, cs).Ok?
    ensures forall j | 0 <= j < |cs| ::
              ChildPages(store, height, cs).value[j] == store[cs[j].oid]
              && Shaped(store, store[cs[j].oid], domain, height - 1)
    decreases |cs|
  {
    hide Shaped, UnderChild, ChildPage;
    if |cs| > 0 {
      assert ChildShaped(store, cs[0], domain, height - 1);
      ShapedChild(store, cs[0], domain, height);
      ShapedChildren(store, cs[1..], domain, height);
    }
  }

  /** The fences of a branch ascend with the rows beneath it. */
  lemma FencesAscend(store: Store, n: Node, domain: Value, height: nat)
    requires height > 0 && Shaped(store, n, domain, height)
    requires KeyOrder.Ascending(Keys(Under(store, n, height)))
    ensures KeyOrder.Ascending(Fences(n))
  {
    var cs := n.children;
    forall j | 0 <= j < |cs| - 1 ensures KeyOrder.Before(Fences(n)[j], Fences(n)[j + 1]) {
      assert ChildShaped(store, cs[j], domain, height - 1) && ChildShaped(store, cs[j + 1], domain, height - 1);
      FencePair(store, cs, height - 1, j, domain);
    }
  }

  lemma FencePair(store: Store, cs: seq<Child>, height: nat, j: nat, domain: Value)
    requires j + 1 < |cs| && KeyOrder.Ascending(Keys(UnderAll(store, cs, height)))
    requires ChildShaped(store, cs[j], domain, height) && ChildShaped(store, cs[j + 1], domain, height)
    ensures KeyOrder.Before(cs[j].fence, cs[j + 1].fence)
  {
    hide Shaped, UnderAll, KeyOrder.Before, KeyOrder.Ascending, Keys;
    UnderSplit(store, cs, height, j + 1);
    ChildLast(store, cs[..j + 1], height);
    assert cs[..j + 1][j] == cs[j];
    BlockOrder(UnderAll(store, cs[..j + 1], height), UnderChild(store, cs[j + 1], height),
               UnderAll(store, cs[j + 2..], height));
  }

  ghost predicate EachShaped(store: Store, level: seq<Node>, domain: Value, height: nat) {
    forall p | 0 <= p < |level| :: Shaped(store, level[p], domain, height)
  }

  lemma {:induction false} ShapedNext(store: Store, level: seq<Node>, domain: Value, height: nat)
    requires height > 0 && EachShaped(store, level, domain, height)
    requires forall p | 0 <= p < |level| :: KeyOrder.Ascending(Keys(Under(store, level[p], height)))
    ensures NextLevel(store, level, domain, height).Ok?
    ensures EachShaped(store, NextLevel(store, level, domain, height).value, domain, height - 1)
    decreases |level|
  {
    hide Encode, Under, KeyOrder.Ascending, Keys, ChildPages;
    if |level| > 0 {
      var n := level[0];
      assert Shaped(store, n, domain, height);
      FencesAscend(store, n, domain, height);
      ShapedBranchParts(store, n, domain, height);
      hide Shaped, ChildShaped;
      ShapedChildren(store, n.children, domain, height);
      assert forall p | 0 <= p < |level[1..]| :: level[1..][p] == level[p + 1];
      ShapedNext(store, level[1..], domain, height);
    }
  }

  lemma ShapedBranchParts(store: Store, n: Node, domain: Value, height: nat)
    requires height > 0 && Shaped(store, n, domain, height)
    ensures n.Branch? && n.domain == domain && n.height == height && AllShaped(store, n.children, domain, height - 1)
  {
    hide ChildShaped;
  }

  lemma {:induction false} ShapedDescends(store: Store, level: seq<Node>, domain: Value, height: nat)
    requires EachShaped(store, level, domain, height) && KeyOrder.Ascending(Keys(UnderLevel(store, level, height)))
    ensures Descend(store, level, domain, height).Ok?
    ensures LeavesOk(Bottom(Descend(store, level, domain, height).value), domain)
    decreases height
  {
    hide Encode, KeyOrder.Ascending, Keys, NextLevel, Under;
    if height == 0 {
      UnderLeaves(store, level);
      forall p | 0 <= p < |level| ensures level[p].Leaf? && level[p].domain == domain {
        assert Shaped(store, level[p], domain, 0);
      }
    } else {
      forall p | 0 <= p < |level| ensures KeyOrder.Ascending(Keys(Under(store, level[p], height))) {
        UnderLevelAt(store, level, height, p);
      }
      hide Shaped;
      ShapedNext(store, level, domain, height);
      UnderNextLevel(store, level, domain, height);
      ShapedDescends(store, NextLevel(store, level, domain, height).value, domain, height - 1);
    }
  }

  // ----- Acceptance -----

  /**
   * A canonical ordered map: a tree of pages each of which is what its parent says, whose rows ascend
   * throughout, with no branch of one child at the root, and in which every page of every height is right.
   */
  ghost predicate CanonicalMap(x: Context, store: Store, root: Oid, domain: Value) {
    && root in store && !store[root].Other? && (store[root].Branch? ==> |store[root].children| >= 2)
    && var n, height := store[root], RootHeight(store[root]);
       var rows := Under(store, n, height);
       && Shaped(store, n, domain, height)
       && (forall i, j | 0 <= i < j < |rows| :: KeyOrder.Before(rows[i].key, rows[j].key))
       && (|rows| > 0 ==> forall k | 0 <= k <= height :: PagesRight(x, PagesAt(store, n, height, k), k))
  }

  ghost predicate PagesRight(x: Context, level: seq<Node>, height: nat) {
    forall p | 0 <= p < |level| :: PageIsRight(x, level, height, p)
  }

  lemma PagesOfRoot(store: Store, n: Node, height: nat, k: nat)
    ensures PagesOfLevel(store, [n], height, k) == PagesAt(store, n, height, k)
    ensures UnderLevel(store, [n], height) == Under(store, n, height)
  {
    assert [n][1..] == [] && PagesOfLevel(store, [], height, k) == [] && UnderLevel(store, [], height) == [];
    hide PagesAt, Under;
  }

  lemma AcceptedTree(x: Context, store: Store, root: Oid, domain: Value, idOf: Node -> Oid, tags: set<nat>)
    requires Loaded(store, idOf, tags) && WellFormed(domain, tags) && Accept(x, store, root, domain).Ok?
    ensures root in store && Shaped(store, store[root], domain, RootHeight(store[root]))
  {
    hide WellFormed, PartitionsOk, Rows, Under, Shaped, Loaded, NextLevel;
    var level := [store[root]];
    assert AllDecoded(level, tags) by { assert Loaded(store, idOf, tags); RootDecoded(store, root, idOf, tags); }
    DescendShaped(store, level, domain, RootHeight(store[root]), idOf, tags);
    assert Shaped(store, level[0], domain, RootHeight(store[root]));
  }

  lemma RootDecoded(store: Store, root: Oid, idOf: Node -> Oid, tags: set<nat>)
    requires Loaded(store, idOf, tags) && root in store
    ensures AllDecoded([store[root]], tags)
  {
    hide Decoded;
  }

  lemma AcceptedPages(
      x: Context, store: Store, root: Oid, domain: Value, idOf: Node -> Oid, tags: set<nat>, k: nat)
    requires Loaded(store, idOf, tags) && WellFormed(domain, tags) && Accept(x, store, root, domain).Ok?
    requires k <= RootHeight(store[root]) && |Rows(Bottom(Accept(x, store, root, domain).value))| > 0
    ensures PagesRight(x, PagesAt(store, store[root], RootHeight(store[root]), k), k)
  {
    hide WellFormed, PartitionOk, Rows, PageIsRight, PagesAt, Loaded, Verified, Uniform, LeavesOk, NextLevel;
    var height, level := RootHeight(store[root]), [store[root]];
    var levels := Accept(x, store, root, domain).value;
    DescendShape(store, level, domain, height);
    LevelsArePages(store, level, domain, height, height - k);
    PagesOfRoot(store, store[root], height, k);
    AcceptVerified(x, store, root, domain, idOf, tags);
    VerifiedLevel(x, idOf, levels, domain, height - k);
    LevelExact(x, levels[height - k], domain, k);
  }

  lemma AcceptedIsCanonical(x: Context, store: Store, root: Oid, domain: Value, idOf: Node -> Oid, tags: set<nat>)
    requires Loaded(store, idOf, tags) && WellFormed(domain, tags) && Accept(x, store, root, domain).Ok?
    ensures CanonicalMap(x, store, root, domain)
  {
    hide WellFormed, Descend, PartitionsOk, LeavesOk, Rows, Under, Shaped, KeyOrder.Before, PagesRight, PagesAt;
    hide AllBracketed, Loaded;
    AcceptedTree(x, store, root, domain, idOf, tags);
    SearchStructure(x, store, root, domain, idOf, tags);
    DescendShape(store, [store[root]], domain, RootHeight(store[root]));
    if |Rows(Bottom(Accept(x, store, root, domain).value))| > 0 {
      forall k | 0 <= k <= RootHeight(store[root])
        ensures PagesRight(x, PagesAt(store, store[root], RootHeight(store[root]), k), k)
      {
        AcceptedPages(x, store, root, domain, idOf, tags, k);
      }
    }
  }

  lemma CanonicalWalk(x: Context, store: Store, root: Oid, domain: Value)
    requires CanonicalMap(x, store, root, domain)
    ensures var height := RootHeight(store[root]);
      Descend(store, [store[root]], domain, height).Ok?
      && LeavesOk(Bottom(Descend(store, [store[root]], domain, height).value), domain)
  {
    CanonicalRoot(x, store, root, domain);
    CanonicalTree(x, store, root, domain);
    hide CanonicalMap, EachShaped, Shaped, Under, UnderLevel, Keys, KeyOrder.Ascending, PagesAt, Descend, LeavesOk;
    var height := RootHeight(store[root]);
    PagesOfRoot(store, store[root], height, height);
    ShapedDescends(store, [store[root]], domain, height);
  }

  lemma WalkedRows(store: Store, root: Oid, domain: Value)
    requires root in store
    requires Descend(store, [store[root]], domain, RootHeight(store[root])).Ok?
    requires LeavesOk(Bottom(Descend(store, [store[root]], domain, RootHeight(store[root])).value), domain)
    ensures Rows(Bottom(Descend(store, [store[root]], domain, RootHeight(store[root])).value))
         == Under(store, store[root], RootHeight(store[root]))
  {
    hide Descend, LeavesOk, Rows, Under, UnderLevel, PagesAt;
    var height := RootHeight(store[root]);
    PagesOfRoot(store, store[root], height, height);
    DescendShape(store, [store[root]], domain, height);
    UnderDescend(store, [store[root]], domain, height, 0);
  }

  lemma CanonicalDescends(x: Context, store: Store, root: Oid, domain: Value, idOf: Node -> Oid, tags: set<nat>)
    requires Loaded(store, idOf, tags) && WellFormed(domain, tags) && CanonicalMap(x, store, root, domain)
    ensures var height := RootHeight(store[root]);
      Descend(store, [store[root]], domain, height).Ok?
      && LeavesOk(Bottom(Descend(store, [store[root]], domain, height).value), domain)
      && Stack(idOf, Descend(store, [store[root]], domain, height).value, domain)
      && Rows(Bottom(Descend(store, [store[root]], domain, height).value)) == Under(store, store[root], height)
  {
    CanonicalRoot(x, store, root, domain);
    hide CanonicalMap, Descend, LeavesOk, Rows, Under, Stack, WellFormed, Loaded, AllDecoded;
    CanonicalWalk(x, store, root, domain);
    WalkedRows(store, root, domain);
    RootDecoded(store, root, idOf, tags);
    DescendStack(store, [store[root]], domain, RootHeight(store[root]), idOf, tags);
  }

  lemma CanonicalTree(x: Context, store: Store, root: Oid, domain: Value)
    requires CanonicalMap(x, store, root, domain)
    ensures var height := RootHeight(store[root]);
      EachShaped(store, [store[root]], domain, height) && KeyOrder.Ascending(Keys(Under(store, store[root], height)))
  {
    hide Shaped, Under, PagesRight, KeyOrder.Before;
  }

  lemma CanonicalLevel(
      x: Context, store: Store, root: Oid, domain: Value, idOf: Node -> Oid, tags: set<nat>, i: nat)
    requires Loaded(store, idOf, tags) && WellFormed(domain, tags) && CanonicalMap(x, store, root, domain)
    requires Descend(store, [store[root]], domain, RootHeight(store[root])).Ok? && i <= RootHeight(store[root])
    ensures var levels := Descend(store, [store[root]], domain, RootHeight(store[root])).value;
      PartitionOk(x, levels[i], domain, RootHeight(store[root]) - i)
  {
    hide WellFormed, PartitionOk, Rows, Under, Shaped, KeyOrder.Before, PageIsRight, PagesAt, Loaded, Uniform, AllSized;
    hide LeavesOk, Descend, Children, EntriesFor;
    var n, height, level := store[root], RootHeight(store[root]), [store[root]];
    var k := height - i;
    CanonicalDescends(x, store, root, domain, idOf, tags);
    DescendShape(store, level, domain, height);
    LevelsArePages(store, level, domain, height, i);
    PagesOfRoot(store, n, height, k);
    var levels := Descend(store, level, domain, height).value;
    assert Uniform(levels[i], domain, |levels| - 1 - i);
    if |Under(store, n, height)| > 0 {
      assert PagesRight(x, PagesAt(store, n, height, k), k);
      LevelExact(x, levels[i], domain, k);
    } else {
      if height > 0 { BranchHasRows(store, n, domain, height); }
      EmptyLevelOk(x, levels[i], domain);
    }
  }

  lemma CanonicalPartitions(
      x: Context, store: Store, root: Oid, domain: Value, idOf: Node -> Oid, tags: set<nat>)
    requires Loaded(store, idOf, tags) && WellFormed(domain, tags) && CanonicalMap(x, store, root, domain)
    requires root in store && Descend(store, [store[root]], domain, RootHeight(store[root])).Ok?
    ensures PartitionsOk(x, Descend(store, [store[root]], domain, RootHeight(store[root])).value, domain)
  {
    hide WellFormed, PartitionOk, CanonicalMap, Loaded, Descend, Shaped, Under, PagesRight, Decoded, Rows, Encode;
    var levels := Descend(store, [store[root]], domain, RootHeight(store[root])).value;
    forall i | 0 <= i < |levels| ensures PartitionOk(x, levels[i], domain, |levels| - 1 - i) {
      CanonicalLevel(x, store, root, domain, idOf, tags, i);
    }
  }

  lemma CanonicalIsAccepted(x: Context, store: Store, root: Oid, domain: Value, idOf: Node -> Oid, tags: set<nat>)
    requires Loaded(store, idOf, tags) && WellFormed(domain, tags) && CanonicalMap(x, store, root, domain)
    ensures Accept(x, store, root, domain).Ok?
  {
    hide WellFormed, PartitionsOk, Rows, CanonicalMap, Loaded, Stack, LeavesOk, Descend, Under, Accept, Decoded;
    CanonicalRoot(x, store, root, domain);
    CanonicalDescends(x, store, root, domain, idOf, tags);
    CanonicalPartitions(x, store, root, domain, idOf, tags);
    AcceptOf(x, store, root, domain);
  }

  lemma AcceptOf(x: Context, store: Store, root: Oid, domain: Value)
    requires root in store && !store[root].Other? && (store[root].Branch? ==> |store[root].children| >= 2)
    requires var levels := Descend(store, [store[root]], domain, RootHeight(store[root]));
      levels.Ok? && LeavesOk(Bottom(levels.value), domain) && PartitionsOk(x, levels.value, domain)
    ensures Accept(x, store, root, domain).Ok?
  {
    hide Descend, LeavesOk, PartitionsOk;
  }

  lemma CanonicalRoot(x: Context, store: Store, root: Oid, domain: Value)
    requires CanonicalMap(x, store, root, domain)
    ensures root in store && !store[root].Other? && (store[root].Branch? ==> |store[root].children| >= 2)
  {
    hide Shaped, Under, PagesRight;
  }

  lemma BranchHasRows(store: Store, n: Node, domain: Value, height: nat)
    requires Shaped(store, n, domain, height) && height > 0
    ensures |Under(store, n, height)| > 0
  {
    assert ChildShaped(store, n.children[0], domain, height - 1);
    hide Shaped;
    ChildFirst(store, n.children, height - 1);
  }

  lemma EmptyLevelOk(x: Context, level: seq<Node>, domain: Value)
    requires |Rows(level)| == 0
    ensures PartitionOk(x, level, domain, 0)
  {
    hide P.Greedy;
  }

  /** The verifier accepts exactly the canonical ordered maps. */
  lemma AcceptExactly(x: Context, store: Store, root: Oid, domain: Value, idOf: Node -> Oid, tags: set<nat>)
    requires Loaded(store, idOf, tags) && WellFormed(domain, tags)
    ensures Accept(x, store, root, domain).Ok? <==> CanonicalMap(x, store, root, domain)
  {
    hide Accept, CanonicalMap;
    if Accept(x, store, root, domain).Ok? { AcceptedIsCanonical(x, store, root, domain, idOf, tags); }
    if CanonicalMap(x, store, root, domain) { CanonicalIsAccepted(x, store, root, domain, idOf, tags); }
  }
}
