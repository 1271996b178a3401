/**
 The verifier of ORP-1 ordered maps (`Graph.ordered_map`, `_check_page`, `_check_map_partition`): a
 level-by-level walk over a tree of pages, each level the canonical partition of its entries.
 */
module OrderedMap {
  import opened Prelude
  import opened Cbor
  import opened KeyOrder
  import P = Partition

  type Oid = P.Oid

  datatype Row = Row(key: Value, value: Value)

  datatype Child = Child(fence: Value, oid: Oid, count: nat)

  /** A decoded node of kind 1 or 2; other kinds are never pages. */
  datatype Node =
    | Leaf(domain: Value, rows: seq<Row>)
    | Branch(domain: Value, height: nat, children: seq<Child>)
    | Other

  type Store = map<Oid, Node>

  /** What the map rules take from elsewhere: native references of entries and the anchor digest. */
  datatype Context = Context(
    rowReferences: (Value, Value) -> set<Oid>,
    fenceReferences: Value -> set<Oid>,
    anchor: (nat, seq<byte>) -> bool)

  /** The shape `node_tuple` checks, on values the strict decoder returned. */
  ghost predicate Decoded(n: Node, tags: set<nat>) {
    match n
    case Leaf(domain, rows) => WellFormed(domain, tags) && forall i | 0 <= i < |rows| :: WellFormed(rows[i].key, tags)
    case Branch(domain, height, children) =>
      && WellFormed(domain, tags) && height >= 1 && |children| >= 1
      && forall i | 0 <= i < |children| :: WellFormed(children[i].fence, tags)
    case Other => true
  }

  /** Every object is named by the hash of its content and decodes to a well-shaped node. */
  ghost predicate Loaded(store: Store, idOf: Node -> Oid, tags: set<nat>) {
    forall oid | oid in store :: idOf(store[oid]) == oid && Decoded(store[oid], tags)
  }

  function Size(n: Node): nat {
    match n
    case Leaf(_, rows) => |rows|
    case Branch(_, _, children) => |children|
    case Other => 0
  }

  function LastKey(n: Node): Value
    requires Size(n) > 0
  {
    if n.Leaf? then n.rows[|n.rows| - 1].key else n.children[|n.children| - 1].fence
  }

  function CountSum(cs: seq<Child>): nat {
    if |cs| == 0 then 0 else cs[0].count + CountSum(cs[1..])
  }

  /** The number of rows a page says it holds. */
  function Count(n: Node): nat {
    if n.Leaf? then |n.rows| else if n.Branch? then CountSum(n.children) else 0
  }

  function Fences(n: Node): seq<Value>
    requires n.Branch?
  {
    seq(|n.children|, i requires 0 <= i < |n.children| => n.children[i].fence)
  }

  // ----- Checks -----

  predicate PageOk(n: Node, domain: Value, height: nat) {
    match n
    case Leaf(d, _) => Encode(d) == Encode(domain) && height == 0
    case Branch(d, h, _) => Encode(d) == Encode(domain) && h == height && Ascending(Fences(n))
    case Other => false
  }

  /** The child a branch at `height` names, if it is the page the branch describes. */
  function ChildPage(store: Store, height: nat, c: Child): Result<Node> {
    if c.oid !in store then Err
    else
      var n := store[c.oid];
      if (height == 1 && !n.Leaf?) || (height > 1 && !(n.Branch? && n.height == height - 1)) then Err
      else if Size(n) == 0 then Err
      else if Encode(LastKey(n)) != Encode(c.fence) then Err
      else if Count(n) != c.count then Err
      else Ok(n)
  }

  function ChildPages(store: Store, height: nat, cs: seq<Child>): (r: Result<seq<Node>>)
    ensures r.Ok? ==> |r.value| == |cs|
  {
    if |cs| == 0 then Ok([])
    else
      var n :- ChildPage(store, height, cs[0]);
      var rest :- ChildPages(store, height, cs[1..]);
      Ok([n] + rest)
  }

  /** All pages one level down, in order, after checking each parent. */
  function NextLevel(store: Store, level: seq<Node>, domain: Value, height: nat): Result<seq<Node>> {
    if |level| == 0 then Ok([])
    else if !level[0].Branch? || !PageOk(level[0], domain, height) then Err
    else
      var pages :- ChildPages(store, height, level[0].children);
      var rest :- NextLevel(store, level[1..], domain, height);
      Ok(pages + rest)
  }

  /** The levels from one at `height` down to the leaves. */
  function Descend(store: Store, level: seq<Node>, domain: Value, height: nat): (r: Result<seq<seq<Node>>>)
    ensures r.Ok? ==> |r.value| == height + 1 && r.value[0] == level
    decreases height
  {
    if height == 0 then Ok([level])
    else
      var next :- NextLevel(store, level, domain, height);
      var below :- Descend(store, next, domain, height - 1);
      Ok([level] + below)
  }

  function Rows(level: seq<Node>): seq<Row> {
    if |level| == 0 then [] else (if level[0].Leaf? then level[0].rows else []) + Rows(level[1..])
  }

  function Children(level: seq<Node>): seq<Child> {
    if |level| == 0 then [] else (if level[0].Branch? then level[0].children else []) + Children(level[1..])
  }

  function Keys(rows: seq<Row>): (ks: seq<Value>)
    ensures |ks| == |rows|
    ensures forall i | 0 <= i < |rows| :: ks[i] == rows[i].key
  {
    seq(|rows|, i requires 0 <= i < |rows| => rows[i].key)
  }

  function Sizes(level: seq<Node>): seq<nat> {
    seq(|level|, i requires 0 <= i < |level| => Size(level[i]))
  }

  function LeafEntry(x: Context, row: Row): P.Entry {
    P.Entry(1 + |Encode(row.key)| + |Encode(row.value)|, x.rowReferences(row.key, row.value), Encode(row.key), 0)
  }

  function BranchEntry(x: Context, c: Child): P.Entry {
    P.Entry(1 + |Encode(c.fence)| + |Encode(Bytes(c.oid))| + |Encode(Int(c.count))|,
            x.fenceReferences(c.fence) + {c.oid}, Encode(c.fence), 0)
  }

  function LevelRule(x: Context, domain: Value, height: nat): P.Rule {
    var fixed := 3 + |Encode(domain)| + if height == 0 then 0 else |Encode(Int(height))|;
    P.Rule(fixed, false, token => x.anchor(height, token))
  }

  function LevelEntries(x: Context, level: seq<Node>, height: nat): seq<P.Entry> {
    if height == 0 then
      var rows := Rows(level);
      seq(|rows|, i requires 0 <= i < |rows| => LeafEntry(x, rows[i]))
    else
      var cs := Children(level);
      seq(|cs|, i requires 0 <= i < |cs| => BranchEntry(x, cs[i]))
  }

  /** _check_map_partition for one level; an empty map has no page to check. */
  predicate PartitionOk(x: Context, level: seq<Node>, domain: Value, height: nat) {
    var es := LevelEntries(x, level, height);
    (height == 0 && |es| == 0) || P.Greedy(LevelRule(x, domain, height), es) == Ok(Sizes(level))
  }

  predicate PartitionsOk(x: Context, levels: seq<seq<Node>>, domain: Value) {
    forall i | 0 <= i < |levels| :: PartitionOk(x, levels[i], domain, |levels| - 1 - i)
  }

  predicate LeavesOk(level: seq<Node>, domain: Value) {
    && (forall i | 0 <= i < |level| :: level[i].Leaf? && PageOk(level[i], domain, 0))
    && Ascending(Keys(Rows(level)))
  }

  function RootHeight(n: Node): nat { if n.Branch? then n.height else 0 }

  /** The levels of an accepted map, root first. */
  function Accept(x: Context, store: Store, root: Oid, domain: Value): Result<seq<seq<Node>>> {
    if root !in store || store[root].Other? || (store[root].Branch? && |store[root].children| < 2) then Err
    else
      var levels :- Descend(store, [store[root]], domain, RootHeight(store[root]));
      if LeavesOk(levels[|levels| - 1], domain) && PartitionsOk(x, levels, domain) then Ok(levels) else Err
  }

  function Bottom(levels: seq<seq<Node>>): seq<Node>
    requires |levels| > 0
  {
    levels[|levels| - 1]
  }

  // ----- What checked levels look like -----

  /** The entry a branch must hold for a page below it. */
  function EntryFor(idOf: Node -> Oid, n: Node): Child {
    Child(if Size(n) > 0 then LastKey(n) else Null, idOf(n), Count(n))
  }

  function EntriesFor(idOf: Node -> Oid, level: seq<Node>): seq<Child> {
    seq(|level|, i requires 0 <= i < |level| => EntryFor(idOf, level[i]))
  }

  ghost predicate AllDecoded(level: seq<Node>, tags: set<nat>) {
    forall i | 0 <= i < |level| :: Decoded(level[i], tags)
  }

  ghost predicate AllSized(level: seq<Node>) {
    forall i | 0 <= i < |level| :: Size(level[i]) > 0
  }

  /** All pages of a level belong to one map and sit at one height. */
  ghost predicate Uniform(level: seq<Node>, domain: Value, height: nat) {
    forall i | 0 <= i < |level| ::
      && (height == 0 ==> level[i].Leaf?)
      && (height > 0 ==> level[i].Branch? && level[i].height == height)
      && level[i].domain == domain
  }

  /** Each level's entries are exactly the descriptions of the pages below it. */
  ghost predicate Stack(idOf: Node -> Oid, levels: seq<seq<Node>>, domain: Value) {
    && |levels| > 0
    && (forall i | 0 <= i < |levels| :: Uniform(levels[i], domain, |levels| - 1 - i))
    && (forall i | 0 < i < |levels| :: AllSized(levels[i]) && Children(levels[i - 1]) == EntriesFor(idOf, levels[i]))
  }

  /** A page that passes its parent's checks is the page the entry describes. */
  lemma ChildPageEntry(store: Store, height: nat, c: Child, idOf: Node -> Oid, tags: set<nat>)
    requires Loaded(store, idOf, tags) && ChildPage(store, height, c).Ok? && WellFormed(c.fence, tags)
    ensures var n := ChildPage(store, height, c).value; EntryFor(idOf, n) == c && Size(n) > 0 && Decoded(n, tags)
  {
    hide WellFormed, Encode;
    EncodeInjective(LastKey(ChildPage(store, height, c).value), c.fence, tags);
  }

  /** What holds of two runs of pages holds of the run they form. */
  lemma PagesJoin(idOf: Node -> Oid, a: seq<Node>, b: seq<Node>, tags: set<nat>)
    ensures EntriesFor(idOf, a + b) == EntriesFor(idOf, a) + EntriesFor(idOf, b)
    ensures AllSized(a) && AllSized(b) ==> AllSized(a + b)
    ensures AllDecoded(a, tags) && AllDecoded(b, tags) ==> AllDecoded(a + b, tags)
  {
    hide EntryFor, Size, Decoded;
  }

  lemma {:induction false} ChildPagesEntries(
      store: Store, height: nat, cs: seq<Child>, idOf: Node -> Oid, tags: set<nat>)
    requires Loaded(store, idOf, tags) && ChildPages(store, height, cs).Ok?
    requires forall i | 0 <= i < |cs| :: WellFormed(cs[i].fence, tags)
    ensures var pages := ChildPages(store, height, cs).value;
            EntriesFor(idOf, pages) == cs && AllSized(pages) && AllDecoded(pages, tags)
  {
    hide WellFormed, Loaded, ChildPage, EntryFor, Size, Decoded;
    if |cs| > 0 {
      var n := ChildPage(store, height, cs[0]).value;
      ChildPageEntry(store, height, cs[0], idOf, tags);
      ChildPagesEntries(store, height, cs[1..], idOf, tags);
      PagesJoin(idOf, [n], ChildPages(store, height, cs[1..]).value, tags);
      assert EntriesFor(idOf, [n]) == [cs[0]] && cs == [cs[0]] + cs[1..];
    }
  }

  lemma NextLevelUnfold(store: Store, level: seq<Node>, domain: Value, height: nat)
    requires |level| > 0 && NextLevel(store, level, domain, height).Ok?
    ensures level[0].Branch? && PageOk(level[0], domain, height) && ChildPages(store, height, level[0].children).Ok?
    ensures NextLevel(store, level[1..], domain, height).Ok?
    ensures NextLevel(store, level, domain, height).value
         == ChildPages(store, height, level[0].children).value + NextLevel(store, level[1..], domain, height).value
  {
    hide PageOk, ChildPages;
  }

  lemma HeadPage(level: seq<Node>, domain: Value, height: nat, tags: set<nat>)
    requires |level| > 0 && AllDecoded(level, tags) && WellFormed(domain, tags)
    requires level[0].Branch? && PageOk(level[0], domain, height)
    ensures level[0].height == height && level[0].domain == domain && AllDecoded(level[1..], tags)
    ensures forall i | 0 <= i < |level[0].children| :: WellFormed(level[0].children[i].fence, tags)
    ensures Children(level) == level[0].children + Children(level[1..])
  {
    hide WellFormed, Encode, Ascending;
    assert Decoded(level[0], tags);
    EncodeInjective(level[0].domain, domain, tags);
  }

  lemma UniformCons(level: seq<Node>, domain: Value, height: nat)
    requires |level| > 0 && height > 0 && Uniform(level[1..], domain, height)
    requires level[0].Branch? && level[0].height == height && level[0].domain == domain
    ensures Uniform(level, domain, height)
  {
    assert forall i | 0 < i < |level| :: level[i] == level[1..][i - 1];
  }

  lemma {:induction false} NextLevelEntries(
      store: Store, level: seq<Node>, domain: Value, height: nat, idOf: Node -> Oid, tags: set<nat>)
    requires Loaded(store, idOf, tags) && WellFormed(domain, tags) && AllDecoded(level, tags)
    requires height > 0 && NextLevel(store, level, domain, height).Ok?
    ensures var next := NextLevel(store, level, domain, height).value;
            && Children(level) == EntriesFor(idOf, next) && AllSized(next) && AllDecoded(next, tags)
            && Uniform(level, domain, height)
  {
    if |level| > 0 {
      hide WellFormed, Loaded, AllDecoded, AllSized, Uniform, EntriesFor, Children, NextLevel, ChildPages, PageOk;
      NextLevelUnfold(store, level, domain, height);
      HeadPage(level, domain, height, tags);
      var children := level[0].children;
      ChildPagesEntries(store, height, children, idOf, tags);
      NextLevelEntries(store, level[1..], domain, height, idOf, tags);
      var pages, rest := ChildPages(store, height, children).value, NextLevel(store, level[1..], domain, height).value;
      PagesJoin(idOf, pages, rest, tags);
      UniformCons(level, domain, height);
    }
  }

  lemma {:induction false} DescendStack(
      store: Store, level: seq<Node>, domain: Value, height: nat, idOf: Node -> Oid, tags: set<nat>)
    requires Loaded(store, idOf, tags) && WellFormed(domain, tags) && AllDecoded(level, tags)
    requires Descend(store, level, domain, height).Ok?
    requires LeavesOk(Bottom(Descend(store, level, domain, height).value), domain)
    ensures Stack(idOf, Descend(store, level, domain, height).value, domain)
    decreases height
  {
    hide WellFormed, Encode, Ascending, NextLevel, Rows;
    if height == 0 {
      forall i | 0 <= i < |level| ensures level[i].domain == domain { EncodeInjective(level[i].domain, domain, tags); }
    } else {
      NextLevelEntries(store, level, domain, height, idOf, tags);
      var next := NextLevel(store, level, domain, height).value;
      var below := Descend(store, next, domain, height - 1).value;
      DescendStack(store, next, domain, height - 1, idOf, tags);
      StackCons(idOf, level, below, domain);
    }
  }

  lemma StackCons(idOf: Node -> Oid, level: seq<Node>, below: seq<seq<Node>>, domain: Value)
    requires Stack(idOf, below, domain) && Uniform(level, domain, |below|)
    requires AllSized(below[0]) && Children(level) == EntriesFor(idOf, below[0])
    ensures Stack(idOf, [level] + below, domain)
  {
    hide Uniform, AllSized, Children, EntriesFor;
    var levels := [level] + below;
    forall i | 0 <= i < |levels| ensures Uniform(levels[i], domain, |levels| - 1 - i) {
      if i > 0 { assert levels[i] == below[i - 1]; }
    }
    forall i | 0 < i < |levels|
      ensures AllSized(levels[i]) && Children(levels[i - 1]) == EntriesFor(idOf, levels[i])
    {
      if i > 1 { assert levels[i] == below[i - 1] && levels[i - 1] == below[i - 2]; }
    }
  }

  // ----- Canonical form -----

  /** Pages of one level are determined by their entries and how many each holds. */
  lemma {:induction false} SamePages(a: seq<Node>, b: seq<Node>, domain: Value, height: nat)
    requires Uniform(a, domain, height) && Uniform(b, domain, height) && Sizes(a) == Sizes(b)
    requires if height == 0 then Rows(a) == Rows(b) else Children(a) == Children(b)
    ensures a == b
    decreases |a|
  {
    assert |a| == |Sizes(a)| == |Sizes(b)| == |b|;
    if |a| > 0 {
      var n := Size(a[0]);
      assert Sizes(a)[0] == n && Sizes(b)[0] == Size(b[0]);
      assert Sizes(a[1..]) == Sizes(a)[1..] && Sizes(b[1..]) == Sizes(b)[1..];
      if height == 0 {
        assert a[0].rows == Rows(a)[..n] && b[0].rows == Rows(b)[..n];
        assert Rows(a[1..]) == Rows(a)[n..] && Rows(b[1..]) == Rows(b)[n..];
      } else {
        assert a[0].children == Children(a)[..n] && b[0].children == Children(b)[..n];
        assert Children(a[1..]) == Children(a)[n..] && Children(b[1..]) == Children(b)[n..];
      }
      SamePages(a[1..], b[1..], domain, height);
      assert a == [a[0]] + a[1..] && b == [b[0]] + b[1..];
    }
  }

  /** Two canonical levels with the same entries have the same pages. */
  lemma SameLevel(x: Context, a: seq<Node>, b: seq<Node>, domain: Value, height: nat)
    requires Uniform(a, domain, height) && Uniform(b, domain, height)
    requires PartitionOk(x, a, domain, height) && PartitionOk(x, b, domain, height)
    requires if height == 0 then Rows(a) == Rows(b) && |Rows(a)| > 0 else Children(a) == Children(b)
    ensures a == b
  {
    hide Uniform, Sizes;
    assert LevelEntries(x, a, height) == LevelEntries(x, b, height);
    SamePages(a, b, domain, height);
  }

  /** What acceptance establishes about the levels. */
  ghost predicate Verified(x: Context, idOf: Node -> Oid, levels: seq<seq<Node>>, domain: Value) {
    && Stack(idOf, levels, domain)
    && PartitionsOk(x, levels, domain)
    && |levels[0]| == 1
    && (|levels| > 1 ==> |Children(levels[0])| >= 2)
  }

  lemma AcceptVerified(
      x: Context, store: Store, root: Oid, domain: Value, idOf: Node -> Oid, tags: set<nat>)
    requires Loaded(store, idOf, tags) && WellFormed(domain, tags) && Accept(x, store, root, domain).Ok?
    ensures var levels := Accept(x, store, root, domain).value;
            Verified(x, idOf, levels, domain) && levels[0] == [store[root]] && LeavesOk(Bottom(levels), domain)
  {
    hide WellFormed, LeavesOk, PartitionsOk, NextLevel;
    DescendStack(store, [store[root]], domain, RootHeight(store[root]), idOf, tags);
    hide Stack;
    assert Children([store[root]]) == (if store[root].Branch? then store[root].children else []) + Children([]);
  }

  /** Counted from the leaves, two accepted maps with the same rows agree level by level. */
  lemma {:induction false} LevelsAgree(
      x: Context, idOf: Node -> Oid, a: seq<seq<Node>>, b: seq<seq<Node>>, domain: Value, k: nat)
    requires Verified(x, idOf, a, domain) && Verified(x, idOf, b, domain)
    requires Rows(Bottom(a)) == Rows(Bottom(b)) && |Rows(Bottom(a))| > 0
    requires k < |a| && k < |b|
    ensures a[|a| - 1 - k] == b[|b| - 1 - k]
    decreases k
  {
    hide Uniform, AllSized, EntriesFor, PartitionOk, Rows, Children;
    var i, j := |a| - 1 - k, |b| - 1 - k;
    if k > 0 {
      LevelsAgree(x, idOf, a, b, domain, k - 1);
      assert Children(a[i + 1 - 1]) == EntriesFor(idOf, a[i + 1]);
      assert Children(b[j + 1 - 1]) == EntriesFor(idOf, b[j + 1]);
    }
    SameLevel(x, a[i], b[j], domain, k);
  }

  lemma {:induction false} ChildrenCount(level: seq<Node>)
    requires forall i | 0 <= i < |level| :: level[i].Branch? && |level[i].children| >= 1
    ensures |Children(level)| >= |level|
  {
    if |level| > 0 { ChildrenCount(level[1..]); }
  }

  /** Only the root level has a single page: every level below has at least two. */
  lemma {:induction false} ManyPagesBelow(x: Context, idOf: Node -> Oid, levels: seq<seq<Node>>, domain: Value, i: nat)
    requires Verified(x, idOf, levels, domain) && 0 < i < |levels|
    ensures |levels[i]| >= 2
    decreases i
  {
    hide PartitionsOk, Children;
    assert |Children(levels[i - 1])| == |levels[i]|;
    if i > 1 {
      ManyPagesBelow(x, idOf, levels, domain, i - 1);
      assert AllSized(levels[i - 1]) && Uniform(levels[i - 1], domain, |levels| - 1 - (i - 1));
      ChildrenCount(levels[i - 1]);
    }
  }

  /** An empty map is one empty leaf. */
  lemma EmptyMapIsOneLeaf(x: Context, idOf: Node -> Oid, levels: seq<seq<Node>>, domain: Value)
    requires Verified(x, idOf, levels, domain) && |Rows(Bottom(levels))| == 0
    ensures levels == [[Leaf(domain, [])]]
  {
    var bottom := Bottom(levels);
    assert Uniform(bottom, domain, 0);
    if |levels| > 1 {
      ManyPagesBelow(x, idOf, levels, domain, |levels| - 1);
    }
    assert bottom == [bottom[0]];
    assert Rows(bottom) == bottom[0].rows + Rows(bottom[1..]);
  }

  /**
   * History independence. Two accepted maps over one domain with the same rows, in any two stores,
   * have the same height, the same pages at every level and the same root id.
   */
  lemma CanonicalForm(
      x: Context, idOf: Node -> Oid, tags: set<nat>, domain: Value,
      storeA: Store, rootA: Oid, storeB: Store, rootB: Oid)
    requires Loaded(storeA, idOf, tags) && Loaded(storeB, idOf, tags) && WellFormed(domain, tags)
    requires Accept(x, storeA, rootA, domain).Ok? && Accept(x, storeB, rootB, domain).Ok?
    requires Rows(Bottom(Accept(x, storeA, rootA, domain).value))
        == Rows(Bottom(Accept(x, storeB, rootB, domain).value))
    ensures Accept(x, storeA, rootA, domain) == Accept(x, storeB, rootB, domain)
    ensures rootA == rootB
  {
    hide WellFormed, Accept, LeavesOk, PartitionsOk, Stack, Rows, Children;
    AcceptVerified(x, storeA, rootA, domain, idOf, tags);
    AcceptVerified(x, storeB, rootB, domain, idOf, tags);
    var a, b := Accept(x, storeA, rootA, domain).value, Accept(x, storeB, rootB, domain).value;
    VerifiedNonEmpty(x, idOf, a, domain);
    VerifiedNonEmpty(x, idOf, b, domain);
    if |Rows(Bottom(a))| == 0 {
      EmptyMapIsOneLeaf(x, idOf, a, domain);
      EmptyMapIsOneLeaf(x, idOf, b, domain);
    } else {
      SameHeight(x, idOf, a, b, domain);
      forall i | 0 <= i < |a| ensures a[i] == b[i] {
        LevelsAgree(x, idOf, a, b, domain, |a| - 1 - i);
      }
    }
    AcceptHasRoot(x, storeA, rootA, domain);
    AcceptHasRoot(x, storeB, rootB, domain);
    assert a == b;
    assert [storeA[rootA]][0] == [storeB[rootB]][0];
  }

  lemma VerifiedNonEmpty(x: Context, idOf: Node -> Oid, levels: seq<seq<Node>>, domain: Value)
    requires Verified(x, idOf, levels, domain)
    ensures |levels| > 0
  {
  }

  lemma AcceptHasRoot(x: Context, store: Store, root: Oid, domain: Value)
    requires Accept(x, store, root, domain).Ok?
    ensures root in store
  {
  }

  lemma SameHeight(x: Context, idOf: Node -> Oid, a: seq<seq<Node>>, b: seq<seq<Node>>, domain: Value)
    requires Verified(x, idOf, a, domain) && Verified(x, idOf, b, domain)
    requires Rows(Bottom(a)) == Rows(Bottom(b)) && |Rows(Bottom(a))| > 0
    ensures |a| == |b|
  {
    hide Stack, PartitionsOk, Rows;
    VerifiedNonEmpty(x, idOf, a, domain);
    VerifiedNonEmpty(x, idOf, b, domain);
    if |a| < |b| {
      LevelsAgree(x, idOf, a, b, domain, |a| - 1);
      ManyPagesBelow(x, idOf, b, domain, |b| - |a|);
    } else if |b| < |a| {
      LevelsAgree(x, idOf, b, a, domain, |b| - 1);
      ManyPagesBelow(x, idOf, a, domain, |a| - |b|);
    }
  }
}
