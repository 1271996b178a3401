/**
 What holds of an accepted ordered map.

 - the search structure: counts and fences against the rows beneath
 - the exact encoded size of its pages
 - the level-by-level walk as the loop the extractor runs
 */
module MapStructure {
  import opened Prelude
  import opened Cbor
  import opened KeyOrder
  import opened OrderedMap
  import P = Partition

  // ----- Rows beneath a page -----

  function Under(store: Store, n: Node, height: nat): seq<Row>
    decreases height, 0
  {
    if height == 0 then (if n.Leaf? then n.rows else [])
    else if n.Branch? then UnderAll(store, n.children, height - 1)
    else []
  }

  function UnderChild(store: Store, c: Child, height: nat): seq<Row>
    decreases height, 1
  {
    if c.oid in store then Under(store, store[c.oid], height) else []
  }

  function UnderAll(store: Store, cs: seq<Child>, height: nat): seq<Row>
    decreases height, 2, |cs|
  {
    if |cs| == 0 then [] else UnderChild(store, cs[0], height) + UnderAll(store, cs[1..], height)
  }

  function UnderLevel(store: Store, level: seq<Node>, height: nat): seq<Row> {
    if |level| == 0 then [] else Under(store, level[0], height) + UnderLevel(store, level[1..], height)
  }

  lemma {:induction false} UnderLevelAppend(store: Store, a: seq<Node>, b: seq<Node>, height: nat)
    ensures UnderLevel(store, a + b, height) == UnderLevel(store, a, height) + UnderLevel(store, b, height)
  {
    hide Under;
    if |a| == 0 {
      assert a + b == b;
    } else {
      assert (a + b)[1..] == a[1..] + b;
      UnderLevelAppend(store, a[1..], b, height);
    }
  }

  lemma {:induction false} UnderAllAppend(store: Store, a: seq<Child>, b: seq<Child>, height: nat)
    ensures UnderAll(store, a + b, height) == UnderAll(store, a, height) + UnderAll(store, b, height)
    decreases |a|
  {
    hide UnderChild;
    if |a| == 0 {
      assert a + b == b;
    } else {
      assert (a + b)[1..] == a[1..] + b;
      UnderAllAppend(store, a[1..], b, height);
    }
  }

  /** Child pages hold, together, the rows beneath the entries that name them. */
  lemma {:induction false} UnderChildPages(store: Store, height: nat, cs: seq<Child>)
    requires height > 0 && ChildPages(store, height, cs).Ok?
    ensures UnderLevel(store, ChildPages(store, height, cs).value, height - 1) == UnderAll(store, cs, height - 1)
  {
    hide Encode, Under;
    if |cs| > 0 {
      UnderChildPages(store, height, cs[1..]);
      var n, rest := store[cs[0].oid], ChildPages(store, height, cs[1..]).value;
      assert ([n] + rest)[1..] == rest;
    }
  }

  lemma {:induction false} UnderNextLevel(store: Store, level: seq<Node>, domain: Value, height: nat)
    requires height > 0 && NextLevel(store, level, domain, height).Ok?
    ensures UnderLevel(store, NextLevel(store, level, domain, height).value, height - 1)
         == UnderLevel(store, level, height)
  {
    hide ChildPages, UnderAll;
    if |level| > 0 {
      UnderChildPages(store, height, level[0].children);
      UnderNextLevel(store, level[1..], domain, height);
      var pages, rest := ChildPages(store, height, level[0].children).value,
                         NextLevel(store, level[1..], domain, height).value;
      UnderLevelAppend(store, pages, rest, height - 1);
    }
  }

  lemma {:induction false} UnderLeaves(store: Store, level: seq<Node>)
    ensures UnderLevel(store, level, 0) == Rows(level)
  {
    if |level| > 0 { UnderLeaves(store, level[1..]); }
  }

  /** Every level of a walk covers the same rows: those of its leaves, in order. */
  lemma {:induction false} UnderDescend(store: Store, level: seq<Node>, domain: Value, height: nat, i: nat)
    requires Descend(store, level, domain, height).Ok? && i <= height
    ensures var levels := Descend(store, level, domain, height).value;
            UnderLevel(store, levels[i], height - i) == Rows(Bottom(levels))
    decreases height
  {
    hide NextLevel, Under, Rows, UnderLevel;
    if height == 0 {
      UnderLeaves(store, level);
    } else {
      UnderNextLevel(store, level, domain, height);
      var next := NextLevel(store, level, domain, height).value;
      UnderDescend(store, next, domain, height - 1, if i == 0 then 0 else i - 1);
    }
  }

  // ----- Ascending keys of slices -----

  lemma AscendingSlice(x: seq<Row>, y: seq<Row>, z: seq<Row>)
    requires Ascending(Keys(x + y + z))
    ensures Ascending(Keys(y))
  {
    hide Before;
    var all := Keys(x + y + z);
    forall i | 0 <= i < |y| - 1 ensures Before(Keys(y)[i], Keys(y)[i + 1]) {
      assert all[|x| + i] == Keys(y)[i] && all[|x| + i + 1] == Keys(y)[i + 1];
      assert Before(all[|x| + i], all[|x| + i + 1]);
    }
  }

  lemma {:induction false} UnderLevelAt(store: Store, level: seq<Node>, height: nat, p: nat)
    requires p < |level| && Ascending(Keys(UnderLevel(store, level, height)))
    ensures Ascending(Keys(Under(store, level[p], height)))
  {
    hide Under, Ascending;
    UnderLevelAppend(store, level[..p], level[p..], height);
    assert level == level[..p] + level[p..] && level[p..][1..] == level[p + 1..];
    var x, y, z := UnderLevel(store, level[..p], height), Under(store, level[p], height),
                   UnderLevel(store, level[p + 1..], height);
    assert UnderLevel(store, level, height) == x + y + z;
    AscendingSlice(x, y, z);
  }

  // ----- Pages and their last keys, all the way down -----

  /** The page tree below `n` passed every child check of the walk. */
  ghost predicate Checked(store: Store, n: Node, height: nat)
    decreases height
  {
    if height == 0 then n.Leaf?
    else
      && n.Branch?
      && forall j | 0 <= j < |n.children| ::
           && ChildPage(store, height, n.children[j]).Ok? && n.children[j].oid in store
           && Checked(store, store[n.children[j].oid], height - 1)
  }

  lemma {:induction false} ChildPagesAt(store: Store, height: nat, cs: seq<Child>, j: nat)
    requires ChildPages(store, height, cs).Ok? && j < |cs|
    ensures ChildPage(store, height, cs[j]).Ok?
    ensures ChildPages(store, height, cs).value[j] == ChildPage(store, height, cs[j]).value
  {
    hide ChildPage;
    if j > 0 { ChildPagesAt(store, height, cs[1..], j - 1); }
  }

  lemma {:induction false} NextLevelAt(store: Store, level: seq<Node>, domain: Value, height: nat, p: nat)
    requires NextLevel(store, level, domain, height).Ok? && p < |level|
    ensures level[p].Branch? && ChildPages(store, height, level[p].children).Ok?
    ensures forall n | n in ChildPages(store, height, level[p].children).value ::
              n in NextLevel(store, level, domain, height).value
  {
    hide ChildPages, PageOk;
    if p > 0 { NextLevelAt(store, level[1..], domain, height, p - 1); }
  }

  lemma {:induction false} DescendChecked(store: Store, level: seq<Node>, domain: Value, height: nat)
    requires Descend(store, level, domain, height).Ok?
    requires forall n :: n in Bottom(Descend(store, level, domain, height).value) ==> n.Leaf?
    ensures forall n :: n in level ==> Checked(store, n, height)
    decreases height
  {
    hide NextLevel, ChildPages, ChildPage;
    if height > 0 {
      var next := NextLevel(store, level, domain, height).value;
      DescendChecked(store, next, domain, height - 1);
      forall n | n in level ensures Checked(store, n, height) {
        var p :| 0 <= p < |level| && level[p] == n;
        NextLevelAt(store, level, domain, height, p);
        forall j | 0 <= j < |n.children|
          ensures ChildPage(store, height, n.children[j]).Ok? && n.children[j].oid in store
               && Checked(store, store[n.children[j].oid], height - 1)
        {
          ChildPagesAt(store, height, n.children, j);
          ChildPageLoaded(store, height, n.children[j]);
        }
      }
    }
  }

  lemma ChildPageLoaded(store: Store, height: nat, c: Child)
    requires ChildPage(store, height, c).Ok?
    ensures c.oid in store && ChildPage(store, height, c).value == store[c.oid] && Size(store[c.oid]) > 0
  {
  }

  /** A checked page holds the rows it counts, and its last key is the last key beneath it. */
  lemma {:induction false} UnderFacts(store: Store, n: Node, height: nat, idOf: Node -> Oid, tags: set<nat>)
    requires Loaded(store, idOf, tags) && Decoded(n, tags) && Checked(store, n, height) && Size(n) > 0
    ensures |Under(store, n, height)| == Count(n) > 0
    ensures Under(store, n, height)[|Under(store, n, height)| - 1].key == LastKey(n)
    decreases height, 0
  {
    hide WellFormed, ChildPage, UnderAll;
    if height > 0 { UnderAllFacts(store, n.children, height, idOf, tags); }
  }

  lemma {:induction false} UnderAllFacts(store: Store, cs: seq<Child>, height: nat, idOf: Node -> Oid, tags: set<nat>)
    requires Loaded(store, idOf, tags) && height > 0 && |cs| > 0
    requires forall j | 0 <= j < |cs| ::
               && WellFormed(cs[j].fence, tags) && ChildPage(store, height, cs[j]).Ok? && cs[j].oid in store
               && Checked(store, store[cs[j].oid], height - 1)
    ensures var rows := UnderAll(store, cs, height - 1);
            |rows| == CountSum(cs) > 0 && rows[|rows| - 1].key == cs[|cs| - 1].fence
    decreases height - 1, 1, |cs|
  {
    hide WellFormed, Encode, Checked, Under;
    var n := store[cs[0].oid];
    EncodeInjective(LastKey(n), cs[0].fence, tags);
    UnderFacts(store, n, height - 1, idOf, tags);
    if |cs| > 1 { UnderAllFacts(store, cs[1..], height, idOf, tags); }
  }

  // ----- The search structure -----

  /**
   * Child `j` of a branch holds exactly the rows it counts; the last of them carries the fence,
   * all lie at or below that fence, and all lie strictly above the fence before it.
   */
  ghost predicate Brackets(store: Store, n: Node, height: nat, j: nat)
    requires n.Branch? && j < |n.children| && height > 0
  {
    var rows := UnderChild(store, n.children[j], height - 1);
    && |rows| == n.children[j].count > 0
    && rows[|rows| - 1].key == n.children[j].fence
    && (forall i | 0 <= i < |rows| - 1 :: Before(rows[i].key, n.children[j].fence))
    && (j > 0 ==> forall i | 0 <= i < |rows| :: Before(n.children[j - 1].fence, rows[i].key))
  }

  ghost predicate AllBracketed(store: Store, n: Node, height: nat) {
    n.Branch? && height > 0 && forall j | 0 <= j < |n.children| :: Brackets(store, n, height, j)
  }

  lemma UnderSplit(store: Store, cs: seq<Child>, height: nat, j: nat)
    requires j < |cs|
    ensures UnderAll(store, cs, height)
         == UnderAll(store, cs[..j], height) + UnderChild(store, cs[j], height) + UnderAll(store, cs[j + 1..], height)
  {
    hide UnderChild;
    UnderAllAppend(store, cs[..j], cs[j..], height);
    assert cs == cs[..j] + cs[j..] && cs[j..][1..] == cs[j + 1..];
  }

  lemma BranchBrackets(store: Store, n: Node, height: nat, j: nat, idOf: Node -> Oid, tags: set<nat>)
    requires Loaded(store, idOf, tags) && Decoded(n, tags) && Checked(store, n, height) && height > 0
    requires j < |n.children| && Ascending(Keys(Under(store, n, height)))
    ensures Brackets(store, n, height, j)
  {
    hide WellFormed, Ascending, Before, Keys, UnderAll, ChildPage, LastKey, Count;
    var cs, c := n.children, n.children[j];
    UnderSplit(store, cs, height - 1, j);
    BlockOrder(UnderAll(store, cs[..j], height - 1), UnderChild(store, c, height - 1),
      UnderAll(store, cs[j + 1..], height - 1));
    ChildFacts(store, c, height, idOf, tags);
    if j > 0 { UnderAllFacts(store, cs[..j], height, idOf, tags); }
  }

  lemma ChildFacts(store: Store, c: Child, height: nat, idOf: Node -> Oid, tags: set<nat>)
    requires Loaded(store, idOf, tags) && WellFormed(c.fence, tags) && height > 0
    requires ChildPage(store, height, c).Ok? && c.oid in store && Checked(store, store[c.oid], height - 1)
    ensures var rows := UnderChild(store, c, height - 1);
            |rows| == c.count > 0 && rows[|rows| - 1].key == c.fence
  {
    hide WellFormed, Under, Checked, Decoded, LastKey, Count;
    ChildPageLoaded(store, height, c);
    ChildCount(store, height, c, idOf, tags);
    UnderFacts(store, store[c.oid], height - 1, idOf, tags);
  }

  lemma ChildCount(store: Store, height: nat, c: Child, idOf: Node -> Oid, tags: set<nat>)
    requires Loaded(store, idOf, tags) && ChildPage(store, height, c).Ok? && WellFormed(c.fence, tags)
    ensures c.oid in store && Size(store[c.oid]) > 0 && Count(store[c.oid]) == c.count
        && LastKey(store[c.oid]) == c.fence
  {
    hide WellFormed, Encode;
    EncodeInjective(LastKey(store[c.oid]), c.fence, tags);
  }

  /** In an ascending run, a block lies above the end of what precedes it and below its own end. */
  lemma BlockOrder(x: seq<Row>, y: seq<Row>, z: seq<Row>)
    requires Ascending(Keys(x + y + z))
    ensures forall i | 0 <= i < |y| - 1 :: Before(y[i].key, y[|y| - 1].key)
    ensures |x| > 0 ==> forall i | 0 <= i < |y| :: Before(x[|x| - 1].key, y[i].key)
  {
    hide Before, Ascending;
    var all := Keys(x + y + z);
    forall i | 0 <= i < |y| - 1 ensures Before(y[i].key, y[|y| - 1].key) {
      AscendingPairs(all, |x| + i, |x| + |y| - 1);
    }
    if |x| > 0 {
      forall i | 0 <= i < |y| ensures Before(x[|x| - 1].key, y[i].key) {
        AscendingPairs(all, |x| - 1, |x| + i);
      }
    }
  }

  lemma LevelDecoded(
      store: Store, level: seq<Node>, domain: Value, height: nat, i: nat, idOf: Node -> Oid, tags: set<nat>)
    requires Loaded(store, idOf, tags) && WellFormed(domain, tags) && AllDecoded(level, tags)
    requires Descend(store, level, domain, height).Ok? && i <= height
    requires forall n :: n in Bottom(Descend(store, level, domain, height).value) ==> n.Leaf?
    ensures var levels := Descend(store, level, domain, height).value;
            AllDecoded(levels[i], tags) && forall n :: n in levels[i] ==> Checked(store, n, height - i)
    decreases height
  {
    hide WellFormed, NextLevel, Decoded, Checked;
    DescendChecked(store, level, domain, height);
    if i > 0 {
      NextLevelEntries(store, level, domain, height, idOf, tags);
      LevelDecoded(store, NextLevel(store, level, domain, height).value, domain, height - 1, i - 1, idOf, tags);
    }
  }

  /**
   * The search structure of an accepted map: its rows ascend across all leaves, the root covers
   * exactly those rows, and every branch at every level brackets the rows of each of its children.
   */
  lemma SearchStructure(x: Context, store: Store, root: Oid, domain: Value, idOf: Node -> Oid, tags: set<nat>)
    requires Loaded(store, idOf, tags) && WellFormed(domain, tags) && Accept(x, store, root, domain).Ok?
    ensures var levels := Accept(x, store, root, domain).value;
            var rows := Rows(Bottom(levels));
            && (forall i, j | 0 <= i < j < |rows| :: Before(rows[i].key, rows[j].key))
            && Under(store, store[root], |levels| - 1) == rows
            && (forall i, p | 0 <= i < |levels| - 1 && 0 <= p < |levels[i]| ::
                  AllBracketed(store, levels[i][p], |levels| - 1 - i))
  {
    hide WellFormed, Descend, PartitionsOk, Rows, Under, Before, Brackets, Ascending, Decoded, Keys, Checked;
    var levels := Accept(x, store, root, domain).value;
    var height := RootHeight(store[root]);
    DescendShape(store, [store[root]], domain, height);
    var rows := Rows(Bottom(levels));
    forall i, j | 0 <= i < j < |rows| ensures Before(rows[i].key, rows[j].key) {
      AscendingPairs(Keys(rows), i, j);
    }
    UnderDescend(store, [store[root]], domain, height, 0);
    assert UnderLevel(store, [store[root]], height) == Under(store, store[root], height) + [] by {
      assert [store[root]][1..] == [];
    }
    forall i, p | 0 <= i < |levels| - 1 && 0 <= p < |levels[i]|
      ensures AllBracketed(store, levels[i][p], |levels| - 1 - i)
    {
      LevelDecoded(store, [store[root]], domain, height, i, idOf, tags);
      UnderDescend(store, [store[root]], domain, height, i);
      UnderLevelAt(store, levels[i], height - i, p);
      assert levels[i][p] in levels[i];
      BranchBracketed(store, levels[i][p], height - i, idOf, tags);
    }
  }

  lemma BranchBracketed(store: Store, n: Node, height: nat, idOf: Node -> Oid, tags: set<nat>)
    requires Loaded(store, idOf, tags) && Decoded(n, tags) && Checked(store, n, height) && height > 0
    requires Ascending(Keys(Under(store, n, height)))
    ensures AllBracketed(store, n, height)
  {
    hide Under, Brackets, Checked, Decoded;
    CheckedBranch(store, n, height);
    forall j | 0 <= j < |n.children| ensures Brackets(store, n, height, j) {
      BranchBrackets(store, n, height, j, idOf, tags);
    }
  }

  lemma CheckedBranch(store: Store, n: Node, height: nat)
    requires Checked(store, n, height) && height > 0
    ensures n.Branch?
  {
  }

  lemma DescendShape(store: Store, level: seq<Node>, domain: Value, height: nat)
    ensures Descend(store, level, domain, height).Ok? ==>
              |Descend(store, level, domain, height).value| == height + 1
              && Descend(store, level, domain, height).value[0] == level
  {
  }

  // ----- Encoded sizes -----

  function RowValue(row: Row): Value { Array([row.key, row.value]) }

  function ChildValue(c: Child): Value { Array([c.fence, Bytes(c.oid), Int(c.count)]) }

  /** The node data of a page: [1, 1, domain, rows] or [1, 2, domain, height, children]. */
  function NodeValue(n: Node): Value
    requires !n.Other?
  {
    match n
    case Leaf(domain, rows) =>
      Array([Int(1), Int(1), domain, Array(seq(|rows|, i requires 0 <= i < |rows| => RowValue(rows[i])))])
    case Branch(domain, height, children) =>
      Array([Int(1), Int(2), domain, Int(height),
             Array(seq(|children|, i requires 0 <= i < |children| => ChildValue(children[i])))])
  }

  lemma Encode2(a: Value, b: Value)
    ensures EncodeAll([a, b]) == Encode(a) + Encode(b)
  {
    hide Encode;
    assert [a, b][1..] == [b] && [b][1..] == [];
    assert EncodeAll([b]) == Encode(b) + EncodeAll([]);
  }

  lemma Encode3(a: Value, b: Value, c: Value)
    ensures EncodeAll([a, b, c]) == Encode(a) + Encode(b) + Encode(c)
  {
    hide Encode;
    assert [a, b, c][1..] == [b, c];
    Encode2(b, c);
  }

  lemma RowValueSize(x: Context, row: Row)
    ensures |Encode(RowValue(row))| == LeafEntry(x, row).size
  {
    Encode2(row.key, row.value);
    assert |Head(4, 2)| == 1;
    hide Head, EncodeAll;
    assert Encode(Array([row.key, row.value])) == Head(4, 2) + EncodeAll([row.key, row.value]);
  }

  lemma ChildValueSize(x: Context, c: Child)
    ensures |Encode(ChildValue(c))| == BranchEntry(x, c).size
  {
    Encode3(c.fence, Bytes(c.oid), Int(c.count));
    assert |Head(4, 3)| == 1;
    hide Head, EncodeAll;
    var items := [c.fence, Bytes(c.oid), Int(c.count)];
    assert Encode(Array(items)) == Head(4, 3) + EncodeAll(items);
  }

  lemma {:induction false} EncodeAllSnoc(vs: seq<Value>, v: Value)
    ensures EncodeAll(vs + [v]) == EncodeAll(vs) + Encode(v)
  {
    hide Encode;
    if |vs| == 0 {
      assert vs + [v] == [v] && [v][1..] == [];
      assert EncodeAll([v]) == Encode(v) + EncodeAll([]);
    } else {
      EncodeAllSnoc(vs[1..], v);
      assert (vs + [v])[1..] == vs[1..] + [v];
    }
  }

  /** Values whose encoded lengths are the entry sizes add up to the tracked payload. */
  lemma {:induction false} PayloadSize(vs: seq<Value>, es: seq<P.Entry>)
    requires |vs| == |es| && forall i | 0 <= i < |vs| :: |Encode(vs[i])| == es[i].size
    ensures |EncodeAll(vs)| == P.SizeSum(es)
    decreases |vs|
  {
    hide Encode;
    if |vs| > 0 {
      var k := |vs| - 1;
      PayloadSize(vs[..k], es[..k]);
      EncodeAllSnoc(vs[..k], vs[k]);
      assert vs == vs[..k] + [vs[k]];
    }
  }

  lemma HeaderSize(domain: Value, body: Value)
    ensures |Encode(Array([Int(1), Int(1), domain, body]))| == 3 + |Encode(domain)| + |Encode(body)|
    ensures forall h: nat ::
              |Encode(Array([Int(1), Int(2), domain, Int(h), body]))|
              == 3 + |Encode(domain)| + |Encode(Int(h))| + |Encode(body)|
  {
    assert |Encode(Int(1))| == 1 && |Encode(Int(2))| == 1 && |Head(4, 4)| == 1 && |Head(4, 5)| == 1;
    hide Encode, Head;
    HeaderSizeAt(domain, body, Int(1), None);
    forall h: nat
      ensures |Encode(Array([Int(1), Int(2), domain, Int(h), body]))|
           == 3 + |Encode(domain)| + |Encode(Int(h))| + |Encode(body)|
    {
      HeaderSizeAt(domain, body, Int(2), Some(Int(h)));
    }
  }

  lemma HeaderSizeAt(domain: Value, body: Value, kind: Value, height: Option<Value>)
    requires |Encode(Int(1))| == 1 && |Encode(kind)| == 1 && |Head(4, 4)| == 1 && |Head(4, 5)| == 1
    ensures height.None? ==>
              |Encode(Array([Int(1), kind, domain, body]))| == 3 + |Encode(domain)| + |Encode(body)|
    ensures height.Some? ==>
              |Encode(Array([Int(1), kind, domain, height.value, body]))|
              == 3 + |Encode(domain)| + |Encode(height.value)| + |Encode(body)|
  {
    hide Head;
    if height.None? {
      var items := [Int(1), kind, domain, body];
      assert items[1..] == [kind, domain, body];
      Encode3(kind, domain, body);
      assert EncodeAll(items) == Encode(Int(1)) + EncodeAll(items[1..]);
      assert Encode(Array(items)) == Head(4, 4) + EncodeAll(items);
    } else {
      var items := [Int(1), kind, domain, height.value, body];
      assert items[1..] == [kind, domain, height.value, body] && items[1..][1..] == [domain, height.value, body];
      Encode3(domain, height.value, body);
      assert EncodeAll(items) == Encode(Int(1)) + EncodeAll(items[1..]);
      assert EncodeAll(items[1..]) == Encode(kind) + EncodeAll(items[1..][1..]);
      assert Encode(Array(items)) == Head(4, 5) + EncodeAll(items);
    }
  }

  /** The size the partition tracks for a page is the exact length of the page's node data. */
  lemma PageSize(x: Context, n: Node)
    requires !n.Other? && (n.Branch? ==> n.height > 0)
    ensures |Encode(NodeValue(n))|
         == P.NodeSize(LevelRule(x, n.domain, RootHeight(n)), LevelEntries(x, [n], RootHeight(n)))
  {
    hide Encode, Head, EncodeAll;
    var es := LevelEntries(x, [n], RootHeight(n));
    match n
    case Leaf(domain, rows) =>
      assert Rows([n]) == rows + Rows([]) == rows;
      var vs := seq(|rows|, i requires 0 <= i < |rows| => RowValue(rows[i]));
      forall i | 0 <= i < |rows| ensures |Encode(vs[i])| == es[i].size { RowValueSize(x, rows[i]); }
      PayloadSize(vs, es);
      ArraySize(vs);
      HeaderSize(domain, Array(vs));
    case Branch(domain, height, children) =>
      assert Children([n]) == children + Children([]) == children;
      var vs := seq(|children|, i requires 0 <= i < |children| => ChildValue(children[i]));
      forall i | 0 <= i < |children| ensures |Encode(vs[i])| == es[i].size { ChildValueSize(x, children[i]); }
      PayloadSize(vs, es);
      ArraySize(vs);
      HeaderSize(domain, Array(vs));
  }

  lemma ArraySize(vs: seq<Value>)
    ensures |Encode(Array(vs))| == |Head(4, |vs|)| + |EncodeAll(vs)|
  {
  }

  lemma LevelEntriesSplit(x: Context, level: seq<Node>, domain: Value, height: nat)
    requires |level| > 0 && Uniform(level, domain, height)
    ensures LevelEntries(x, level, height) == LevelEntries(x, [level[0]], height) + LevelEntries(x, level[1..], height)
    ensures |LevelEntries(x, [level[0]], height)| == Size(level[0])
  {
    hide LeafEntry, BranchEntry;
    var n := level[0];
    assert [n][1..] == [];
    if height == 0 {
      assert Rows([n]) == n.rows + Rows([]) == n.rows;
      assert Rows(level) == n.rows + Rows(level[1..]);
    } else {
      assert Children([n]) == n.children + Children([]) == n.children;
      assert Children(level) == n.children + Children(level[1..]);
    }
  }

  /** The entries of a page are one page of its level's partition. */
  lemma {:induction false} PageOfLevel(x: Context, level: seq<Node>, domain: Value, height: nat, i: nat)
    requires i < |level| && Uniform(level, domain, height)
    ensures P.PageAt(LevelEntries(x, level, height), Sizes(level), i) == LevelEntries(x, [level[i]], height)
    decreases |level|
  {
    hide LevelEntries, Size;
    var es, sizes := LevelEntries(x, level, height), Sizes(level);
    LevelEntriesSplit(x, level, domain, height);
    assert sizes[1..] == Sizes(level[1..]) && sizes[0] == Size(level[0]);
    if i == 0 {
      assert P.Sum(sizes[..0]) == 0;
    } else {
      PageOfLevel(x, level[1..], domain, height, i - 1);
      P.PageAtTail(es, sizes, i);
      assert es[sizes[0]..] == LevelEntries(x, level[1..], height);
    }
  }

  /** Every page of an accepted map that holds rows keeps the node limits, counted on its exact encoding. */
  lemma PageBounds(
      x: Context, store: Store, root: Oid, domain: Value, idOf: Node -> Oid, tags: set<nat>, h: nat, i: nat)
    requires Loaded(store, idOf, tags) && WellFormed(domain, tags) && Accept(x, store, root, domain).Ok?
    requires var levels := Accept(x, store, root, domain).value;
      h < |levels| && i < |levels[h]| && |Rows(Bottom(levels))| > 0
    ensures var n := Accept(x, store, root, domain).value[h][i];
      !n.Other? && 1 <= Size(n) <= P.MAX_PAGE_ENTRIES && |Encode(NodeValue(n))| <= P.NODE_DATA_LIMIT
  {
    hide Encode, NodeValue, P.NodeSize, P.References, WellFormed, P.Greedy, Accept, Rows;
    hide Children, LevelEntries, LeavesOk, Verified, Size, P.Canonical, LevelRule, Uniform;
    AcceptVerified(x, store, root, domain, idOf, tags);
    var levels := Accept(x, store, root, domain).value;
    var height := |levels| - 1 - h;
    var level := levels[h];
    VerifiedLevel(x, idOf, levels, domain, h);
    LevelHasEntries(x, level, height);
    var rule, es := LevelRule(x, domain, height), LevelEntries(x, level, height);
    P.GreedyCanonical(rule, es);
    P.CanonicalBounds(rule, es, Sizes(level));
    assert P.PageFits(rule, es, Sizes(level), i) && Sizes(level)[i] == Size(level[i]);
    PageOfLevel(x, level, domain, height, i);
    UniformPage(level, domain, height, i);
    PageSize(x, level[i]);
  }

  lemma UniformPage(level: seq<Node>, domain: Value, height: nat, i: nat)
    requires Uniform(level, domain, height) && i < |level|
    ensures !level[i].Other? && level[i].domain == domain && RootHeight(level[i]) == height
    ensures level[i].Branch? ==> level[i].height > 0
  {
  }

  lemma VerifiedLevel(x: Context, idOf: Node -> Oid, levels: seq<seq<Node>>, domain: Value, h: nat)
    requires Verified(x, idOf, levels, domain) && h < |levels|
    ensures Uniform(levels[h], domain, |levels| - 1 - h) && PartitionOk(x, levels[h], domain, |levels| - 1 - h)
  {
    hide Uniform, PartitionOk, AllSized, Children;
  }

  lemma LevelHasEntries(x: Context, level: seq<Node>, height: nat)
    ensures height == 0 ==> |LevelEntries(x, level, 0)| == |Rows(level)|
  {
  }

  // ----- The walk -----

  ghost function Then<T>(done: seq<T>, rest: Result<seq<T>>): Result<seq<T>> {
    match rest
    case Err => Err
    case Ok(more) => Ok(done + more)
  }

  method LoadChildren(store: Store, height: nat, cs: seq<Child>) returns (r: Result<seq<Node>>)
    ensures r == ChildPages(store, height, cs)
  {
    hide Encode;
    var done: seq<Node> := [];
    ghost var goal := ChildPages(store, height, cs);
    assert cs[0..] == cs && (goal.Ok? ==> [] + goal.value == goal.value);
    for k := 0 to |cs|
      invariant |done| == k && goal == Then(done, ChildPages(store, height, cs[k..]))
    {
      var c := cs[k];
      assert cs[k..][0] == c && cs[k..][1..] == cs[k + 1..];
      if c.oid !in store { return Err; }
      var n := store[c.oid];
      if (height == 1 && !n.Leaf?) || (height > 1 && !(n.Branch? && n.height == height - 1)) { return Err; }
      if Size(n) == 0 { return Err; }
      if Encode(LastKey(n)) != Encode(c.fence) { return Err; }
      if Count(n) != c.count { return Err; }
      ghost var after := ChildPages(store, height, cs[k + 1..]);
      assert after.Ok? ==> done + ([n] + after.value) == done + [n] + after.value;
      done := done + [n];
    }
    assert done + [] == done;
    r := Ok(done);
  }

  method LoadLevel(store: Store, level: seq<Node>, domain: Value, height: nat) returns (r: Result<seq<Node>>)
    ensures r == NextLevel(store, level, domain, height)
  {
    hide ChildPages, PageOk, NextLevel, Then;
    var children: seq<Node> := [];
    ghost var goal := NextLevel(store, level, domain, height);
    assert level[0..] == level;
    ThenNothing(goal, []);
    for k := 0 to |level|
      invariant goal == Then(children, NextLevel(store, level[k..], domain, height))
    {
      var parent := level[k];
      LevelContinues(store, level, domain, height, k, children);
      if !parent.Branch? || !PageOk(parent, domain, height) { return Err; }
      var pages := LoadChildren(store, height, parent.children);
      if pages.Err? { return Err; }
      children := children + pages.value;
    }
    NoLevelLeft(store, level, domain, height);
    ThenNothing(goal, children);
    r := Ok(children);
  }

  lemma NoLevelLeft(store: Store, level: seq<Node>, domain: Value, height: nat)
    ensures NextLevel(store, level[|level|..], domain, height) == Ok([])
  {
  }

  lemma ThenNothing(goal: Result<seq<Node>>, done: seq<Node>)
    ensures Then([], goal) == goal && Then(done, Ok([])) == Ok(done)
  {
    if goal.Ok? { assert [] + goal.value == goal.value; }
    assert done + [] == done;
  }

  /** One more parent of a level: its children join those gathered. */
  lemma LevelContinues(store: Store, level: seq<Node>, domain: Value, height: nat, k: nat, done: seq<Node>)
    requires k < |level|
    ensures var parent := level[k];
      Then(done, NextLevel(store, level[k..], domain, height)) ==
        if !parent.Branch? || !PageOk(parent, domain, height) then Err
        else if ChildPages(store, height, parent.children).Err? then Err
        else Then(done + ChildPages(store, height, parent.children).value,
          NextLevel(store, level[k + 1..], domain, height))
  {
    hide ChildPages, PageOk;
    assert level[k..][0] == level[k] && level[k..][1..] == level[k + 1..];
    var pages := if level[k].Branch? then ChildPages(store, height, level[k].children) else Err;
    var after := NextLevel(store, level[k + 1..], domain, height);
    if pages.Ok? && after.Ok? { assert done + (pages.value + after.value) == done + pages.value + after.value; }
  }

  /** The first page of a checked level shows the height of the whole level. */
  lemma {:induction false} LevelHeights(
      store: Store, level: seq<Node>, domain: Value, height: nat, idOf: Node -> Oid, tags: set<nat>)
    requires Loaded(store, idOf, tags) && AllDecoded(level, tags) && |level| > 0
    requires height > 0 && NextLevel(store, level, domain, height).Ok?
    ensures var next := NextLevel(store, level, domain, height).value;
            && |next| > 0 && AllDecoded(next, tags)
            && forall i | 0 <= i < |next| :: (next[i].Branch? <==> height > 1) && RootHeight(next[i]) == height - 1
                                             && !next[i].Other?
  {
    hide PageOk, Encode, WellFormed, Ascending;
    ChildHeights(store, level[0].children, height, idOf, tags);
    if |level| > 1 {
      assert AllDecoded(level[1..], tags);
      LevelHeights(store, level[1..], domain, height, idOf, tags);
    } else {
      assert NextLevel(store, level[1..], domain, height) == Ok([]);
    }
  }

  lemma {:induction false} ChildHeights(store: Store, cs: seq<Child>, height: nat, idOf: Node -> Oid, tags: set<nat>)
    requires Loaded(store, idOf, tags) && height > 0 && ChildPages(store, height, cs).Ok?
    ensures var pages := ChildPages(store, height, cs).value;
            && AllDecoded(pages, tags)
            && forall i | 0 <= i < |pages| :: (pages[i].Branch? <==> height > 1) && RootHeight(pages[i]) == height - 1
                                             && !pages[i].Other?
  {
    hide Encode, WellFormed;
    if |cs| > 0 { ChildHeights(store, cs[1..], height, idOf, tags); }
  }

  /** ordered_map: the rows of a map, after verifying the whole map. */
  method ReadOrderedMap(
      x: Context, store: Store, root: Oid, domain: Value, ghost idOf: Node -> Oid, ghost tags: set<nat>)
    returns (r: Result<seq<Row>>)
    requires Loaded(store, idOf, tags)
    ensures r == match Accept(x, store, root, domain)
                 case Err => Err
                 case Ok(levels) => Ok(Rows(Bottom(levels)))
  {
    hide NextLevel, LeavesOk, PartitionsOk, Rows, Descend, Then, Decoded;
    if root !in store || store[root].Other? || (store[root].Branch? && |store[root].children| < 2) { return Err; }
    var above: seq<seq<Node>> := [];
    var level := [store[root]];
    ghost var left := RootHeight(store[root]);
    ghost var goal := Descend(store, level, domain, left);
    DescendStart(store, level, domain, left);
    if store[root].Branch? { BranchHeight(store[root], tags); }
    while level[0].Branch?
      invariant |level| > 0 && AllDecoded(level, tags) && !level[0].Other?
      invariant (level[0].Branch? <==> left > 0) && RootHeight(level[0]) == left
      invariant goal == Then(above, Descend(store, level, domain, left))
      decreases left
    {
      DescendStep(store, level, domain, left, above);
      var children := LoadLevel(store, level, domain, level[0].height);
      if children.Err? { return Err; }
      LevelHeights(store, level, domain, left, idOf, tags);
      above, level, left := above + [level], children.value, left - 1;
    }
    DescendEnd(store, level, domain, above);
    var levels := above + [level];
    var leaves := CheckLeaves(level, domain);
    if leaves.Err? { return Err; }
    var partitioned := CheckPartitions(x, levels, domain);
    r := if partitioned then leaves else Err;
  }

  lemma BranchHeight(n: Node, tags: set<nat>)
    requires Decoded(n, tags) && n.Branch?
    ensures n.height > 0
  {
  }

  lemma DescendStart(store: Store, level: seq<Node>, domain: Value, height: nat)
    ensures Descend(store, level, domain, height) == Then([], Descend(store, level, domain, height))
  {
    hide Descend;
    var goal := Descend(store, level, domain, height);
    if goal.Ok? { assert [] + goal.value == goal.value; }
  }

  lemma DescendStep(store: Store, level: seq<Node>, domain: Value, height: nat, above: seq<seq<Node>>)
    requires height > 0
    ensures Then(above, Descend(store, level, domain, height))
         == match NextLevel(store, level, domain, height)
            case Err => Err
            case Ok(next) => Then(above + [level], Descend(store, next, domain, height - 1))
  {
    hide NextLevel;
    if NextLevel(store, level, domain, height).Ok? {
      var below := Descend(store, NextLevel(store, level, domain, height).value, domain, height - 1);
      if below.Ok? { assert above + ([level] + below.value) == above + [level] + below.value; }
    }
  }

  lemma DescendEnd(store: Store, level: seq<Node>, domain: Value, above: seq<seq<Node>>)
    ensures Then(above, Descend(store, level, domain, 0)) == Ok(above + [level])
  {
  }

  /** The key check of one leaf, continued from the rows before it. */
  method AppendRows(before: seq<Row>, more: seq<Row>) returns (ok: bool)
    requires Ascending(Keys(before))
    ensures ok <==> Ascending(Keys(before + more))
  {
    hide Before;
    var all := before + more;
    assert forall i | 0 <= i < |before| :: Keys(all)[i] == Keys(before)[i];
    for k := |before| to |all|
      invariant forall i | 0 <= i < k - 1 :: Before(Keys(all)[i], Keys(all)[i + 1])
    {
      if k > 0 && !Before(all[k - 1].key, all[k].key) {
        assert !Before(Keys(all)[k - 1], Keys(all)[k - 1 + 1]);
        return false;
      }
    }
    ok := true;
  }

  method CheckLeaves(level: seq<Node>, domain: Value) returns (r: Result<seq<Row>>)
    ensures r == if LeavesOk(level, domain) then Ok(Rows(level)) else Err
  {
    hide PageOk, Ascending, Rows, Keys;
    var rows: seq<Row> := [];
    NoRows();
    assert level[0..] == level && rows + Rows(level) == Rows(level);
    for k := 0 to |level|
      invariant forall i | 0 <= i < k :: level[i].Leaf? && PageOk(level[i], domain, 0)
      invariant rows + Rows(level[k..]) == Rows(level) && Ascending(Keys(rows))
    {
      var leaf := level[k];
      if !leaf.Leaf? || !PageOk(leaf, domain, 0) { return Err; }
      ghost var rest := Rows(level[k + 1..]);
      RowsFrom(level, k);
      assert Rows(level) == rows + leaf.rows + rest;
      var ok := AppendRows(rows, leaf.rows);
      if !ok {
        if Ascending(Keys(Rows(level))) {
          assert [] + (rows + leaf.rows) + rest == Rows(level);
          AscendingSlice([], rows + leaf.rows, rest);
        }
        return Err;
      }
      rows := rows + leaf.rows;
    }
    assert level[|level|..] == [] && rows + [] == rows;
    r := Ok(rows);
  }

  lemma NoRows()
    ensures Ascending(Keys([])) && Rows([]) == []
  {
  }

  lemma RowsFrom(level: seq<Node>, k: nat)
    requires k < |level| && level[k].Leaf?
    ensures Rows(level[k..]) == level[k].rows + Rows(level[k + 1..])
  {
    assert level[k..][1..] == level[k + 1..];
  }

  method CheckPartitions(x: Context, levels: seq<seq<Node>>, domain: Value) returns (ok: bool)
    ensures ok <==> PartitionsOk(x, levels, domain)
  {
    hide LevelEntries, LevelRule, Sizes, P.Greedy;
    for height := 0 to |levels|
      invariant forall i | |levels| - height <= i < |levels| :: PartitionOk(x, levels[i], domain, |levels| - 1 - i)
    {
      var level := levels[|levels| - 1 - height];
      var es := LevelEntries(x, level, height);
      if height > 0 || |es| > 0 {
        var expected := P.ReplayPartition(LevelRule(x, domain, height), es);
        if expected != Ok(Sizes(level)) {
          assert !PartitionOk(x, level, domain, |levels| - 1 - (|levels| - 1 - height));
          return false;
        }
      }
    }
    ok := true;
  }
}
