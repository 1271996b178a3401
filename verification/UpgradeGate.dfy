/**
 The semantic gate of a migration candidate (`upgrade_gate.rs`) and the end-to-end preservation
 theorem: what the gate accepts holds exactly the lowered legacy rows.
 */
module UpgradeGate {
  import opened Prelude
  import opened Sorting
  import opened Cbor
  import opened BlobCompletion
  import opened Migration
  import opened MigrationLoops
  import LegacyRows
  import O = OrderedMap
  import MapStructure
  import MapPages
  import R = RangeScan

  const PAGE_ROWS: nat := 256

  type Row = O.Row

  datatype BlobContent = BlobContent(identity: Identity, bytes: seq<byte>)

  /** The ordered map that holds a relation's rows. */
  datatype Tree = Tree(root: O.Oid, domain: Value)

  /**
   * The private candidate: an ordered map for each relation, and Blob content by descriptor. A
   * stored row value decodes to a field tuple; keys have one total order across all their types.
   */
  datatype Candidate = Candidate(
    store: O.Store,
    relations: map<RelationId, Tree>,
    blobs: map<seq<byte>, BlobContent>,
    decode: Value -> Result<Value>,
    less: R.Order)

  /** The rows of a relation, in the order of the map's leaves. */
  function RelationRows(c: Candidate, id: RelationId): seq<Row>
    requires id in c.relations
  {
    var root := c.relations[id].root;
    if root in c.store then MapStructure.Under(c.store, c.store[root], O.RootHeight(c.store[root])) else []
  }

  ghost predicate Readable(c: Candidate, id: RelationId)
    requires id in c.relations
  {
    var tree := c.relations[id];
    && tree.root in c.store
    && MapPages.Shaped(c.store, c.store[tree.root], tree.domain, O.RootHeight(c.store[tree.root]))
    && R.Ascends(c.less, RelationRows(c, id)) && |RelationRows(c, id)| <= R.MAX_SIGNED_LENGTH
  }

  /** The relations of a candidate are sound ordered maps. */
  ghost predicate Ordered(c: Candidate) {
    TotalOrder(c.less) && forall id | id in c.relations :: Readable(c, id)
  }

  // ----- The paged scan -----

  /** The whole key interval, resumed after a key, one page long. */
  function Resuming(resume: Option<Key>): R.Range {
    R.Range(None, None, resume, PAGE_ROWS)
  }

  lemma {:induction false} AllAfter(less: R.Order, rows: seq<Row>, resume: Option<Key>)
    requires resume.Some? ==> forall i | 0 <= i < |rows| :: less(resume.value, rows[i].key)
    ensures R.Wanted(less, Resuming(resume), rows) == rows
  {
    if |rows| > 0 {
      AllAfter(less, rows[1..], resume);
      assert rows == [rows[0]] + rows[1..];
    }
  }

  /** Resuming after the k-th key of an ordered relation skips exactly the first k rows. */
  lemma ResumeSkips(less: R.Order, rows: seq<Row>, k: nat)
    requires TotalOrder(less) && R.Ascends(less, rows) && 0 < k <= |rows|
    ensures R.Wanted(less, Resuming(Some(rows[k - 1].key)), rows) == rows[k..]
  {
    hide R.Within, R.Wanted;
    var resume := Some(rows[k - 1].key);
    NoneBefore(less, rows, k);
    R.WantedNone(less, Resuming(resume), rows[..k]);
    AllAfter(less, rows[k..], resume);
    R.WantedJoin(less, Resuming(resume), rows[..k], rows[k..]);
    assert rows == rows[..k] + rows[k..];
  }

  lemma NoneBefore(less: R.Order, rows: seq<Row>, k: nat)
    requires TotalOrder(less) && R.Ascends(less, rows) && 0 < k <= |rows|
    ensures forall i | 0 <= i < |rows[..k]| :: !R.Within(less, Resuming(Some(rows[k - 1].key)), rows[..k][i].key)
  {
    forall i | 0 <= i < |rows[..k]| ensures !less(rows[k - 1].key, rows[..k][i].key) {
      assert i < k - 1 ==> less(rows[i].key, rows[k - 1].key);
    }
  }

  /** The rows as a map; defined when every row's bytes decode. */
  ghost predicate IsRowMap(c: Candidate, rows: seq<Row>, m: map<Key, Value>) {
    && (forall i | 0 <= i < |rows| :: rows[i].key in m && c.decode(rows[i].value) == Ok(m[rows[i].key]))
    && (forall key | key in m :: exists i :: 0 <= i < |rows| && rows[i].key == key)
  }

  ghost predicate AllDecode(c: Candidate, rows: seq<Row>) {
    forall i | 0 <= i < |rows| :: c.decode(rows[i].value).Ok?
  }

  /**
   * candidate_rows: reading page after page, each resumed after the last key of the previous one,
   * rebuilds the whole relation; the refusal of a repeated key never fires.
   */
  method CandidateRows(c: Candidate, id: RelationId) returns (r: Result<map<Key, Value>>)
    requires Ordered(c) && id in c.relations
    ensures r.Ok? <==> AllDecode(c, RelationRows(c, id))
    ensures r.Ok? ==> IsRowMap(c, RelationRows(c, id), r.value)
  {
    ghost var rows := RelationRows(c, id);
    assert Readable(c, id);
    hide IsRowMap, AllDecode, R.RangeRows, RelationRows, MapPages.Shaped, R.Ascends;
    NoRowsRead(c, rows);
    var actual: map<Key, Value> := map[];
    var resume: Option<Key> := None;
    ghost var done := 0;
    while true
      invariant 0 <= done <= |rows|
      invariant resume == if done == 0 then None else Some(rows[done - 1].key)
      invariant IsRowMap(c, rows[..done], actual) && AllDecode(c, rows[..done])
      decreases |rows| - done
    {
      var page := NextPage(c, id, rows, resume, done);
      if |page| == 0 { break; }
      var read := ReadPage(c, rows, done, page, actual);
      if read.Err? { return Err; }
      actual := read.value;
      resume := Some(page[|page| - 1].key);
      done := done + |page|;
    }
    assert done == |rows| && rows[..done] == rows;
    r := Ok(actual);
  }

  /** One `range_rows` call of the scan: the rows after those already read, at most a page of them. */
  method NextPage(c: Candidate, id: RelationId, ghost rows: seq<Row>, resume: Option<Key>, ghost done: nat)
    returns (page: seq<Row>)
    requires Ordered(c) && id in c.relations && rows == RelationRows(c, id) && done <= |rows|
    requires resume == if done == 0 then None else Some(rows[done - 1].key)
    ensures page == rows[done..done + Min(PAGE_ROWS, |rows| - done)]
  {
    PageIs(c, id, resume, done);
    hide R.RangeRows, RelationRows, Ordered;
    var tree := c.relations[id];
    var scanned := R.ScanRange(c.less, c.store, c.store[tree.root], tree.domain, Resuming(resume));
    page := scanned.value;
  }

  lemma NoRowsRead(c: Candidate, rows: seq<Row>)
    ensures IsRowMap(c, rows[..0], map[]) && AllDecode(c, rows[..0])
  {
  }

  /** One page of the scan, added to the rows read so far. */
  method ReadPage(c: Candidate, ghost rows: seq<Row>, ghost done: nat, page: seq<Row>, before: map<Key, Value>)
    returns (r: Result<map<Key, Value>>)
    requires TotalOrder(c.less) && R.Ascends(c.less, rows) && done + |page| <= |rows|
        && page == rows[done..done + |page|]
    requires IsRowMap(c, rows[..done], before) && AllDecode(c, rows[..done])
    ensures r.Err? ==> !AllDecode(c, rows)
    ensures r.Ok? ==> IsRowMap(c, rows[..done + |page|], r.value) && AllDecode(c, rows[..done + |page|])
  {
    hide IsRowMap;
    var actual := before;
    for k := 0 to |page|
      invariant IsRowMap(c, rows[..done + k], actual) && AllDecode(c, rows[..done + k])
    {
      var row := page[k];
      assert row == rows[done + k];
      var raw := c.decode(row.value);
      if raw.Err? { return Err; }
      KeyIsNew(c, rows, done + k, actual);
      if row.key in actual { return Err; }
      ghost var sofar := actual;
      actual := actual[row.key := raw.value];
      assert actual - {row.key} == sofar;
      RowMapGrows(c, rows, done + k, actual);
    }
    r := Ok(actual);
  }

  /** The scan of a page after the first rows returns the next ones; it never fails. */
  lemma PageIs(c: Candidate, id: RelationId, resume: Option<Key>, done: nat)
    requires Ordered(c) && id in c.relations && done <= |RelationRows(c, id)|
    requires resume == if done == 0 then None else Some(RelationRows(c, id)[done - 1].key)
    ensures var tree, rows := c.relations[id], RelationRows(c, id);
      tree.root in c.store
      && R.RangeRows(c.less, c.store, c.store[tree.root], tree.domain, Resuming(resume))
      == Ok(rows[done..done + Min(PAGE_ROWS, |rows| - done)])
  {
    var tree, rows := c.relations[id], RelationRows(c, id);
    assert Readable(c, id);
    hide TotalOrder, MapPages.Shaped, R.Ascends, R.RangeRows, R.Wanted;
    R.RangeExact(c.less, c.store, c.store[tree.root], tree.domain, Resuming(resume));
    if done == 0 { AllAfter(c.less, rows, None); } else { ResumeSkips(c.less, rows, done); }
    assert R.Wanted(c.less, Resuming(resume), rows) == rows[done..];
    FirstOfRest(rows, done, PAGE_ROWS);
  }

  lemma FirstOfRest(rows: seq<Row>, done: nat, n: nat)
    requires done <= |rows| && n > 0
    ensures R.Take(rows[done..], n) == rows[done..done + Min(n, |rows| - done)]
  {
  }

  lemma KeyIsNew(c: Candidate, rows: seq<Row>, k: nat, m: map<Key, Value>)
    requires TotalOrder(c.less) && R.Ascends(c.less, rows) && k < |rows| && IsRowMap(c, rows[..k], m)
    ensures rows[k].key !in m
  {
    forall i | 0 <= i < |rows[..k]| ensures rows[..k][i].key != rows[k].key {
      assert c.less(rows[i].key, rows[k].key);
    }
  }

  lemma RowMapGrows(c: Candidate, rows: seq<Row>, k: nat, m: map<Key, Value>)
    requires k < |rows| && rows[k].key in m && IsRowMap(c, rows[..k], m - {rows[k].key}) && AllDecode(c, rows[..k])
    requires c.decode(rows[k].value) == Ok(m[rows[k].key])
    ensures IsRowMap(c, rows[..k + 1], m) && AllDecode(c, rows[..k + 1])
  {
    var before, after := rows[..k], rows[..k + 1];
    forall i | 0 <= i < |after| ensures after[i].key in m && c.decode(after[i].value) == Ok(m[after[i].key]) {
      if i < k { assert after[i] == before[i]; }
    }
    forall key | key in m ensures exists i :: 0 <= i < |after| && after[i].key == key {
      if key != rows[k].key {
        assert key in m - {rows[k].key};
        var i :| 0 <= i < |before| && before[i].key == key;
        assert after[i].key == key;
      } else {
        assert after[k].key == key;
      }
    }
  }

  // ----- The checks -----

  /** What the gate demands of one relation: every expected row with an equal value, and no other. */
  ghost predicate SameRows(e: ExpectedRelation, actual: map<Key, Value>) {
    && (forall i | 0 <= i < |e.rows| :: e.rows[i].key in actual && actual[e.rows[i].key] == e.rows[i].tuple)
    && (forall key | key in actual :: exists i :: 0 <= i < |e.rows| && e.rows[i].key == key)
  }

  method CheckRelation(e: ExpectedRelation, actual: map<Key, Value>) returns (ok: bool)
    ensures ok <==> SameRows(e, actual)
  {
    var expected: set<Key> := {};
    for i := 0 to |e.rows|
      invariant forall k | 0 <= k < i :: e.rows[k].key in actual && actual[e.rows[k].key] == e.rows[k].tuple
      invariant forall key | key in expected :: exists k :: 0 <= k < i && e.rows[k].key == key
      invariant forall k | 0 <= k < i :: e.rows[k].key in expected
    {
      var row := e.rows[i];
      if row.key !in actual || actual[row.key] != row.tuple { return false; }
      expected := expected + {row.key};
    }
    if !(actual.Keys <= expected) {
      var key :| key in actual.Keys && key !in expected;
      return false;
    }
    ok := true;
  }

  ghost predicate StoreBinds(c: Candidate, expected: seq<ExpectedRelation>, isSystem: RelationId -> bool) {
    && (forall id | id in c.relations :: isSystem(id) || exists i :: 0 <= i < |expected| && expected[i].id == id)
    && (forall i | 0 <= i < |expected| :: expected[i].id in c.relations)
  }

  method CheckStoreRelations(c: Candidate, expected: seq<ExpectedRelation>, isSystem: RelationId -> bool)
    returns (ok: bool)
    ensures ok <==> StoreBinds(c, expected, isSystem)
  {
    var staged: set<RelationId> := {};
    for i := 0 to |expected|
      invariant forall k | 0 <= k < i :: expected[k].id in staged
      invariant forall id | id in staged :: exists k :: 0 <= k < i && expected[k].id == id
    {
      staged := staged + {expected[i].id};
    }
    var left := c.relations.Keys;
    while left != {}
      invariant left <= c.relations.Keys
      invariant forall id | id in c.relations && id !in left :: isSystem(id) || id in staged
      decreases |left|
    {
      var id :| id in left;
      if id !in staged && !isSystem(id) { return false; }
      left := left - {id};
    }
    for i := 0 to |expected|
      invariant forall k | 0 <= k < i :: expected[k].id in c.relations
    {
      if expected[i].id !in c.relations { return false; }
    }
    ok := true;
  }

  /** The Blob resolves to the identity and bytes its legacy payload hashes to. */
  predicate BlobOk(c: Candidate, b: ExpectedBlob, actual: map<Key, Value>, payloads: map<Identity, seq<byte>>) {
    && b.identity in payloads
    && b.row in actual
    && b.descriptor in c.blobs
    && c.blobs[b.descriptor].identity == b.identity
    && (b.identity.length > 0 ==> c.blobs[b.descriptor].bytes == payloads[b.identity])
  }

  ghost predicate RelationOk(c: Candidate, e: ExpectedRelation, payloads: map<Identity, seq<byte>>) {
    && e.id in c.relations
    && AllDecode(c, RelationRows(c, e.id))
    && forall actual | IsRowMap(c, RelationRows(c, e.id), actual) ::
         SameRows(e, actual) && forall i | 0 <= i < |e.blobs| :: BlobOk(c, e.blobs[i], actual, payloads)
  }

  ghost predicate Accepts(
      c: Candidate, expected: seq<ExpectedRelation>, payloads: map<Identity, seq<byte>>, isSystem: RelationId -> bool)
  {
    && StoreBinds(c, expected, isSystem)
    && forall i | 0 <= i < |expected| :: RelationOk(c, expected[i], payloads)
  }

  lemma RowMapUnique(c: Candidate, rows: seq<Row>, m: map<Key, Value>, n: map<Key, Value>)
    requires IsRowMap(c, rows, m) && IsRowMap(c, rows, n)
    ensures m == n
  {
    forall key | key in m ensures key in n && m[key] == n[key] {
      var i :| 0 <= i < |rows| && rows[i].key == key;
      assert c.decode(rows[i].value) == Ok(m[key]) == Ok(n[key]);
    }
    forall key | key in n ensures key in m {
      var i :| 0 <= i < |rows| && rows[i].key == key;
      assert rows[i].key in m;
    }
    assert m.Keys == n.Keys;
  }

  method VerifyRelation(c: Candidate, e: ExpectedRelation, payloads: map<Identity, seq<byte>>) returns (ok: bool)
    requires Ordered(c)
    ensures ok <==> RelationOk(c, e, payloads)
  {
    hide SameRows, BlobOk, IsRowMap, AllDecode;
    if e.id !in c.relations { return false; }
    ghost var rows := RelationRows(c, e.id);
    var actual := CandidateRows(c, e.id);
    if actual.Err? { return false; }
    forall m | IsRowMap(c, rows, m) ensures m == actual.value { RowMapUnique(c, rows, m, actual.value); }
    var same := CheckRelation(e, actual.value);
    if !same { return false; }
    for i := 0 to |e.blobs|
      invariant forall k | 0 <= k < i :: BlobOk(c, e.blobs[k], actual.value, payloads)
    {
      if !BlobOk(c, e.blobs[i], actual.value, payloads) { return false; }
    }
    ok := true;
  }

  /** verify_candidate */
  method VerifyCandidate(
      c: Candidate, expected: seq<ExpectedRelation>, payloads: map<Identity, seq<byte>>, isSystem: RelationId -> bool)
    returns (ok: bool)
    requires Ordered(c)
    ensures ok <==> Accepts(c, expected, payloads, isSystem)
  {
    hide RelationOk, StoreBinds, Ordered;
    var bound := CheckStoreRelations(c, expected, isSystem);
    if !bound { return false; }
    for i := 0 to |expected|
      invariant forall k | 0 <= k < i :: RelationOk(c, expected[k], payloads)
    {
      var one := VerifyRelation(c, expected[i], payloads);
      if !one { return false; }
    }
    ok := true;
  }

  // ----- Preservation -----

  /** Row by row: a candidate relation holds exactly the lowered rows of a legacy source. */
  ghost predicate Holds(
      env: Env, descriptors: Descriptors, relation: Relation, source: seq<LegacyRow>, c: Candidate, rows: seq<Row>)
  {
    && (forall k | 0 <= k < |source| :: HoldsRow(env, descriptors, relation, source[k], c, rows))
    && (forall i | 0 <= i < |rows| :: LowersSome(env, descriptors, relation, source, c, rows[i]))
  }

  /** The candidate row has the key of the legacy row and decodes to the tuple that row is stored as. */
  ghost predicate LowersTo(
      env: Env, descriptors: Descriptors, relation: Relation, row: LegacyRow, c: Candidate, stored: Row)
  {
    && stored.key == row.key && c.decode(stored.value).Ok?
    && StoredAs(env, descriptors, relation, row, c.decode(stored.value).value)
  }

  ghost predicate LowersSome(
      env: Env, descriptors: Descriptors, relation: Relation, source: seq<LegacyRow>, c: Candidate, stored: Row)
  {
    exists k :: 0 <= k < |source| && LowersTo(env, descriptors, relation, source[k], c, stored)
  }

  ghost predicate HoldsRow(
      env: Env, descriptors: Descriptors, relation: Relation, row: LegacyRow, c: Candidate, rows: seq<Row>)
  {
    exists i :: 0 <= i < |rows| && LowersTo(env, descriptors, relation, row, c, rows[i])
  }

  lemma {:induction false} RowMapExists(c: Candidate, rows: seq<Row>) returns (m: map<Key, Value>)
    requires TotalOrder(c.less) && R.Ascends(c.less, rows) && AllDecode(c, rows)
    ensures IsRowMap(c, rows, m)
    decreases |rows|
  {
    hide TotalOrder;
    if |rows| == 0 {
      m := map[];
    } else {
      var k := |rows| - 1;
      var init := rows[..k];
      m := RowMapExists(c, init);
      KeyIsNew(c, rows, k, m);
      var n := m[rows[k].key := c.decode(rows[k].value).value];
      assert n - {rows[k].key} == m;
      RowMapGrows(c, rows, k, n);
      assert rows[..k + 1] == rows;
      m := n;
    }
  }

  /** One relation of an accepted candidate. */
  lemma RelationPreserved(
      env: Env, declared: seq<Relation>, legacy: seq<LegacyTable>, descriptors: Descriptors,
      c: Candidate, payloads: map<Identity, seq<byte>>, i: nat)
    requires Ordered(c) && RowInput(env, declared, legacy).Ok? && i < |declared|
    requires Expectation(RowInput(env, declared, legacy).value, descriptors).Ok?
    requires RelationOk(c, Expectation(RowInput(env, declared, legacy).value, descriptors).value[i], payloads)
    ensures declared[i].id in c.relations
    ensures Holds(env, descriptors, declared[i], Carried(declared, legacy, declared[i].id), c,
                  RelationRows(c, declared[i].id))
  {
    hide RowInput, Expectation, Carried, StoredAs, MapPages.Shaped, R.Ascends, TotalOrder, RelationRows;
    ExpectedRows(env, declared, legacy, descriptors, i);
    var e := Expectation(RowInput(env, declared, legacy).value, descriptors).value[i];
    var source, rows := Carried(declared, legacy, declared[i].id), RelationRows(c, declared[i].id);
    assert Readable(c, declared[i].id);
    var actual := RowMapExists(c, rows);
    forall k | 0 <= k < |source| ensures HoldsRow(env, descriptors, declared[i], source[k], c, rows) {
      assert e.rows[k].key in actual && actual[e.rows[k].key] == e.rows[k].tuple;
      var j :| 0 <= j < |rows| && rows[j].key == e.rows[k].key;
      assert LowersTo(env, descriptors, declared[i], source[k], c, rows[j]);
    }
    forall j | 0 <= j < |rows| ensures LowersSome(env, descriptors, declared[i], source, c, rows[j]) {
      assert rows[j].key in actual;
      var k :| 0 <= k < |e.rows| && e.rows[k].key == rows[j].key;
      assert LowersTo(env, descriptors, declared[i], source[k], c, rows[j]);
    }
  }

  /**
   * Migration preservation. When the gate accepts, every declared relation of the candidate holds
   * exactly the lowered rows of the one legacy source that carries it; every row of every supplied
   * legacy table is there under its own key; every candidate row of a declared relation comes from
   * a supplied table; and the candidate binds no relation but the declared and system ones.
   */
  lemma Preservation(
      env: Env, declared: seq<Relation>, legacy: seq<LegacyTable>, descriptors: Descriptors,
      c: Candidate, payloads: map<Identity, seq<byte>>, isSystem: RelationId -> bool)
    requires Ordered(c) && RowInput(env, declared, legacy).Ok?
    requires Expectation(RowInput(env, declared, legacy).value, descriptors).Ok?
    requires Accepts(c, Expectation(RowInput(env, declared, legacy).value, descriptors).value, payloads, isSystem)
    ensures forall id | id in c.relations :: isSystem(id) || exists i :: 0 <= i < |declared| && declared[i].id == id
    ensures forall i | 0 <= i < |declared| ::
              && declared[i].id in c.relations
              && Holds(env, descriptors, declared[i], Carried(declared, legacy, declared[i].id), c,
                       RelationRows(c, declared[i].id))
    ensures forall t | 0 <= t < |legacy| :: TablePreserved(env, declared, descriptors, legacy[t], c)
    ensures forall i | 0 <= i < |declared| :: NothingInvented(env, declared[i], declared, legacy, descriptors, c)
  {
    hide RowInput, Expectation, Holds, RelationOk, Carried;
    var expected := Expectation(RowInput(env, declared, legacy).value, descriptors).value;
    forall i | 0 <= i < |declared|
      ensures declared[i].id in c.relations && expected[i].id == declared[i].id
      ensures Holds(env, descriptors, declared[i], Carried(declared, legacy, declared[i].id), c,
                    RelationRows(c, declared[i].id))
    {
      ExpectedRows(env, declared, legacy, descriptors, i);
      assert RelationOk(c, expected[i], payloads);
      RelationPreserved(env, declared, legacy, descriptors, c, payloads, i);
    }
    forall id | id in c.relations && !isSystem(id) ensures exists i :: 0 <= i < |declared| && declared[i].id == id {
      var i :| 0 <= i < |expected| && expected[i].id == id;
      assert declared[i].id == id;
    }
    forall t | 0 <= t < |legacy| ensures TablePreserved(env, declared, descriptors, legacy[t], c) {
      SuppliedPreserved(env, declared, legacy, descriptors, c, t);
    }
    forall i | 0 <= i < |declared| ensures NothingInvented(env, declared[i], declared, legacy, descriptors, c) {
      SourceSupplied(env, declared, legacy, descriptors, c, i);
    }
  }

  /** Every row of a table is in the candidate, in the relation the table answers. */
  ghost predicate TablePreserved(
      env: Env, declared: seq<Relation>, descriptors: Descriptors, table: LegacyTable, c: Candidate)
  {
    match Target(declared, table.address)
    case None => false
    case Some(id) =>
      && id in c.relations
      && exists i :: 0 <= i < |declared| && declared[i].id == id
                     && forall k | 0 <= k < |table.rows| ::
                          HoldsRow(env, descriptors, declared[i], table.rows[k], c, RelationRows(c, id))
  }

  /** Every candidate row of a relation is the lowering of a row in a table that answers it. */
  ghost predicate NothingInvented(
      env: Env, relation: Relation, declared: seq<Relation>, legacy: seq<LegacyTable>, descriptors: Descriptors,
      c: Candidate)
  {
    relation.id in c.relations
    && forall j | 0 <= j < |RelationRows(c, relation.id)| ::
         Supplied(env, relation, declared, legacy, descriptors, c, RelationRows(c, relation.id)[j])
  }

  ghost predicate Supplied(
      env: Env, relation: Relation, declared: seq<Relation>, legacy: seq<LegacyTable>, descriptors: Descriptors,
      c: Candidate, stored: Row)
  {
    exists t :: 0 <= t < |legacy| && Answers(declared, legacy[t], relation.id)
                && LowersSome(env, descriptors, relation, legacy[t].rows, c, stored)
  }

  lemma {:induction false} TargetDeclared(declared: seq<Relation>, address: Address)
    requires Target(declared, address).Some?
    ensures exists i :: 0 <= i < |declared| && declared[i].id == Target(declared, address).value
  {
    if declared[0].id == Target(declared, address).value {
    } else {
      TargetDeclared(declared[1..], address);
      var i :| 0 <= i < |declared[1..]| && declared[1..][i].id == Target(declared[1..], address).value;
      assert declared[i + 1].id == declared[1..][i].id;
    }
  }

  /** A declared relation has one chosen source. */
  lemma ChosenForDeclared(env: Env, declared: seq<Relation>, legacy: seq<LegacyTable>, i: nat)
    requires RowInput(env, declared, legacy).Ok? && i < |declared|
    ensures Gather(declared, legacy).Ok?
    ensures SingleSource(SourcesOf(Gather(declared, legacy).value, declared[i].id))
         == Ok(Carried(declared, legacy, declared[i].id))
  {
    hide Gather, LowerRelations, SingleSource, LowerRows;
    LowerRelationsAt(env, Gather(declared, legacy).value, declared, i);
  }

  lemma SuppliedPreserved(
      env: Env, declared: seq<Relation>, legacy: seq<LegacyTable>, descriptors: Descriptors, c: Candidate, t: nat)
    requires RowInput(env, declared, legacy).Ok? && t < |legacy|
    requires forall i | 0 <= i < |declared| ::
              && declared[i].id in c.relations
              && Holds(env, descriptors, declared[i], Carried(declared, legacy, declared[i].id), c,
                       RelationRows(c, declared[i].id))
    ensures TablePreserved(env, declared, descriptors, legacy[t], c)
  {
    hide RowInput, Gather, Carried, HoldsRow, Target, SingleSource;
    assert Gather(declared, legacy).Ok? by { GatherOfInput(env, declared, legacy); }
    GatherHolds(declared, legacy, t);
    TargetDeclared(declared, legacy[t].address);
    var id := Target(declared, legacy[t].address).value;
    var i :| 0 <= i < |declared| && declared[i].id == id;
    ChosenForDeclared(env, declared, legacy, i);
    if |legacy[t].rows| > 0 { ChosenHolds(declared, legacy, t, id); }
  }

  lemma GatherOfInput(env: Env, declared: seq<Relation>, legacy: seq<LegacyTable>)
    requires RowInput(env, declared, legacy).Ok?
    ensures Gather(declared, legacy).Ok?
  {
  }

  lemma SourceSupplied(
      env: Env, declared: seq<Relation>, legacy: seq<LegacyTable>, descriptors: Descriptors, c: Candidate, i: nat)
    requires RowInput(env, declared, legacy).Ok? && i < |declared| && declared[i].id in c.relations
    requires Holds(env, descriptors, declared[i], Carried(declared, legacy, declared[i].id), c,
                   RelationRows(c, declared[i].id))
    ensures NothingInvented(env, declared[i], declared, legacy, descriptors, c)
  {
    hide RowInput, Gather, Carried, HoldsRow, LowersTo, Target, SingleSource, RelationRows;
    ChosenForDeclared(env, declared, legacy, i);
    var id := declared[i].id;
    var source, rows := Carried(declared, legacy, id), RelationRows(c, id);
    forall j | 0 <= j < |rows| ensures Supplied(env, declared[i], declared, legacy, descriptors, c, rows[j]) {
      assert LowersSome(env, descriptors, declared[i], source, c, rows[j]);
      ChosenSupplied(declared, legacy, id);
      var t :| 0 <= t < |legacy| && Answers(declared, legacy[t], id) && legacy[t].rows == source;
    }
  }

  // ----- From the rows as read to the candidate -----

  /** A legacy table as `one_row_per_key` returned it for the rows read: the same rows, in strict key order. */
  ghost predicate ReadAs(raw: seq<LegacyRow>, table: LegacyTable, less: R.Order) {
    multiset(raw) == multiset(table.rows) && LegacyRows.StrictlyOrdered(table.rows, less)
  }

  function LegacyKeys(rows: seq<LegacyRow>): seq<Key> {
    seq(|rows|, i requires 0 <= i < |rows| => rows[i].key)
  }

  function StoredKeys(rows: seq<Row>): seq<Key> {
    seq(|rows|, i requires 0 <= i < |rows| => rows[i].key)
  }

  /** Row for row, in the same order: the candidate relation is the lowered source. */
  ghost predicate IsLowering(
      env: Env, descriptors: Descriptors, relation: Relation, source: seq<LegacyRow>, c: Candidate, rows: seq<Row>)
  {
    |rows| == |source|
    && forall k | 0 <= k < |rows| :: LowersTo(env, descriptors, relation, source[k], c, rows[k])
  }

  lemma LegacyKeyHeld(
      env: Env, descriptors: Descriptors, relation: Relation, source: seq<LegacyRow>, c: Candidate, rows: seq<Row>,
      k: nat) returns (i: nat)
    requires Holds(env, descriptors, relation, source, c, rows) && k < |source|
    ensures i < |rows| && rows[i].key == source[k].key
  {
    hide StoredAs;
    assert HoldsRow(env, descriptors, relation, source[k], c, rows);
    i :| i < |rows| && LowersTo(env, descriptors, relation, source[k], c, rows[i]);
  }

  lemma StoredKeyHeld(
      env: Env, descriptors: Descriptors, relation: Relation, source: seq<LegacyRow>, c: Candidate, rows: seq<Row>,
      i: nat) returns (k: nat)
    requires Holds(env, descriptors, relation, source, c, rows) && i < |rows|
    ensures k < |source| && source[k].key == rows[i].key
  {
    hide StoredAs;
    assert LowersSome(env, descriptors, relation, source, c, rows[i]);
    k :| k < |source| && LowersTo(env, descriptors, relation, source[k], c, rows[i]);
  }

  lemma KeysHeld(
      env: Env, descriptors: Descriptors, relation: Relation, source: seq<LegacyRow>, c: Candidate, rows: seq<Row>)
    requires Holds(env, descriptors, relation, source, c, rows)
    ensures forall key :: key in LegacyKeys(source) <==> key in StoredKeys(rows)
  {
    hide Holds;
    var a, b := LegacyKeys(source), StoredKeys(rows);
    forall key | key in a ensures key in b {
      var k: nat :| k < |a| && a[k] == key;
      var i := LegacyKeyHeld(env, descriptors, relation, source, c, rows, k);
      assert b[i] == key;
    }
    forall key | key in b ensures key in a {
      var i: nat :| i < |b| && b[i] == key;
      var k := StoredKeyHeld(env, descriptors, relation, source, c, rows, i);
      assert a[k] == key;
    }
  }

  /** With keys in strict order on both sides, holding exactly the lowered rows means position by position. */
  lemma OneForOne(
      env: Env, descriptors: Descriptors, relation: Relation, source: seq<LegacyRow>, c: Candidate, rows: seq<Row>)
    requires Holds(env, descriptors, relation, source, c, rows)
    requires TotalOrder(c.less) && R.Ascends(c.less, rows) && LegacyRows.StrictlyOrdered(source, c.less)
    ensures IsLowering(env, descriptors, relation, source, c, rows)
  {
    var a, b := LegacyKeys(source), StoredKeys(rows);
    assert Rising(a, c.less) && Rising(b, c.less);
    hide TotalOrder, StoredAs, Holds, LowersTo, Rising, R.Ascends, LegacyRows.StrictlyOrdered;
    KeysHeld(env, descriptors, relation, source, c, rows);
    RisingUnique(a, b, c.less);
    assert |a| == |source| && |b| == |rows|;
    forall k | 0 <= k < |rows| ensures LowersTo(env, descriptors, relation, source[k], c, rows[k]) {
      SamePosition(env, descriptors, relation, source, c, rows, k);
    }
  }

  lemma SamePosition(
      env: Env, descriptors: Descriptors, relation: Relation, source: seq<LegacyRow>, c: Candidate, rows: seq<Row>,
      k: nat)
    requires Holds(env, descriptors, relation, source, c, rows) && k < |rows| == |source|
    requires TotalOrder(c.less) && R.Ascends(c.less, rows) && LegacyKeys(source) == StoredKeys(rows)
    ensures LowersTo(env, descriptors, relation, source[k], c, rows[k])
  {
    assert LegacyKeys(source)[k] == StoredKeys(rows)[k];
    assert HoldsRow(env, descriptors, relation, source[k], c, rows);
    hide StoredAs;
    KeysDiffer(c.less, rows);
    var i :| 0 <= i < |rows| && LowersTo(env, descriptors, relation, source[k], c, rows[i]);
  }

  lemma KeysDiffer(less: R.Order, rows: seq<Row>)
    requires TotalOrder(less) && R.Ascends(less, rows)
    ensures forall i, k | 0 <= i < |rows| && 0 <= k < |rows| && rows[i].key == rows[k].key :: i == k
  {
    forall i, k | 0 <= i < k < |rows| ensures rows[i].key != rows[k].key {
      assert less(rows[i].key, rows[k].key);
    }
  }

  lemma CarriedOrdered(env: Env, declared: seq<Relation>, legacy: seq<LegacyTable>, less: R.Order, i: nat)
    requires RowInput(env, declared, legacy).Ok? && i < |declared|
    requires forall t | 0 <= t < |legacy| :: LegacyRows.StrictlyOrdered(legacy[t].rows, less)
    ensures LegacyRows.StrictlyOrdered(Carried(declared, legacy, declared[i].id), less)
  {
    hide RowInput, Gather, Carried, SingleSource, Target;
    ChosenForDeclared(env, declared, legacy, i);
    if |Carried(declared, legacy, declared[i].id)| > 0 { ChosenSupplied(declared, legacy, declared[i].id); }
  }

  /**
   * Migration preservation from the rows as they were read: each table passed `one_row_per_key`, and
   * the gate accepts. Then every declared relation is, row for row and in order, the lowering of its
   * carrying source, and every row read from every table is in the candidate.
   */
  lemma SnapshotPreserved(
      env: Env, declared: seq<Relation>, legacy: seq<LegacyTable>, raw: seq<seq<LegacyRow>>, descriptors: Descriptors,
      c: Candidate, payloads: map<Identity, seq<byte>>, isSystem: RelationId -> bool)
    requires Ordered(c) && RowInput(env, declared, legacy).Ok?
    requires Expectation(RowInput(env, declared, legacy).value, descriptors).Ok?
    requires Accepts(c, Expectation(RowInput(env, declared, legacy).value, descriptors).value, payloads, isSystem)
    requires |raw| == |legacy| && forall t | 0 <= t < |raw| :: ReadAs(raw[t], legacy[t], c.less)
    ensures forall i | 0 <= i < |declared| ::
              && declared[i].id in c.relations
              && IsLowering(env, descriptors, declared[i], Carried(declared, legacy, declared[i].id), c,
                            RelationRows(c, declared[i].id))
    ensures forall t | 0 <= t < |raw| :: TablePreserved(env, declared, descriptors, legacy[t].(rows := raw[t]), c)
  {
    hide RowInput, Expectation, Holds, Accepts, Carried, RelationRows, MapPages.Shaped, TotalOrder, R.Ascends;
    hide LegacyRows.StrictlyOrdered, IsLowering, TablePreserved, NothingInvented;
    Preservation(env, declared, legacy, descriptors, c, payloads, isSystem);
    forall i | 0 <= i < |declared|
      ensures IsLowering(env, descriptors, declared[i], Carried(declared, legacy, declared[i].id), c,
                         RelationRows(c, declared[i].id))
    {
      assert Readable(c, declared[i].id);
      CarriedOrdered(env, declared, legacy, c.less, i);
      OneForOne(env, descriptors, declared[i], Carried(declared, legacy, declared[i].id), c,
                RelationRows(c, declared[i].id));
    }
    forall t | 0 <= t < |raw| ensures TablePreserved(env, declared, descriptors, legacy[t].(rows := raw[t]), c) {
      assert ReadAs(raw[t], legacy[t], c.less);
      RawPreserved(env, declared, descriptors, legacy[t], raw[t], c);
    }
  }

  lemma RawPreserved(
      env: Env, declared: seq<Relation>, descriptors: Descriptors, table: LegacyTable, raw: seq<LegacyRow>,
      c: Candidate)
    requires TablePreserved(env, declared, descriptors, table, c) && multiset(raw) == multiset(table.rows)
    ensures TablePreserved(env, declared, descriptors, table.(rows := raw), c)
  {
    hide HoldsRow, Target;
    var id := Target(declared, table.address).value;
    var i :| 0 <= i < |declared| && declared[i].id == id
             && forall k | 0 <= k < |table.rows| ::
                  HoldsRow(env, descriptors, declared[i], table.rows[k], c, RelationRows(c, id));
    forall k | 0 <= k < |raw| ensures HoldsRow(env, descriptors, declared[i], raw[k], c, RelationRows(c, id)) {
      MemberByMultiset(raw, table.rows, raw[k]);
    }
  }

  // ----- Blob content -----

  lemma {:induction false} BlobListedInFields(key: Key, fields: seq<StoredField>, descriptors: Descriptors, k: nat)
    requires CompleteFields(fields, descriptors).Ok? && k < |fields| && fields[k].Pending?
    ensures fields[k].identity in descriptors
    ensures ExpectedBlob(key, fields[k].identity, descriptors[fields[k].identity])
         in BlobsOfFields(key, fields, descriptors)
    decreases |fields|
  {
    hide BlobTuple, Replace;
    if k < |fields| - 1 {
      BlobListedInFields(key, fields[..|fields| - 1], descriptors, k);
      assert fields[..|fields| - 1][k] == fields[k];
    }
  }

  lemma {:induction false} BlobListed(rows: seq<MigrationRow>, descriptors: Descriptors, j: nat, k: nat)
    requires StoredRows(rows, descriptors).Ok? && j < |rows| && k < |rows[j].fields| && rows[j].fields[k].Pending?
    ensures rows[j].fields[k].identity in descriptors
    ensures ExpectedBlob(rows[j].key, rows[j].fields[k].identity, descriptors[rows[j].fields[k].identity])
         in BlobsOfRows(rows, descriptors)
    decreases |rows|
  {
    hide CompleteFields, BlobsOfFields;
    if j < |rows| - 1 {
      BlobListed(rows[..|rows| - 1], descriptors, j, k);
      assert rows[..|rows| - 1][j] == rows[j];
    } else {
      BlobListedInFields(rows[j].key, rows[j].fields, descriptors, k);
    }
  }

  /**
   * Every Blob of every migrated row resolves, in an accepted candidate, to content of the same
   * identity, and its bytes hash to that identity.
   */
  lemma BlobPreserved(
      env: Env, input: seq<MigrationRelation>, descriptors: Descriptors,
      c: Candidate, payloads: map<Identity, seq<byte>>, isSystem: RelationId -> bool, i: nat, j: nat, k: nat)
    requires Ordered(c) && Expectation(input, descriptors).Ok? && PayloadsCover(env, input, payloads)
    requires Accepts(c, Expectation(input, descriptors).value, payloads, isSystem)
    requires i < |input| && j < |input[i].rows| && k < |input[i].rows[j].fields| && input[i].rows[j].fields[k].Pending?
    ensures var identity := input[i].rows[j].fields[k].identity;
            && identity in descriptors && descriptors[identity] in c.blobs
            && c.blobs[descriptors[identity]].identity == identity
            && (identity.length > 0 ==> IdentityOf(env, c.blobs[descriptors[identity]].bytes) == identity)
  {
    hide Expectation, StoredRows, BlobsOfRows, SameRows, AllDecode;
    hide IsRowMap, MapPages.Shaped, R.Ascends, TotalOrder, RelationRows;
    var identity := input[i].rows[j].fields[k].identity;
    ExpectationAt(input, descriptors, i);
    var e := Expectation(input, descriptors).value[i];
    BlobListed(input[i].rows, descriptors, j, k);
    assert RelationOk(c, e, payloads);
    assert Readable(c, e.id);
    var actual := RowMapExists(c, RelationRows(c, e.id));
    var b := ExpectedBlob(input[i].rows[j].key, identity, descriptors[identity]);
    var n :| 0 <= n < |e.blobs| && e.blobs[n] == b;
    assert BlobOk(c, e.blobs[n], actual, payloads);
  }
}
