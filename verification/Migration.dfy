/**
 The format-1/2 to format-3 row migration (`migration_rows.rs`, `legacy_store.rs`): legacy tables
 are mapped to declared relations, one source is chosen for each, and its rows are lowered.
 */
module Migration {
  import opened Prelude
  import opened Cbor
  import opened BlobCompletion
  import LegacyRows

  type RelationId = seq<byte>

  /** A typed row key. */
  type Key = Value

  datatype FieldName = Declared(name: string) | ObjectId(id: seq<byte>)

  datatype LegacyField = LegacyField(name: FieldName, value: Value)

  type LegacyRow = LegacyRows.Row<Key, seq<LegacyField>>

  datatype Address = Relation(id: RelationId) | TablePath(path: string)

  datatype LegacyTable = LegacyTable(address: Address, rows: seq<LegacyRow>)

  datatype SchemaField = SchemaField(id: seq<byte>, name: string, role: nat, isBlob: bool)

  /** One declared relation: its source name, whether its key is automatic, and its stored fields. */
  datatype Relation = DeclaredRelation(
    id: RelationId, tableName: Option<string>, automaticKey: bool, schema: Result<seq<SchemaField>>)

  /**
   * What the mapping takes from elsewhere: the schema's own lowering of one field value, the
   * content hash, the format-2 Blob reader when the snapshot is format 2, and the text of a
   * format-2 storage record.
   */
  datatype Env = Env(
    lowerField: (SchemaField, Value) -> Result<Value>,
    sha256: seq<byte> -> seq<byte>,
    format2: Option<seq<byte> -> Result<seq<byte>>>,
    recordText: (seq<byte>, int) -> seq<byte>)

  // ----- Which relation a legacy table answers -----

  function FirstWithId(declared: seq<Relation>, id: RelationId): Option<RelationId> {
    if |declared| == 0 then None
    else if declared[0].id == id then Some(id)
    else FirstWithId(declared[1..], id)
  }

  function FirstNamed(declared: seq<Relation>, path: string): Option<RelationId> {
    if |declared| == 0 then None
    else if declared[0].tableName == Some(path) then Some(declared[0].id)
    else FirstNamed(declared[1..], path)
  }

  function Target(declared: seq<Relation>, address: Address): Option<RelationId> {
    match address
    case Relation(id) => FirstWithId(declared, id)
    case TablePath(path) => FirstNamed(declared, path)
  }

  datatype Sources = Sources(compact: Option<seq<LegacyRow>>, loose: Option<seq<LegacyRow>>)

  function SlotOf(s: Sources, address: Address): Option<seq<LegacyRow>> {
    if address.Relation? then s.compact else s.loose
  }

  function WithSlot(s: Sources, address: Address, rows: seq<LegacyRow>): Sources {
    if address.Relation? then s.(compact := Some(rows)) else s.(loose := Some(rows))
  }

  function SourcesOf(all: map<RelationId, Sources>, id: RelationId): Sources {
    if id in all then all[id] else Sources(None, None)
  }

  function Place(all: map<RelationId, Sources>, declared: seq<Relation>, table: LegacyTable)
    : Result<map<RelationId, Sources>>
  {
    match Target(declared, table.address)
    case None => Err
    case Some(id) =>
      var slot := SourcesOf(all, id);
      if SlotOf(slot, table.address).Some? then Err
      else Ok(all[id := WithSlot(slot, table.address, table.rows)])
  }

  function Gather(declared: seq<Relation>, legacy: seq<LegacyTable>): Result<map<RelationId, Sources>> {
    if |legacy| == 0 then Ok(map[])
    else
      var all :- Gather(declared, legacy[..|legacy| - 1]);
      Place(all, declared, legacy[|legacy| - 1])
  }

  // ----- single_legacy_source -----

  function CarriedBy(source: Option<seq<LegacyRow>>): Option<seq<LegacyRow>> {
    if source.Some? && |source.value| > 0 then source else None
  }

  /** The one source with rows; two of them conflict, none means no rows. */
  function SingleSource(s: Sources): Result<seq<LegacyRow>> {
    match (CarriedBy(s.compact), CarriedBy(s.loose))
    case (Some(_), Some(_)) => Err
    case (Some(rows), None) => Ok(rows)
    case (None, Some(rows)) => Ok(rows)
    case (None, None) => Ok([])
  }

  // ----- Lowering one row -----

  function FieldNamed(schema: seq<SchemaField>, name: string): Option<SchemaField> {
    if |schema| == 0 then None else if schema[0].name == name then Some(schema[0]) else FieldNamed(schema[1..], name)
  }

  function FieldWithId(schema: seq<SchemaField>, id: seq<byte>): Option<SchemaField> {
    if |schema| == 0 then None else if schema[0].id == id then Some(schema[0]) else FieldWithId(schema[1..], id)
  }

  /** The schema name of a legacy field, if the schema holds it. */
  function ResolveName(schema: seq<SchemaField>, name: FieldName): Option<string> {
    match name
    case Declared(n) => if FieldNamed(schema, n).Some? then Some(n) else None
    case ObjectId(id) =>
      match FieldWithId(schema, id)
      case None => None
      case Some(f) => if FieldNamed(schema, f.name).Some? then Some(f.name) else None
  }

  /** The row's values by schema field name; an unknown or repeated field is refused. */
  function CollectFields(schema: seq<SchemaField>, fields: seq<LegacyField>): Result<map<string, Value>> {
    if |fields| == 0 then Ok(map[])
    else
      var values :- CollectFields(schema, fields[..|fields| - 1]);
      var last := fields[|fields| - 1];
      match ResolveName(schema, last.name)
      case None => Err
      case Some(name) => if name in values then Err else Ok(values[name := last.value])
  }

  datatype StoredField = Plain(raw: Value) | Pending(identity: Identity, lowered: Value)

  function IdentityOf(env: Env, bytes: seq<byte>): Identity { Identity(|bytes|, env.sha256(bytes)) }

  const BLOB_NAME: seq<byte> := [98, 108, 111, 98]
  const LENGTH_NAME: seq<byte> := [108, 101, 110, 103, 116, 104]

  /** orr2_slot_text: the inline text, or the text of a storage record in its canonical order. */
  function SlotText(env: Env, value: Value): Option<seq<byte>> {
    match value
    case Text(t) => Some(t)
    case Map(entries) =>
      if |entries| == 2
         && entries[0].key == Text(BLOB_NAME) && entries[0].value.Text?
         && entries[1].key == Text(LENGTH_NAME) && entries[1].value.Int?
      then Some(env.recordText(entries[0].value.utf8, entries[1].value.i))
      else None
    case _ => None
  }

  /** The bytes a Blob slot holds; None when the value is lowered as an ordinary one. */
  function BlobBytes(env: Env, field: SchemaField, value: Value): Result<Option<seq<byte>>> {
    if !field.isBlob then Ok(None)
    else if value.Bytes? then
      if env.format2.Some? then Err else Ok(Some(value.data))
    else if env.format2.Some? then
      match SlotText(env, value)
      case None => Ok(None)
      case Some(text) =>
        var bytes :- env.format2.value(text);
        Ok(Some(bytes))
    else Ok(None)
  }

  function LowerField(env: Env, field: SchemaField, value: Value): Result<StoredField> {
    var bytes :- BlobBytes(env, field, value);
    match bytes
    case Some(b) =>
      var identity := IdentityOf(env, b);
      var lowered :- env.lowerField(field, BlobTuple(identity, []));
      Ok(Pending(identity, lowered))
    case None =>
      var raw :- env.lowerField(field, value);
      Ok(Plain(raw))
  }

  /** The stored (role 1) fields in descriptor order; every one needs a value. */
  function LowerFields(env: Env, schema: seq<SchemaField>, values: map<string, Value>): Result<seq<StoredField>> {
    if |schema| == 0 then Ok([])
    else
      var done :- LowerFields(env, schema[..|schema| - 1], values);
      var field := schema[|schema| - 1];
      if field.role != 1 then Ok(done)
      else if field.name !in values then Err
      else
        var stored :- LowerField(env, field, values[field.name]);
        Ok(done + [stored])
  }

  function LowerRow(env: Env, schema: seq<SchemaField>, row: LegacyRow): Result<seq<StoredField>> {
    var values :- CollectFields(schema, row.fields);
    LowerFields(env, schema, values)
  }

  datatype MigrationRow = MigrationRow(key: Key, fields: seq<StoredField>)

  function LowerRows(env: Env, schema: seq<SchemaField>, rows: seq<LegacyRow>): (r: Result<seq<MigrationRow>>)
    ensures r.Ok? ==> |r.value| == |rows|
  {
    if |rows| == 0 then Ok([])
    else
      var done :- LowerRows(env, schema, rows[..|rows| - 1]);
      var fields :- LowerRow(env, schema, rows[|rows| - 1]);
      Ok(done + [MigrationRow(rows[|rows| - 1].key, fields)])
  }

  // ----- Every declared relation -----

  datatype MigrationRelation = MigrationRelation(relation: Relation, rows: seq<MigrationRow>)

  function LowerRelation(env: Env, all: map<RelationId, Sources>, relation: Relation): Result<MigrationRelation> {
    if relation.automaticKey || relation.id !in all then Err
    else
      var chosen :- SingleSource(all[relation.id]);
      if |chosen| == 0 then Ok(MigrationRelation(relation, []))
      else
        var schema :- relation.schema;
        var rows :- LowerRows(env, schema, chosen);
        Ok(MigrationRelation(relation, rows))
  }

  function LowerRelations(env: Env, all: map<RelationId, Sources>, declared: seq<Relation>)
    : (r: Result<seq<MigrationRelation>>)
    ensures r.Ok? ==> |r.value| == |declared|
  {
    if |declared| == 0 then Ok([])
    else
      var done :- LowerRelations(env, all, declared[..|declared| - 1]);
      var last :- LowerRelation(env, all, declared[|declared| - 1]);
      Ok(done + [last])
  }

  /** migration_row_input without the Blob payloads it collects on the way. */
  function RowInput(env: Env, declared: seq<Relation>, legacy: seq<LegacyTable>): (r: Result<seq<MigrationRelation>>)
    ensures r.Ok? ==> |r.value| == |declared|
  {
    var all :- Gather(declared, legacy);
    LowerRelations(env, all, declared)
  }

  // ----- Completion with written descriptors -----

  type Descriptors = map<Identity, seq<byte>>

  function CompleteField(field: StoredField, descriptors: Descriptors): Result<Value> {
    match field
    case Plain(raw) => Ok(raw)
    case Pending(identity, lowered) =>
      if identity !in descriptors then Err
      else Ok(Replace(lowered, BlobTuple(identity, []), BlobTuple(identity, descriptors[identity])))
  }

  function CompleteFields(fields: seq<StoredField>, descriptors: Descriptors): Result<seq<Value>> {
    if |fields| == 0 then Ok([])
    else
      var done :- CompleteFields(fields[..|fields| - 1], descriptors);
      var last :- CompleteField(fields[|fields| - 1], descriptors);
      Ok(done + [last])
  }

  /** The stored tuple of a lowered row. */
  function StoredTuple(fields: seq<StoredField>, descriptors: Descriptors): Result<Value> {
    var values :- CompleteFields(fields, descriptors);
    Ok(Array(values))
  }

  datatype ExpectedBlob = ExpectedBlob(row: Key, identity: Identity, descriptor: seq<byte>)

  datatype StoredRow = StoredRow(key: Key, tuple: Value)

  datatype ExpectedRelation = ExpectedRelation(id: RelationId, rows: seq<StoredRow>, blobs: seq<ExpectedBlob>)

  function StoredRows(rows: seq<MigrationRow>, descriptors: Descriptors): (r: Result<seq<StoredRow>>)
    ensures r.Ok? ==> |r.value| == |rows|
  {
    if |rows| == 0 then Ok([])
    else
      var done :- StoredRows(rows[..|rows| - 1], descriptors);
      var last := rows[|rows| - 1];
      var tuple :- StoredTuple(last.fields, descriptors);
      Ok(done + [StoredRow(last.key, tuple)])
  }

  /** The Blob references of the rows, in order; only for rows whose descriptors are all written. */
  function BlobsOfFields(key: Key, fields: seq<StoredField>, descriptors: Descriptors): seq<ExpectedBlob> {
    if |fields| == 0 then []
    else
      var done := BlobsOfFields(key, fields[..|fields| - 1], descriptors);
      var last := fields[|fields| - 1];
      if last.Pending? && last.identity in descriptors
      then done + [ExpectedBlob(key, last.identity, descriptors[last.identity])] else done
  }

  function BlobsOfRows(rows: seq<MigrationRow>, descriptors: Descriptors): seq<ExpectedBlob> {
    if |rows| == 0 then []
    else
      var last := rows[|rows| - 1];
      BlobsOfRows(rows[..|rows| - 1], descriptors) + BlobsOfFields(last.key, last.fields, descriptors)
  }

  function ExpectRelation(m: MigrationRelation, descriptors: Descriptors): Result<ExpectedRelation> {
    var stored :- StoredRows(m.rows, descriptors);
    Ok(ExpectedRelation(m.relation.id, stored, BlobsOfRows(m.rows, descriptors)))
  }

  function Expectation(input: seq<MigrationRelation>, descriptors: Descriptors): (r: Result<seq<ExpectedRelation>>)
    ensures r.Ok? ==> |r.value| == |input|
  {
    if |input| == 0 then Ok([])
    else
      var done :- Expectation(input[..|input| - 1], descriptors);
      var last :- ExpectRelation(input[|input| - 1], descriptors);
      Ok(done + [last])
  }

  // ----- The annotation defaults and the expected Blobs -----

  function PendingCount(fields: seq<StoredField>): nat {
    if |fields| == 0 then 0
    else PendingCount(fields[..|fields| - 1]) + if fields[|fields| - 1].Pending? then 1 else 0
  }

  function PendingInRows(rows: seq<MigrationRow>): nat {
    if |rows| == 0 then 0 else PendingInRows(rows[..|rows| - 1]) + PendingCount(rows[|rows| - 1].fields)
  }

  /** annotation_default_count */
  function AnnotationDefaults(input: seq<MigrationRelation>): nat {
    if |input| == 0 then 0 else AnnotationDefaults(input[..|input| - 1]) + PendingInRows(input[|input| - 1].rows)
  }

  function BlobTotal(expected: seq<ExpectedRelation>): nat {
    if |expected| == 0 then 0 else BlobTotal(expected[..|expected| - 1]) + |expected[|expected| - 1].blobs|
  }

  lemma {:induction false} BlobsPerField(key: Key, fields: seq<StoredField>, descriptors: Descriptors)
    requires CompleteFields(fields, descriptors).Ok?
    ensures |BlobsOfFields(key, fields, descriptors)| == PendingCount(fields)
  {
    hide BlobTuple, Replace;
    if |fields| > 0 { BlobsPerField(key, fields[..|fields| - 1], descriptors); }
  }

  lemma {:induction false} BlobsPerRow(rows: seq<MigrationRow>, descriptors: Descriptors)
    requires StoredRows(rows, descriptors).Ok?
    ensures |BlobsOfRows(rows, descriptors)| == PendingInRows(rows)
  {
    hide CompleteFields, BlobsOfFields, PendingCount;
    if |rows| > 0 {
      BlobsPerRow(rows[..|rows| - 1], descriptors);
      var last := rows[|rows| - 1];
      BlobsPerField(last.key, last.fields, descriptors);
    }
  }

  /** The gate is handed one expected Blob for each annotation default the migration reports. */
  lemma {:induction false} OneBlobPerDefault(input: seq<MigrationRelation>, descriptors: Descriptors)
    requires Expectation(input, descriptors).Ok?
    ensures BlobTotal(Expectation(input, descriptors).value) == AnnotationDefaults(input)
  {
    hide StoredRows, BlobsOfRows, PendingInRows;
    if |input| > 0 {
      var init, last := input[..|input| - 1], input[|input| - 1];
      OneBlobPerDefault(init, descriptors);
      BlobsPerRow(last.rows, descriptors);
      var expected := Expectation(input, descriptors).value;
      assert expected[..|expected| - 1] == Expectation(init, descriptors).value;
    }
  }

  // ----- Which relation a table answers, and which tables are refused -----

  /** The relation with the identifier, or the first declared under the table's name. */
  ghost predicate IsTarget(declared: seq<Relation>, address: Address, id: RelationId) {
    match address
    case Relation(r) => id == r && exists i | 0 <= i < |declared| :: declared[i].id == r
    case TablePath(path) => exists i | 0 <= i < |declared| :: FirstUnder(declared, path, i) && declared[i].id == id
  }

  ghost predicate FirstUnder(declared: seq<Relation>, path: string, i: nat)
    requires i < |declared|
  {
    declared[i].tableName == Some(path) && forall j | 0 <= j < i :: declared[j].tableName != Some(path)
  }

  lemma {:induction false} FirstWithIdExact(declared: seq<Relation>, id: RelationId)
    ensures FirstWithId(declared, id) ==
      if exists i | 0 <= i < |declared| :: declared[i].id == id then Some(id) else None
  {
    if |declared| > 0 {
      FirstWithIdExact(declared[1..], id);
      if i :| 0 <= i < |declared[1..]| && declared[1..][i].id == id { assert declared[i + 1].id == id; }
      if i :| 0 <= i < |declared| && declared[i].id == id { if i > 0 { assert declared[1..][i - 1].id == id; } }
    }
  }

  lemma {:induction false} FirstNamedExact(declared: seq<Relation>, path: string) returns (i: nat)
    ensures FirstNamed(declared, path).None? ==> forall j | 0 <= j < |declared| :: declared[j].tableName != Some(path)
    ensures FirstNamed(declared, path).Some? ==>
      i < |declared| && FirstUnder(declared, path, i) && FirstNamed(declared, path) == Some(declared[i].id)
  {
    i := 0;
    if |declared| > 0 && declared[0].tableName != Some(path) {
      var k := FirstNamedExact(declared[1..], path);
      assert forall j | 0 < j < |declared| :: declared[j] == declared[1..][j - 1];
      i := k + 1;
    }
  }

  lemma TargetExact(declared: seq<Relation>, address: Address, id: RelationId)
    ensures Target(declared, address) == Some(id) <==> IsTarget(declared, address, id)
  {
    match address {
      case Relation(r) => FirstWithIdExact(declared, r);
      case TablePath(path) => var i := FirstNamedExact(declared, path);
    }
  }

  /** Two tables that claim one slot: the same relation, by the same kind of address. */
  predicate Collide(declared: seq<Relation>, a: LegacyTable, b: LegacyTable) {
    && a.address.Relation? == b.address.Relation?
    && Target(declared, a.address).Some? && Target(declared, a.address) == Target(declared, b.address)
  }

  /** The mapping refuses exactly a table no relation answers and two tables for one slot. */
  lemma {:induction false} GatherExact(declared: seq<Relation>, legacy: seq<LegacyTable>)
    ensures Gather(declared, legacy).Ok? <==>
      && (forall t | 0 <= t < |legacy| :: Target(declared, legacy[t].address).Some?)
      && (forall t, u | 0 <= t < u < |legacy| :: !Collide(declared, legacy[t], legacy[u]))
    decreases |legacy|
  {
    hide Target;
    if |legacy| > 0 {
      var k := |legacy| - 1;
      var init := legacy[..k];
      GatherExact(declared, init);
      assert forall t | 0 <= t < k :: init[t] == legacy[t];
      if Gather(declared, init).Ok? && Target(declared, legacy[k].address).Some? { LastPlaced(declared, legacy); }
    }
  }

  lemma LastPlaced(declared: seq<Relation>, legacy: seq<LegacyTable>)
    requires |legacy| > 0
    requires var k := |legacy| - 1; Gather(declared, legacy[..k]).Ok? && Target(declared, legacy[k].address).Some?
    ensures Gather(declared, legacy).Ok? <==>
      forall t | 0 <= t < |legacy| - 1 :: !Collide(declared, legacy[t], legacy[|legacy| - 1])
  {
    hide Target;
    var k := |legacy| - 1;
    var init, last := legacy[..k], legacy[k];
    var id := Target(declared, last.address).value;
    if SlotOf(SourcesOf(Gather(declared, init).value, id), last.address).Some? {
      GatherSource(declared, init, id, last.address);
      var t :| 0 <= t < |init| && Answers(declared, init[t], id) && init[t].address.Relation? == last.address.Relation?;
      assert legacy[t] == init[t] && Collide(declared, legacy[t], last);
    } else {
      forall t | 0 <= t < k ensures !Collide(declared, legacy[t], last) {
        GatherHolds(declared, init, t);
        assert init[t] == legacy[t];
      }
    }
  }

  /** A relation is mapped exactly so: its single source's rows, each lowered, under their own keys. */
  lemma LowerRelationExact(env: Env, all: map<RelationId, Sources>, relation: Relation, m: MigrationRelation)
    ensures LowerRelation(env, all, relation) == Ok(m) <==>
      && !relation.automaticKey && relation.id in all && SingleSource(all[relation.id]).Ok? && m.relation == relation
      && RowsLowered(env, relation, SingleSource(all[relation.id]).value, m.rows)
  {
    hide LowerRows, RowLowered;
    if relation.id in all && SingleSource(all[relation.id]).Ok? && relation.schema.Ok? {
      var rows := SingleSource(all[relation.id]).value;
      LowerRowsExact(env, relation.schema.value, rows, m.rows);
    }
  }

  ghost predicate RowsLowered(env: Env, relation: Relation, source: seq<LegacyRow>, rows: seq<MigrationRow>) {
    && |rows| == |source|
    && (|source| > 0 ==> relation.schema.Ok?)
    && forall k | 0 <= k < |rows| ::
         rows[k].key == source[k].key && RowLowered(env, relation.schema.value, source[k], rows[k].fields)
  }

  lemma {:induction false} LowerRowsExact(
      env: Env, schema: seq<SchemaField>, source: seq<LegacyRow>, rows: seq<MigrationRow>)
    ensures LowerRows(env, schema, source) == Ok(rows) <==>
      |rows| == |source|
      && forall k | 0 <= k < |rows| ::
           rows[k].key == source[k].key && RowLowered(env, schema, source[k], rows[k].fields)
    decreases |source|
  {
    hide LowerRow, RowLowered;
    if |source| > 0 && |rows| > 0 {
      var k := |source| - 1;
      LowerRowsExact(env, schema, source[..k], rows[..|rows| - 1]);
      LowerRowExact(env, schema, source[k], rows[|rows| - 1].fields);
      assert rows == rows[..|rows| - 1] + [rows[|rows| - 1]];
      if |rows| == |source| {
        assert forall j | 0 <= j < k :: source[..k][j] == source[j] && rows[..k][j] == rows[j];
      }
    }
  }

  // ----- What the gathered sources say about the legacy tables -----

  /** The rows of every table that answers a relation and has rows. */
  ghost predicate Answers(declared: seq<Relation>, table: LegacyTable, id: RelationId) {
    Target(declared, table.address) == Some(id)
  }

  lemma {:induction false} GatherHolds(declared: seq<Relation>, legacy: seq<LegacyTable>, i: nat)
    requires Gather(declared, legacy).Ok? && i < |legacy|
    ensures Target(declared, legacy[i].address).Some?
    ensures var all, id := Gather(declared, legacy).value, Target(declared, legacy[i].address).value;
            id in all && SlotOf(all[id], legacy[i].address) == Some(legacy[i].rows)
    decreases |legacy|
  {
    hide Target;
    if i < |legacy| - 1 {
      GatherHolds(declared, legacy[..|legacy| - 1], i);
      assert legacy[..|legacy| - 1][i] == legacy[i];
    }
  }

  /** Each filled slot comes from exactly the table that filled it. */
  lemma {:induction false} GatherSource(declared: seq<Relation>, legacy: seq<LegacyTable>, id: RelationId, a: Address)
    requires Gather(declared, legacy).Ok? && SlotOf(SourcesOf(Gather(declared, legacy).value, id), a).Some?
    ensures exists i :: 0 <= i < |legacy| && Answers(declared, legacy[i], id)
                        && legacy[i].address.Relation? == a.Relation?
                        && SlotOf(SourcesOf(Gather(declared, legacy).value, id), a) == Some(legacy[i].rows)
    decreases |legacy|
  {
    hide Target;
    if |legacy| > 0 {
      var init, last := legacy[..|legacy| - 1], legacy[|legacy| - 1];
      var before := Gather(declared, init).value;
      if SlotOf(SourcesOf(before, id), a).Some? {
        GatherSource(declared, init, id, a);
        var i :| 0 <= i < |init| && Answers(declared, init[i], id)
                 && init[i].address.Relation? == a.Relation?
                 && SlotOf(SourcesOf(before, id), a) == Some(init[i].rows);
        assert legacy[i] == init[i];
      } else {
        assert Answers(declared, last, id) && legacy[|legacy| - 1] == last;
      }
    }
  }

  /** Every row of a supplied table is a row of the source chosen for its relation. */
  lemma ChosenHolds(declared: seq<Relation>, legacy: seq<LegacyTable>, i: nat, id: RelationId)
    requires Gather(declared, legacy).Ok? && i < |legacy| && Answers(declared, legacy[i], id) && |legacy[i].rows| > 0
    requires SingleSource(SourcesOf(Gather(declared, legacy).value, id)).Ok?
    ensures SingleSource(SourcesOf(Gather(declared, legacy).value, id)).value == legacy[i].rows
  {
    hide Gather, Target;
    GatherHolds(declared, legacy, i);
  }

  /** The chosen source, when it has rows, is one of the supplied tables. */
  lemma ChosenSupplied(declared: seq<Relation>, legacy: seq<LegacyTable>, id: RelationId)
    requires Gather(declared, legacy).Ok?
    requires var s := SingleSource(SourcesOf(Gather(declared, legacy).value, id)); s.Ok? && |s.value| > 0
    ensures exists i :: 0 <= i < |legacy| && Answers(declared, legacy[i], id)
                        && legacy[i].rows == SingleSource(SourcesOf(Gather(declared, legacy).value, id)).value
  {
    hide Gather, Target;
    var s := SourcesOf(Gather(declared, legacy).value, id);
    var a := if CarriedBy(s.compact).Some? then Address.Relation(id) else TablePath("");
    GatherSource(declared, legacy, id, a);
  }

  // ----- Indexing the row functions -----

  lemma {:induction false} LowerRowsAt(env: Env, schema: seq<SchemaField>, rows: seq<LegacyRow>, i: nat)
    requires LowerRows(env, schema, rows).Ok? && i < |rows|
    ensures LowerRow(env, schema, rows[i]).Ok?
    ensures LowerRows(env, schema, rows).value[i] == MigrationRow(rows[i].key, LowerRow(env, schema, rows[i]).value)
    decreases |rows|
  {
    hide LowerRow;
    if i < |rows| - 1 {
      LowerRowsAt(env, schema, rows[..|rows| - 1], i);
      assert rows[..|rows| - 1][i] == rows[i];
    }
  }

  lemma {:induction false} StoredRowsAt(rows: seq<MigrationRow>, descriptors: Descriptors, i: nat)
    requires StoredRows(rows, descriptors).Ok? && i < |rows|
    ensures StoredTuple(rows[i].fields, descriptors).Ok?
    ensures StoredRows(rows, descriptors).value[i]
        == StoredRow(rows[i].key, StoredTuple(rows[i].fields, descriptors).value)
    decreases |rows|
  {
    hide StoredTuple;
    if i < |rows| - 1 {
      StoredRowsAt(rows[..|rows| - 1], descriptors, i);
      assert rows[..|rows| - 1][i] == rows[i];
    }
  }

  lemma {:induction false} LowerRelationsAt(env: Env, all: map<RelationId, Sources>, declared: seq<Relation>, i: nat)
    requires LowerRelations(env, all, declared).Ok? && i < |declared|
    ensures LowerRelation(env, all, declared[i]) == Ok(LowerRelations(env, all, declared).value[i])
    decreases |declared|
  {
    hide LowerRelation;
    if i < |declared| - 1 {
      LowerRelationsAt(env, all, declared[..|declared| - 1], i);
      assert declared[..|declared| - 1][i] == declared[i];
    }
  }

  lemma {:induction false} ExpectationAt(input: seq<MigrationRelation>, descriptors: Descriptors, i: nat)
    requires Expectation(input, descriptors).Ok? && i < |input|
    ensures ExpectRelation(input[i], descriptors) == Ok(Expectation(input, descriptors).value[i])
    decreases |input|
  {
    hide ExpectRelation;
    if i < |input| - 1 {
      ExpectationAt(input[..|input| - 1], descriptors, i);
      assert input[..|input| - 1][i] == input[i];
    }
  }

  // ----- The lowered form of one legacy row -----

  /** The stored tuple a legacy row must become in a relation. */
  function Lowered(env: Env, descriptors: Descriptors, relation: Relation, row: LegacyRow): Result<Value> {
    var schema :- relation.schema;
    var fields :- LowerRow(env, schema, row);
    StoredTuple(fields, descriptors)
  }

  // ----- What a lowered row is, field by field -----

  /** A legacy field names a schema field: by its name, or by the identifier of the first field that has it. */
  ghost predicate Denotes(schema: seq<SchemaField>, name: FieldName, n: string) {
    match name
    case Declared(d) => d == n && exists i | 0 <= i < |schema| :: schema[i].name == n
    case ObjectId(id) => exists i | 0 <= i < |schema| :: FirstWithFieldId(schema, id, i) && schema[i].name == n
  }

  ghost predicate FirstWithFieldId(schema: seq<SchemaField>, id: seq<byte>, i: nat)
    requires i < |schema|
  {
    schema[i].id == id && forall j | 0 <= j < i :: schema[j].id != id
  }

  lemma {:induction false} FieldNamedExact(schema: seq<SchemaField>, name: string)
    ensures FieldNamed(schema, name).Some? <==> exists i | 0 <= i < |schema| :: schema[i].name == name
  {
    if |schema| > 0 {
      FieldNamedExact(schema[1..], name);
      if i :| 0 <= i < |schema[1..]| && schema[1..][i].name == name { assert schema[i + 1].name == name; }
      if i :| 0 <= i < |schema| && schema[i].name == name { if i > 0 { assert schema[1..][i - 1].name == name; } }
    }
  }

  lemma {:induction false} FieldWithIdExact(schema: seq<SchemaField>, id: seq<byte>) returns (i: nat)
    ensures FieldWithId(schema, id).None? ==> forall j | 0 <= j < |schema| :: schema[j].id != id
    ensures FieldWithId(schema, id).Some? ==>
      i < |schema| && FirstWithFieldId(schema, id, i) && FieldWithId(schema, id) == Some(schema[i])
  {
    i := 0;
    if |schema| > 0 && schema[0].id != id {
      var k := FieldWithIdExact(schema[1..], id);
      assert forall j | 0 < j < |schema| :: schema[j] == schema[1..][j - 1];
      i := k + 1;
    }
  }

  lemma ResolveNameExact(schema: seq<SchemaField>, name: FieldName, n: string)
    ensures ResolveName(schema, name) == Some(n) <==> Denotes(schema, name, n)
  {
    FieldNamedExact(schema, n);
    if name.ObjectId? {
      var i := FieldWithIdExact(schema, name.id);
      if FieldWithId(schema, name.id).Some? { FieldNamedExact(schema, schema[i].name); }
    }
  }

  /** Every legacy field names a schema field, and no two the same. */
  ghost predicate Readable(schema: seq<SchemaField>, fields: seq<LegacyField>) {
    && (forall j | 0 <= j < |fields| :: Known(schema, fields[j].name))
    && (forall j, k | 0 <= j < k < |fields| :: !Alike(schema, fields[j].name, fields[k].name))
  }

  ghost predicate Known(schema: seq<SchemaField>, name: FieldName) {
    exists n :: Denotes(schema, name, n)
  }

  /** Two legacy fields name one schema field. */
  ghost predicate Alike(schema: seq<SchemaField>, a: FieldName, b: FieldName) {
    exists n :: Denotes(schema, a, n) && Denotes(schema, b, n)
  }

  /** The row holds the value under a schema field's name or identifier. */
  ghost predicate HeldUnder(schema: seq<SchemaField>, fields: seq<LegacyField>, n: string, value: Value) {
    exists j | 0 <= j < |fields| :: Denotes(schema, fields[j].name, n) && fields[j].value == value
  }

  // the same two, by the name each field resolves to

  ghost predicate Resolved(schema: seq<SchemaField>, fields: seq<LegacyField>) {
    && (forall j | 0 <= j < |fields| :: ResolveName(schema, fields[j].name).Some?)
    && (forall j, k | 0 <= j < k < |fields| ::
          ResolveName(schema, fields[j].name) != ResolveName(schema, fields[k].name))
  }

  ghost predicate ResolvedTo(schema: seq<SchemaField>, fields: seq<LegacyField>, n: string, value: Value) {
    exists j | 0 <= j < |fields| :: ResolveName(schema, fields[j].name) == Some(n) && fields[j].value == value
  }

  lemma DenotesByName(schema: seq<SchemaField>, name: FieldName)
    ensures forall n :: Denotes(schema, name, n) <==> ResolveName(schema, name) == Some(n)
  {
    forall n ensures Denotes(schema, name, n) <==> ResolveName(schema, name) == Some(n) {
      ResolveNameExact(schema, name, n);
    }
  }

  lemma ReadableByName(schema: seq<SchemaField>, fields: seq<LegacyField>)
    ensures Readable(schema, fields) <==> Resolved(schema, fields)
    ensures forall n, value :: HeldUnder(schema, fields, n, value) <==> ResolvedTo(schema, fields, n, value)
  {
    hide Denotes, ResolveName;
    forall j | 0 <= j < |fields|
      ensures forall n :: Denotes(schema, fields[j].name, n) <==> ResolveName(schema, fields[j].name) == Some(n)
    {
      DenotesByName(schema, fields[j].name);
    }
    forall j | 0 <= j < |fields|
      ensures Known(schema, fields[j].name) <==> ResolveName(schema, fields[j].name).Some?
    {
      if ResolveName(schema, fields[j].name).Some? {
        assert Denotes(schema, fields[j].name, ResolveName(schema, fields[j].name).value);
      }
    }
    if forall j | 0 <= j < |fields| :: Known(schema, fields[j].name) {
      forall j, k | 0 <= j < k < |fields|
        ensures Alike(schema, fields[j].name, fields[k].name) <==>
          ResolveName(schema, fields[j].name) == ResolveName(schema, fields[k].name)
      {
        var n := ResolveName(schema, fields[j].name).value;
        assert Denotes(schema, fields[j].name, n);
        if ResolveName(schema, fields[k].name) == Some(n) { assert Denotes(schema, fields[k].name, n); }
      }
    }
  }

  lemma {:induction false} CollectByName(schema: seq<SchemaField>, fields: seq<LegacyField>)
    ensures CollectFields(schema, fields).Ok? <==> Resolved(schema, fields)
    ensures CollectFields(schema, fields).Ok? ==>
      var m := CollectFields(schema, fields).value;
      forall n, value :: n in m && m[n] == value <==> ResolvedTo(schema, fields, n, value)
    decreases |fields|
  {
    hide ResolveName;
    if |fields| > 0 {
      var init, last := fields[..|fields| - 1], fields[|fields| - 1];
      CollectByName(schema, init);
      assert forall j | 0 <= j < |init| :: init[j] == fields[j];
      if Resolved(schema, init) && ResolveName(schema, last.name).Some? {
        LastField(schema, fields);
      }
    }
  }

  /** The last field is new exactly when no earlier one resolves to its name. */
  lemma LastField(schema: seq<SchemaField>, fields: seq<LegacyField>)
    requires |fields| > 0
    requires var init := fields[..|fields| - 1];
      Resolved(schema, init) && CollectFields(schema, init).Ok? && ResolveName(schema, fields[|fields| - 1].name).Some?
      && var m := CollectFields(schema, init).value;
         forall n, value :: n in m && m[n] == value <==> ResolvedTo(schema, init, n, value)
    ensures CollectFields(schema, fields).Ok? <==> Resolved(schema, fields)
    ensures CollectFields(schema, fields).Ok? ==>
      var m := CollectFields(schema, fields).value;
      forall n, value :: n in m && m[n] == value <==> ResolvedTo(schema, fields, n, value)
  {
    hide ResolveName;
    var k := |fields| - 1;
    var init, last := fields[..k], fields[k];
    var m := CollectFields(schema, init).value;
    var name := ResolveName(schema, last.name).value;
    if name in m {
      assert ResolvedTo(schema, init, name, m[name]);
      var j :| 0 <= j < |init| && ResolveName(schema, init[j].name) == Some(name) && init[j].value == m[name];
      assert ResolveName(schema, fields[j].name) == ResolveName(schema, fields[k].name);
    } else {
      forall j | 0 <= j < k ensures ResolveName(schema, fields[j].name) != Some(name) {
        assert fields[j] == init[j];
        assert ResolveName(schema, init[j].name) == Some(name) ==> ResolvedTo(schema, init, name, init[j].value);
      }
      forall n, value ensures ResolvedTo(schema, fields, n, value) <==>
        ResolvedTo(schema, init, n, value) || (n == name && value == last.value)
      {
        if j :| 0 <= j < |init| && ResolveName(schema, init[j].name) == Some(n) && init[j].value == value {
          assert fields[j] == init[j];
        }
        if j :| 0 <= j < |fields| && ResolveName(schema, fields[j].name) == Some(n) && fields[j].value == value {
          if j < k { assert init[j] == fields[j]; }
        }
        if n == name && value == last.value { assert ResolveName(schema, fields[k].name) == Some(n); }
      }
    }
  }

  /** Collecting refuses exactly the unknown and the repeated, and loses and mixes nothing. */
  lemma CollectExact(schema: seq<SchemaField>, fields: seq<LegacyField>)
    ensures CollectFields(schema, fields).Ok? <==> Readable(schema, fields)
    ensures CollectFields(schema, fields).Ok? ==>
      var m := CollectFields(schema, fields).value;
      forall n, value :: n in m && m[n] == value <==> HeldUnder(schema, fields, n, value)
  {
    hide CollectFields, Resolved, ResolvedTo, Readable, HeldUnder;
    CollectByName(schema, fields);
    ReadableByName(schema, fields);
  }

  /** The text of a format-2 slot: inline text, or a storage record of two fields in this order. */
  ghost predicate SlotReads(env: Env, value: Value, text: seq<byte>) {
    value == Text(text)
    || exists b, n :: value == Map([Pair(Text(BLOB_NAME), Text(b)), Pair(Text(LENGTH_NAME), Int(n))])
                      && text == env.recordText(b, n)
  }

  /** The value fills a Blob slot with these bytes: raw bytes, or format-2 text read through its reader. */
  ghost predicate FillsSlot(env: Env, field: SchemaField, value: Value, bytes: seq<byte>) {
    field.isBlob
    && if env.format2.None? then value == Bytes(bytes)
       else exists text :: SlotReads(env, value, text) && env.format2.value(text) == Ok(bytes)
  }

  /** The value is no Blob slot and is lowered as an ordinary one. */
  ghost predicate NoSlot(env: Env, field: SchemaField, value: Value) {
    !field.isBlob || (!value.Bytes? && (env.format2.None? || forall text :: !SlotReads(env, value, text)))
  }

  /** A stored field is the lowering of a value: of the value itself, or of a provisional reference to its bytes. */
  ghost predicate FieldLowered(env: Env, field: SchemaField, value: Value, stored: StoredField) {
    match stored
    case Plain(raw) => NoSlot(env, field, value) && env.lowerField(field, value) == Ok(raw)
    case Pending(identity, lowered) =>
      && env.lowerField(field, BlobTuple(identity, [])) == Ok(lowered)
      && exists bytes :: FillsSlot(env, field, value, bytes)
                         && identity.length == |bytes| && identity.sha256 == env.sha256(bytes)
  }

  lemma SlotTextExact(env: Env, value: Value, text: seq<byte>)
    ensures SlotText(env, value) == Some(text) <==> SlotReads(env, value, text)
  {
    match value {
      case Map(entries) =>
        if SlotText(env, value) == Some(text) {
          var b, n := entries[0].value.utf8, entries[1].value.i;
          assert entries == [Pair(Text(BLOB_NAME), Text(b)), Pair(Text(LENGTH_NAME), Int(n))];
          assert SlotReads(env, value, text);
        }
      case _ =>
    }
  }

  lemma BlobBytesExact(env: Env, field: SchemaField, value: Value)
    ensures forall bytes :: BlobBytes(env, field, value) == Ok(Some(bytes)) <==> FillsSlot(env, field, value, bytes)
    ensures BlobBytes(env, field, value) == Ok(None) <==> NoSlot(env, field, value)
  {
    hide SlotText, SlotReads;
    forall text ensures SlotText(env, value) == Some(text) <==> SlotReads(env, value, text) {
      SlotTextExact(env, value, text);
    }
    if field.isBlob && env.format2.Some? && value.Bytes? { BytesAreNoText(env, value); }
  }

  lemma BytesAreNoText(env: Env, value: Value)
    requires value.Bytes?
    ensures forall text :: !SlotReads(env, value, text)
  {
  }

  lemma LowerFieldExact(env: Env, field: SchemaField, value: Value, stored: StoredField)
    ensures LowerField(env, field, value) == Ok(stored) <==> FieldLowered(env, field, value, stored)
  {
    hide BlobBytes, FillsSlot, NoSlot, BlobTuple;
    BlobBytesExact(env, field, value);
    if stored.Pending? && FieldLowered(env, field, value, stored) {
      var bytes :| FillsSlot(env, field, value, bytes)
                   && stored.identity.length == |bytes| && stored.identity.sha256 == env.sha256(bytes);
      assert BlobBytes(env, field, value) == Ok(Some(bytes));
    }
  }

  // ----- Which position a field is stored at -----

  /** The number of stored fields among the first `i`. */
  function StoredBefore(schema: seq<SchemaField>, i: nat): (n: nat)
    requires i <= |schema|
    ensures n <= i
  {
    if i == 0 then 0 else StoredBefore(schema, i - 1) + if schema[i - 1].role == 1 then 1 else 0
  }

  /** Every stored field of the schema has, at its own position, the lowering of the value the row holds for it. */
  ghost predicate RowLowered(env: Env, schema: seq<SchemaField>, row: LegacyRow, fields: seq<StoredField>) {
    && Readable(schema, row.fields)
    && |fields| == StoredBefore(schema, |schema|)
    && forall i | 0 <= i < |schema| && schema[i].role == 1 :: SlotLowered(env, schema, row.fields, i, fields)
  }

  ghost predicate SlotLowered(
      env: Env, schema: seq<SchemaField>, held: seq<LegacyField>, i: nat, fields: seq<StoredField>)
    requires i < |schema|
  {
    StoredBefore(schema, i) < |fields|
    && exists value :: HeldUnder(schema, held, schema[i].name, value)
                       && FieldLowered(env, schema[i], value, fields[StoredBefore(schema, i)])
  }

  /** The fields of a schema's first part, from the collected values. */
  ghost predicate PartLowered(
      env: Env, schema: seq<SchemaField>, k: nat, values: map<string, Value>, fields: seq<StoredField>)
    requires k <= |schema|
  {
    && |fields| == StoredBefore(schema, k)
    && forall i | 0 <= i < k && schema[i].role == 1 :: ValueLowered(env, schema, i, values, fields)
  }

  ghost predicate ValueLowered(
      env: Env, schema: seq<SchemaField>, i: nat, values: map<string, Value>, fields: seq<StoredField>)
    requires i < |schema|
  {
    && schema[i].name in values && StoredBefore(schema, i) < |fields|
    && FieldLowered(env, schema[i], values[schema[i].name], fields[StoredBefore(schema, i)])
  }

  lemma {:induction false} StoredBeforeGrows(schema: seq<SchemaField>, i: nat, k: nat)
    requires i <= k <= |schema|
    ensures StoredBefore(schema, i) <= StoredBefore(schema, k)
    ensures i < k && schema[i].role == 1 ==> StoredBefore(schema, i) < StoredBefore(schema, k)
    decreases k
  {
    if i < k { StoredBeforeGrows(schema, i, k - 1); }
  }

  lemma {:induction false} SamePrefix(schema: seq<SchemaField>, k: nat, i: nat)
    requires i <= k <= |schema|
    ensures StoredBefore(schema[..k], i) == StoredBefore(schema, i)
  {
    if i > 0 { SamePrefix(schema, k, i - 1); }
  }

  /** One more field of the schema: nothing changes before it, and its own lowering comes last. */
  lemma PartStep(env: Env, schema: seq<SchemaField>, values: map<string, Value>, fields: seq<StoredField>)
    requires |schema| > 0
    ensures var k := |schema| - 1;
      var field := schema[k];
      PartLowered(env, schema, k + 1, values, fields) <==>
        if field.role != 1 then PartLowered(env, schema, k, values, fields)
        else
          && |fields| > 0 && field.name in values
          && PartLowered(env, schema, k, values, fields[..|fields| - 1])
          && FieldLowered(env, field, values[field.name], fields[|fields| - 1])
  {
    hide FieldLowered;
    var k := |schema| - 1;
    forall i | 0 <= i < k && schema[i].role == 1
      ensures StoredBefore(schema, i) < StoredBefore(schema, k)
    {
      StoredBeforeGrows(schema, i, k);
    }
    if schema[k].role == 1 && |fields| > 0 && |fields| == StoredBefore(schema, k + 1) {
      var init := fields[..|fields| - 1];
      forall i | 0 <= i < k && schema[i].role == 1
        ensures ValueLowered(env, schema, i, values, fields) <==> ValueLowered(env, schema, i, values, init)
      {
        assert init[StoredBefore(schema, i)] == fields[StoredBefore(schema, i)];
      }
      assert PartLowered(env, schema, k + 1, values, fields) ==> ValueLowered(env, schema, k, values, fields);
    }
  }

  lemma PartOfPrefix(env: Env, schema: seq<SchemaField>, k: nat, values: map<string, Value>, fields: seq<StoredField>)
    requires k <= |schema|
    ensures PartLowered(env, schema[..k], k, values, fields) <==> PartLowered(env, schema, k, values, fields)
  {
    hide FieldLowered, StoredBefore;
    SamePrefix(schema, k, k);
    forall i | 0 <= i < k ensures ValueLowered(env, schema[..k], i, values, fields)
      <==> ValueLowered(env, schema, i, values, fields)
    {
      SamePrefix(schema, k, i);
    }
  }

  lemma {:induction false} LowerFieldsExact(
      env: Env, schema: seq<SchemaField>, values: map<string, Value>, fields: seq<StoredField>)
    ensures LowerFields(env, schema, values) == Ok(fields) <==> PartLowered(env, schema, |schema|, values, fields)
    decreases |schema|
  {
    hide LowerField, FieldLowered, PartLowered;
    if |schema| == 0 {
      NothingLowered(env, schema, values, fields);
    } else {
      var k := |schema| - 1;
      var field := schema[k];
      PartStep(env, schema, values, fields);
      var rest := if field.role != 1 || |fields| == 0 then fields else fields[..|fields| - 1];
      LowerFieldsExact(env, schema[..k], values, rest);
      PartOfPrefix(env, schema, k, values, rest);
      if field.role == 1 && field.name in values {
        if |fields| > 0 {
          LowerFieldExact(env, field, values[field.name], fields[|fields| - 1]);
          assert fields == fields[..|fields| - 1] + [fields[|fields| - 1]];
        }
      }
    }
  }

  lemma NothingLowered(env: Env, schema: seq<SchemaField>, values: map<string, Value>, fields: seq<StoredField>)
    requires |schema| == 0
    ensures PartLowered(env, schema, 0, values, fields) <==> fields == []
  {
  }

  /**
   * A row lowers to `fields` exactly when its fields are known and distinct and every stored field of
   * the schema has, at its own position, the lowering of the value the row holds for it.
   */
  lemma LowerRowExact(env: Env, schema: seq<SchemaField>, row: LegacyRow, fields: seq<StoredField>)
    ensures LowerRow(env, schema, row) == Ok(fields) <==> RowLowered(env, schema, row, fields)
  {
    hide CollectFields, LowerFields, Readable, FieldLowered, StoredBefore, HeldUnder;
    CollectExact(schema, row.fields);
    if CollectFields(schema, row.fields).Ok? {
      var m := CollectFields(schema, row.fields).value;
      LowerFieldsExact(env, schema, m, fields);
      forall i | 0 <= i < |schema|
        ensures ValueLowered(env, schema, i, m, fields) <==> SlotLowered(env, schema, row.fields, i, fields)
      {
        var n := schema[i].name;
        assert n in m ==> HeldUnder(schema, row.fields, n, m[n]);
      }
    }
  }

  // ----- What a stored tuple is, item by item -----

  /** A pending Blob's provisional reference becomes the one with its written descriptor. */
  ghost predicate Completed(field: StoredField, descriptors: Descriptors, item: Value) {
    match field
    case Plain(raw) => item == raw
    case Pending(identity, lowered) =>
      && identity in descriptors
      && item == Replace(lowered, BlobTuple(identity, []), BlobTuple(identity, descriptors[identity]))
  }

  ghost predicate TupleOf(fields: seq<StoredField>, descriptors: Descriptors, tuple: Value) {
    && tuple.Array? && |tuple.items| == |fields|
    && forall k | 0 <= k < |fields| :: Completed(fields[k], descriptors, tuple.items[k])
  }

  lemma {:induction false} CompleteFieldsExact(fields: seq<StoredField>, descriptors: Descriptors, items: seq<Value>)
    ensures CompleteFields(fields, descriptors) == Ok(items) <==>
      |items| == |fields| && forall k | 0 <= k < |fields| :: Completed(fields[k], descriptors, items[k])
    decreases |fields|
  {
    hide Replace, BlobTuple;
    if |fields| > 0 && |items| > 0 {
      var k := |fields| - 1;
      CompleteFieldsExact(fields[..k], descriptors, items[..|items| - 1]);
      assert items == items[..|items| - 1] + [items[|items| - 1]];
      if |items| == |fields| {
        assert forall j | 0 <= j < k :: fields[..k][j] == fields[j] && items[..k][j] == items[j];
      }
    }
  }

  lemma StoredTupleExact(fields: seq<StoredField>, descriptors: Descriptors, tuple: Value)
    ensures StoredTuple(fields, descriptors) == Ok(tuple) <==> TupleOf(fields, descriptors, tuple)
  {
    hide CompleteFields, Completed;
    if tuple.Array? { CompleteFieldsExact(fields, descriptors, tuple.items); }
    if CompleteFields(fields, descriptors).Ok? {
      CompleteFieldsExact(fields, descriptors, CompleteFields(fields, descriptors).value);
    }
  }

  /** What a legacy row is stored as in a relation: said of its fields and positions, not of the steps. */
  ghost predicate StoredAs(env: Env, descriptors: Descriptors, relation: Relation, row: LegacyRow, tuple: Value) {
    relation.schema.Ok?
    && exists fields :: RowLowered(env, relation.schema.value, row, fields) && TupleOf(fields, descriptors, tuple)
  }

  lemma LoweredExact(env: Env, descriptors: Descriptors, relation: Relation, row: LegacyRow, tuple: Value)
    ensures Lowered(env, descriptors, relation, row) == Ok(tuple) <==> StoredAs(env, descriptors, relation, row, tuple)
  {
    hide LowerRow, StoredTuple, RowLowered, TupleOf;
    if relation.schema.Ok? {
      var schema := relation.schema.value;
      if LowerRow(env, schema, row).Ok? {
        var fields := LowerRow(env, schema, row).value;
        LowerRowExact(env, schema, row, fields);
        StoredTupleExact(fields, descriptors, tuple);
      }
      if fields :| RowLowered(env, schema, row, fields) && TupleOf(fields, descriptors, tuple) {
        LowerRowExact(env, schema, row, fields);
        StoredTupleExact(fields, descriptors, tuple);
      }
    }
  }

  /** The legacy rows that carry a declared relation. */
  ghost function Carried(declared: seq<Relation>, legacy: seq<LegacyTable>, id: RelationId): seq<LegacyRow> {
    match Gather(declared, legacy)
    case Err => []
    case Ok(all) =>
      match SingleSource(SourcesOf(all, id))
      case Err => []
      case Ok(rows) => rows
  }

  /** The expected rows of a relation are the lowered rows of its carrying source, one for one. */
  lemma ExpectedRows(env: Env, declared: seq<Relation>, legacy: seq<LegacyTable>, descriptors: Descriptors, i: nat)
    requires RowInput(env, declared, legacy).Ok? && i < |declared|
    requires Expectation(RowInput(env, declared, legacy).value, descriptors).Ok?
    ensures var e := Expectation(RowInput(env, declared, legacy).value, descriptors).value[i];
            var source := Carried(declared, legacy, declared[i].id);
            && e.id == declared[i].id && |e.rows| == |source|
            && forall k | 0 <= k < |source| ::
                 e.rows[k].key == source[k].key
                 && StoredAs(env, descriptors, declared[i], source[k], e.rows[k].tuple)
  {
    hide Gather, LowerRelations, Expectation, LowerRows, StoredRows, LowerRow, StoredTuple, BlobsOfRows, SingleSource;
    hide StoredAs;
    var all := Gather(declared, legacy).value;
    var input := RowInput(env, declared, legacy).value;
    LowerRelationsAt(env, all, declared, i);
    ExpectationAt(input, descriptors, i);
    var source := Carried(declared, legacy, declared[i].id);
    if |source| == 0 {
      NoStoredRows(descriptors);
    } else {
      var schema := declared[i].schema.value;
      assert LowerRows(env, schema, source) == Ok(input[i].rows);
      forall k | 0 <= k < |source|
        ensures Expectation(input, descriptors).value[i].rows[k].key == source[k].key
        ensures StoredAs(env, descriptors, declared[i], source[k],
                         Expectation(input, descriptors).value[i].rows[k].tuple)
      {
        LowerRowsAt(env, schema, source, k);
        StoredRowsAt(input[i].rows, descriptors, k);
        var tuple := Expectation(input, descriptors).value[i].rows[k].tuple;
        assert Lowered(env, descriptors, declared[i], source[k]) == Ok(tuple);
        LoweredExact(env, descriptors, declared[i], source[k], tuple);
      }
    }
  }

  lemma NoStoredRows(descriptors: Descriptors)
    ensures StoredRows([], descriptors) == Ok([])
  {
  }
}
