/**
 The migration's loops: sources gathered into a map, rows lowered field by field while the Blob
 payloads they reference are recorded in one shared table, and stored tuples completed.
 */
module MigrationLoops {
  import opened Prelude
  import opened Cbor
  import opened BlobCompletion
  import opened Migration

  method GatherSources(declared: seq<Relation>, legacy: seq<LegacyTable>)
    returns (r: Result<map<RelationId, Sources>>)
    ensures r == Gather(declared, legacy)
  {
    hide Place;
    var sources: map<RelationId, Sources> := map[];
    for i := 0 to |legacy|
      invariant Gather(declared, legacy[..i]) == Ok(sources)
    {
      var table := legacy[i];
      assert legacy[..i + 1][..i] == legacy[..i] && legacy[..i + 1][i] == table;
      var placed := Place(sources, declared, table);
      if placed.Err? {
        GatherStops(declared, legacy, i + 1);
        return Err;
      }
      sources := placed.value;
    }
    assert legacy[..|legacy|] == legacy;
    r := Ok(sources);
  }

  lemma {:induction false} GatherStops(declared: seq<Relation>, legacy: seq<LegacyTable>, k: nat)
    requires k <= |legacy| && Gather(declared, legacy[..k]).Err?
    ensures Gather(declared, legacy).Err?
    decreases |legacy|
  {
    hide Place;
    if k == |legacy| {
      assert legacy[..k] == legacy;
    } else {
      var init := legacy[..|legacy| - 1];
      assert init[..k] == legacy[..k];
      GatherStops(declared, init, k);
    }
  }

  /** The payloads recorded so far, by content identity; the first bytes of an identity stay. */
  class Payloads {
    const env: Env
    var blobs: map<Identity, seq<byte>>

    constructor (env: Env)
      ensures this.env == env && blobs == map[] && Valid()
    {
      this.env, blobs := env, map[];
    }

    /** Every payload hashes to the identity it is recorded under. */
    ghost predicate Valid()
      reads this
    {
      forall i | i in blobs :: IdentityOf(env, blobs[i]) == i
    }

    /** Nothing recorded earlier was lost or replaced. */
    twostate predicate Extends()
      reads this
    {
      forall i | i in old(blobs) :: i in blobs && blobs[i] == old(blobs)[i]
    }

    ghost predicate Holds(fields: seq<StoredField>)
      reads this
    {
      forall i | 0 <= i < |fields| :: fields[i].Pending? ==> fields[i].identity in blobs
    }

    ghost predicate HoldsRows(rows: seq<MigrationRow>)
      reads this
    {
      forall i | 0 <= i < |rows| :: Holds(rows[i].fields)
    }

    method Record(bytes: seq<byte>)
      requires Valid()
      modifies this
      ensures Valid() && Extends() && IdentityOf(env, bytes) in blobs
      ensures blobs.Keys == old(blobs).Keys + {IdentityOf(env, bytes)}
    {
      var identity := IdentityOf(env, bytes);
      if identity !in blobs { blobs := blobs[identity := bytes]; }
    }

    method LowerOne(field: SchemaField, value: Value) returns (r: Result<StoredField>)
      requires Valid()
      modifies this
      ensures Valid() && Extends()
      ensures r == LowerField(env, field, value)
      ensures r.Ok? && r.value.Pending? ==> r.value.identity in blobs
    {
      hide BlobTuple;
      var bytes := BlobBytes(env, field, value);
      if bytes.Err? { return Err; }
      match bytes.value
      case Some(b) =>
        Record(b);
        var identity := IdentityOf(env, b);
        var lowered := env.lowerField(field, BlobTuple(identity, []));
        r := if lowered.Err? then Err else Ok(Pending(identity, lowered.value));
      case None =>
        var raw := env.lowerField(field, value);
        r := if raw.Err? then Err else Ok(Plain(raw.value));
    }

    method LowerRowFields(schema: seq<SchemaField>, values: map<string, Value>) returns (r: Result<seq<StoredField>>)
      requires Valid()
      modifies this
      ensures Valid() && Extends()
      ensures r == LowerFields(env, schema, values)
      ensures r.Ok? ==> Holds(r.value)
    {
      hide LowerField;
      var fields: seq<StoredField> := [];
      for i := 0 to |schema|
        invariant Valid() && Extends() && Holds(fields)
        invariant LowerFields(env, schema[..i], values) == Ok(fields)
      {
        var field := schema[i];
        assert schema[..i + 1][..i] == schema[..i] && schema[..i + 1][i] == field;
        if field.role == 1 {
          if field.name !in values {
            LowerFieldsStops(schema, values, i + 1);
            return Err;
          }
          var stored := LowerOne(field, values[field.name]);
          if stored.Err? {
            LowerFieldsStops(schema, values, i + 1);
            return Err;
          }
          fields := fields + [stored.value];
        }
      }
      assert schema[..|schema|] == schema;
      r := Ok(fields);
    }

    lemma {:induction false} LowerFieldsStops(schema: seq<SchemaField>, values: map<string, Value>, k: nat)
      requires k <= |schema| && LowerFields(env, schema[..k], values).Err?
      ensures LowerFields(env, schema, values).Err?
      decreases |schema|
    {
      hide LowerField;
      if k == |schema| {
        assert schema[..k] == schema;
      } else {
        var init := schema[..|schema| - 1];
        assert init[..k] == schema[..k];
        LowerFieldsStops(init, values, k);
      }
    }

    method LowerTable(schema: seq<SchemaField>, rows: seq<LegacyRow>) returns (r: Result<seq<MigrationRow>>)
      requires Valid()
      modifies this
      ensures Valid() && Extends()
      ensures r == LowerRows(env, schema, rows)
      ensures r.Ok? ==> HoldsRows(r.value)
    {
      hide LowerFields, CollectFields;
      var lowered: seq<MigrationRow> := [];
      for i := 0 to |rows|
        invariant Valid() && Extends() && HoldsRows(lowered)
        invariant LowerRows(env, schema, rows[..i]) == Ok(lowered)
      {
        var row := rows[i];
        assert rows[..i + 1][..i] == rows[..i] && rows[..i + 1][i] == row;
        var values := NameFields(schema, row.fields);
        if values.Err? {
          LowerRowsStops(schema, rows, i + 1);
          return Err;
        }
        var fields := LowerRowFields(schema, values.value);
        if fields.Err? {
          LowerRowsStops(schema, rows, i + 1);
          return Err;
        }
        lowered := lowered + [MigrationRow(row.key, fields.value)];
      }
      assert rows[..|rows|] == rows;
      r := Ok(lowered);
    }

    lemma {:induction false} LowerRowsStops(schema: seq<SchemaField>, rows: seq<LegacyRow>, k: nat)
      requires k <= |rows| && LowerRows(env, schema, rows[..k]).Err?
      ensures LowerRows(env, schema, rows).Err?
      decreases |rows|
    {
      hide LowerRow;
      if k == |rows| {
        assert rows[..k] == rows;
      } else {
        var init := rows[..|rows| - 1];
        assert init[..k] == rows[..k];
        LowerRowsStops(schema, init, k);
      }
    }

    method LowerDeclared(all: map<RelationId, Sources>, declared: seq<Relation>)
      returns (r: Result<seq<MigrationRelation>>)
      requires Valid()
      modifies this
      ensures Valid() && Extends()
      ensures r == LowerRelations(env, all, declared)
      ensures r.Ok? ==> forall i | 0 <= i < |r.value| :: HoldsRows(r.value[i].rows)
    {
      hide LowerRows, SingleSource;
      var relations: seq<MigrationRelation> := [];
      for i := 0 to |declared|
        invariant Valid() && Extends()
        invariant LowerRelations(env, all, declared[..i]) == Ok(relations)
        invariant forall k | 0 <= k < |relations| :: HoldsRows(relations[k].rows)
      {
        var relation := declared[i];
        assert declared[..i + 1][..i] == declared[..i] && declared[..i + 1][i] == relation;
        var lowered := LowerOneRelation(all, relation);
        if lowered.Err? {
          LowerRelationsStops(all, declared, i + 1);
          return Err;
        }
        relations := relations + [lowered.value];
      }
      assert declared[..|declared|] == declared;
      r := Ok(relations);
    }

    method LowerOneRelation(all: map<RelationId, Sources>, relation: Relation) returns (r: Result<MigrationRelation>)
      requires Valid()
      modifies this
      ensures Valid() && Extends()
      ensures r == LowerRelation(env, all, relation)
      ensures r.Ok? ==> HoldsRows(r.value.rows)
    {
      hide LowerRows, SingleSource;
      if relation.automaticKey || relation.id !in all { return Err; }
      var chosen := SingleSource(all[relation.id]);
      if chosen.Err? { return Err; }
      if |chosen.value| == 0 { return Ok(MigrationRelation(relation, [])); }
      if relation.schema.Err? { return Err; }
      var rows := LowerTable(relation.schema.value, chosen.value);
      r := if rows.Err? then Err else Ok(MigrationRelation(relation, rows.value));
    }

    lemma {:induction false} LowerRelationsStops(all: map<RelationId, Sources>, declared: seq<Relation>, k: nat)
      requires k <= |declared| && LowerRelations(env, all, declared[..k]).Err?
      ensures LowerRelations(env, all, declared).Err?
      decreases |declared|
    {
      hide LowerRelation;
      if k == |declared| {
        assert declared[..k] == declared;
      } else {
        var init := declared[..|declared| - 1];
        assert init[..k] == declared[..k];
        LowerRelationsStops(all, init, k);
      }
    }
  }

  /** The name-to-value map of one row, with its set of names already used. */
  method NameFields(schema: seq<SchemaField>, fields: seq<LegacyField>) returns (r: Result<map<string, Value>>)
    ensures r == CollectFields(schema, fields)
  {
    hide ResolveName;
    var values: map<string, Value> := map[];
    var named: set<string> := {};
    for i := 0 to |fields|
      invariant CollectFields(schema, fields[..i]) == Ok(values) && named == values.Keys
    {
      var field := fields[i];
      assert fields[..i + 1][..i] == fields[..i] && fields[..i + 1][i] == field;
      var name := ResolveName(schema, field.name);
      if name.None? || name.value in named {
        CollectStops(schema, fields, i + 1);
        return Err;
      }
      named := named + {name.value};
      values := values[name.value := field.value];
    }
    assert fields[..|fields|] == fields;
    r := Ok(values);
  }

  lemma {:induction false} CollectStops(schema: seq<SchemaField>, fields: seq<LegacyField>, k: nat)
    requires k <= |fields| && CollectFields(schema, fields[..k]).Err?
    ensures CollectFields(schema, fields).Err?
    decreases |fields|
  {
    hide ResolveName;
    if k == |fields| {
      assert fields[..k] == fields;
    } else {
      var init := fields[..|fields| - 1];
      assert init[..k] == fields[..k];
      CollectStops(schema, init, k);
    }
  }

  /** A payload is staged for the identity of every pending Blob. */
  predicate PayloadsCover(env: Env, input: seq<MigrationRelation>, payloads: map<Identity, seq<byte>>) {
    && (forall i | i in payloads :: IdentityOf(env, payloads[i]) == i)
    && forall i, j, k | 0 <= i < |input| && 0 <= j < |input[i].rows| && 0 <= k < |input[i].rows[j].fields| ::
         input[i].rows[j].fields[k].Pending? ==> input[i].rows[j].fields[k].identity in payloads
  }

  /** migration_row_input_with_format2_blobs */
  method BuildRowInput(env: Env, declared: seq<Relation>, legacy: seq<LegacyTable>)
    returns (r: Result<seq<MigrationRelation>>, payloads: map<Identity, seq<byte>>)
    ensures r == RowInput(env, declared, legacy)
    ensures r.Ok? ==> PayloadsCover(env, r.value, payloads)
  {
    hide Gather, LowerRelations;
    var all := GatherSources(declared, legacy);
    if all.Err? { return Err, map[]; }
    var table := new Payloads(env);
    r := table.LowerDeclared(all.value, declared);
    payloads := table.blobs;
  }

  // ----- Completion -----

  /** One row of stored_rows: its completed values, and the Blob references it holds. */
  method CompleteRow(row: MigrationRow, descriptors: Descriptors) returns (r: Result<Value>, blobs: seq<ExpectedBlob>)
    ensures r == StoredTuple(row.fields, descriptors)
    ensures r.Ok? ==> blobs == BlobsOfFields(row.key, row.fields, descriptors)
  {
    hide BlobTuple, Replace;
    var stored: seq<Value> := [];
    blobs := [];
    var fields := row.fields;
    for i := 0 to |fields|
      invariant CompleteFields(fields[..i], descriptors) == Ok(stored)
      invariant blobs == BlobsOfFields(row.key, fields[..i], descriptors)
    {
      var field := fields[i];
      assert fields[..i + 1][..i] == fields[..i] && fields[..i + 1][i] == field;
      match field
      case Plain(raw) => stored := stored + [raw];
      case Pending(identity, lowered) =>
        if identity !in descriptors {
          CompleteStops(fields, descriptors, i + 1);
          return Err, [];
        }
        var descriptor := descriptors[identity];
        blobs := blobs + [ExpectedBlob(row.key, identity, descriptor)];
        stored := stored + [Replace(lowered, BlobTuple(identity, []), BlobTuple(identity, descriptor))];
    }
    assert fields[..|fields|] == fields;
    r := Ok(Array(stored));
  }

  lemma {:induction false} CompleteStops(fields: seq<StoredField>, descriptors: Descriptors, k: nat)
    requires k <= |fields| && CompleteFields(fields[..k], descriptors).Err?
    ensures CompleteFields(fields, descriptors).Err?
    decreases |fields|
  {
    hide CompleteField;
    if k == |fields| {
      assert fields[..k] == fields;
    } else {
      var init := fields[..|fields| - 1];
      assert init[..k] == fields[..k];
      CompleteStops(init, descriptors, k);
    }
  }

  /** stored_rows */
  method CompleteRows(rows: seq<MigrationRow>, descriptors: Descriptors)
    returns (r: Result<seq<StoredRow>>, blobs: seq<ExpectedBlob>)
    ensures r == StoredRows(rows, descriptors)
    ensures r.Ok? ==> blobs == BlobsOfRows(rows, descriptors)
  {
    hide StoredTuple, BlobsOfFields;
    var stored: seq<StoredRow> := [];
    blobs := [];
    for i := 0 to |rows|
      invariant StoredRows(rows[..i], descriptors) == Ok(stored)
      invariant blobs == BlobsOfRows(rows[..i], descriptors)
    {
      assert rows[..i + 1][..i] == rows[..i] && rows[..i + 1][i] == rows[i];
      var tuple, held := CompleteRow(rows[i], descriptors);
      if tuple.Err? {
        StoredStops(rows, descriptors, i + 1);
        return Err, [];
      }
      stored := stored + [StoredRow(rows[i].key, tuple.value)];
      blobs := blobs + held;
    }
    assert rows[..|rows|] == rows;
    r := Ok(stored);
  }

  lemma {:induction false} StoredStops(rows: seq<MigrationRow>, descriptors: Descriptors, k: nat)
    requires k <= |rows| && StoredRows(rows[..k], descriptors).Err?
    ensures StoredRows(rows, descriptors).Err?
    decreases |rows|
  {
    hide StoredTuple;
    if k == |rows| {
      assert rows[..k] == rows;
    } else {
      var init := rows[..|rows| - 1];
      assert init[..k] == rows[..k];
      StoredStops(init, descriptors, k);
    }
  }
}
