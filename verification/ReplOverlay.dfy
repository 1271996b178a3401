/**
 Normalisation of REPL mutations (`normalize_repl_mutations`, `restore_stored_blobs`): evaluator
 rows become stored tuples whose Blob references come from the row last left at the same key.
 */
module ReplOverlay {
  import opened Prelude
  import opened Cbor

  const OPTION_TAG := 60013

  type Tuple = seq<Value>

  datatype FieldType = Ordinary | Blob | OptionalBlob {
    predicate HoldsBlob() { !Ordinary? }
  }

  // ----- restore_stored_blobs -----

  /** The present value of a Blob field, None for an absent optional one. */
  function PresentBlob(ty: FieldType, v: Value): Result<Option<Value>> {
    if !ty.OptionalBlob? then Ok(Some(v))
    else if v.Tag? && v.number == OPTION_TAG && v.value.Array? then
      var parts := v.value.items;
      if |parts| == 1 && parts[0] == Int(0) then Ok(None)
      else if |parts| == 2 && parts[0] == Int(1) then Ok(Some(parts[1]))
      else Err
    else Err
  }

  /** What an evaluator row shows in place of a stored Blob reference. */
  function Placeholder(ty: FieldType): Value {
    if ty.OptionalBlob? then Tag(OPTION_TAG, Array([Int(1), Bytes([])])) else Bytes([])
  }

  predicate IsReference(v: Value) { v.Tag? && v.number == STORED_BLOB_TAG }

  function RestoreField(ty: FieldType, v: Value, committed: Option<Value>): Result<Value> {
    if !ty.HoldsBlob() then Ok(v)
    else
      var present :- PresentBlob(ty, v);
      if present.None? then Ok(v)
      else if v != Placeholder(ty) || committed.None? then Err
      else
        var kept :- PresentBlob(ty, committed.value);
        if kept.Some? && IsReference(kept.value) then Ok(committed.value) else Err
  }

  function RestoreFields(types: seq<FieldType>, values: Tuple, source: Option<Tuple>): (r: Result<Tuple>)
    requires |values| == |types| && (source.Some? ==> |source.value| == |types|)
    ensures r.Ok? ==> |r.value| == |types|
  {
    if |types| == 0 then Ok([])
    else
      var k := |types| - 1;
      var done :- RestoreFields(types[..k], values[..k], if source.Some? then Some(source.value[..k]) else None);
      var last :- RestoreField(types[k], values[k], if source.Some? then Some(source.value[k]) else None);
      Ok(done + [last])
  }

  predicate AnyBlob(types: seq<FieldType>) { exists i | 0 <= i < |types| :: types[i].HoldsBlob() }

  function Restore(types: seq<FieldType>, stored: Tuple, source: Option<Tuple>): Result<Tuple> {
    if !AnyBlob(types) then Ok(stored)
    else if |stored| != |types| || (source.Some? && |source.value| != |types|) then Err
    else RestoreFields(types, stored, source)
  }

  /** `v` is the Blob reference some field of a tuple stores. */
  predicate StoresReference(types: seq<FieldType>, tuple: Tuple, v: Value) {
    exists i | 0 <= i < |types| && i < |tuple| :: FieldReference(types[i], tuple[i], v)
  }

  predicate FieldReference(ty: FieldType, field: Value, v: Value) {
    ty.HoldsBlob() && PresentBlob(ty, field) == Ok(Some(v)) && IsReference(v)
  }

  lemma {:induction false} RestoreFieldsAt(types: seq<FieldType>, values: Tuple, source: Option<Tuple>, i: nat)
    requires |values| == |types| && (source.Some? ==> |source.value| == |types|)
    requires RestoreFields(types, values, source).Ok? && i < |types|
    ensures RestoreField(types[i], values[i], if source.Some? then Some(source.value[i]) else None)
         == Ok(RestoreFields(types, values, source).value[i])
    decreases |types|
  {
    hide RestoreField;
    var k := |types| - 1;
    if i < k {
      var init := if source.Some? then Some(source.value[..k]) else None;
      RestoreFieldsAt(types[..k], values[..k], init, i);
    }
  }

  // ----- What restoring means, field by field -----

  /** The absent optional Blob. */
  const ABSENT: Value := Tag(OPTION_TAG, Array([Int(0)]))

  /** A present stored reference, as a field of the type holds it. */
  predicate PresentReference(ty: FieldType, v: Value) {
    if ty.OptionalBlob? then
      && v.Tag? && v.number == OPTION_TAG && v.value.Array? && |v.value.items| == 2
      && v.value.items[0] == Int(1) && IsReference(v.value.items[1])
    else IsReference(v)
  }

  /** An ordinary field and an absent Blob stay; a placeholder becomes the source row's own reference. */
  predicate FieldRestored(ty: FieldType, v: Value, committed: Option<Value>, w: Value) {
    if ty.Ordinary? || (ty.OptionalBlob? && v == ABSENT) then w == v
    else
      && v == (if ty.OptionalBlob? then Tag(OPTION_TAG, Array([Int(1), Bytes([])])) else Bytes([]))
      && committed.Some? && PresentReference(ty, committed.value) && w == committed.value
  }

  predicate Restored(types: seq<FieldType>, stored: Tuple, source: Option<Tuple>, r: Tuple) {
    if forall i | 0 <= i < |types| :: types[i].Ordinary? then r == stored
    else
      && |stored| == |types| && |r| == |types| && (source.Some? ==> |source.value| == |types|)
      && forall i | 0 <= i < |types| ::
           FieldRestored(types[i], stored[i], if source.Some? then Some(source.value[i]) else None, r[i])
  }

  lemma RestoreFieldExact(ty: FieldType, v: Value, committed: Option<Value>, w: Value)
    ensures RestoreField(ty, v, committed) == Ok(w) <==> FieldRestored(ty, v, committed, w)
  {
    if ty.OptionalBlob? && PresentBlob(ty, v) == Ok(None) { assert v.value.items == [Int(0)]; }
  }

  lemma {:induction false} RestoreFieldsExact(types: seq<FieldType>, values: Tuple, source: Option<Tuple>, r: Tuple)
    requires |values| == |types| && (source.Some? ==> |source.value| == |types|)
    ensures RestoreFields(types, values, source) == Ok(r) <==>
      |r| == |types| && forall i | 0 <= i < |types| ::
        FieldRestored(types[i], values[i], if source.Some? then Some(source.value[i]) else None, r[i])
    decreases |types|
  {
    hide RestoreField, FieldRestored;
    if |types| > 0 && |r| == |types| {
      var k := |types| - 1;
      var init := if source.Some? then Some(source.value[..k]) else None;
      RestoreFieldsExact(types[..k], values[..k], init, r[..k]);
      RestoreFieldExact(types[k], values[k], if source.Some? then Some(source.value[k]) else None, r[k]);
      assert r == r[..k] + [r[k]];
      RestoreFieldsSplit(types, values, source, r);
    }
  }

  lemma RestoreFieldsSplit(types: seq<FieldType>, values: Tuple, source: Option<Tuple>, r: Tuple)
    requires |values| == |types| == |r| && (source.Some? ==> |source.value| == |types|) && |types| > 0
    ensures var k := |types| - 1;
      var init := if source.Some? then Some(source.value[..k]) else None;
      RestoreFields(types, values, source) == Ok(r) <==>
        RestoreFields(types[..k], values[..k], init) == Ok(r[..k])
        && RestoreField(types[k], values[k], if source.Some? then Some(source.value[k]) else None) == Ok(r[k])
  {
    hide RestoreField;
    assert r == r[..|types| - 1] + [r[|types| - 1]];
  }

  /**
   * Restoring succeeds exactly when the lengths agree and every present Blob field is the placeholder
   * over a reference of the source row; the result then keeps the stored tuple everywhere else.
   */
  lemma RestoreExact(types: seq<FieldType>, stored: Tuple, source: Option<Tuple>, r: Tuple)
    ensures Restore(types, stored, source) == Ok(r) <==> Restored(types, stored, source, r)
  {
    hide RestoreFields, FieldRestored;
    assert AnyBlob(types) <==> !(forall i | 0 <= i < |types| :: types[i].Ordinary?);
    if AnyBlob(types) && |stored| == |types| && (source.Some? ==> |source.value| == |types|) {
      RestoreFieldsExact(types, stored, source, r);
    }
  }

  /** A restored tuple stores only references its source row stores. */
  lemma RestoreTraces(types: seq<FieldType>, stored: Tuple, source: Option<Tuple>, v: Value)
    requires Restore(types, stored, source).Ok? && StoresReference(types, Restore(types, stored, source).value, v)
    ensures source.Some? && StoresReference(types, source.value, v)
  {
    hide RestoreFields;
    var r := Restore(types, stored, source).value;
    var i :| 0 <= i < |types| && i < |r| && FieldReference(types[i], r[i], v);
    RestoreFieldsAt(types, stored, source, i);
    RestoreFieldTraces(types[i], stored[i], if source.Some? then Some(source.value[i]) else None, v);
  }

  lemma RestoreFieldTraces(ty: FieldType, field: Value, committed: Option<Value>, v: Value)
    requires RestoreField(ty, field, committed).Ok? && FieldReference(ty, RestoreField(ty, field, committed).value, v)
    ensures committed.Some? && FieldReference(ty, committed.value, v)
  {
  }

  // ----- Mutations -----

  /** A row is addressed by its table and runtime key. */
  datatype Address = Address(table: string, key: seq<byte>)

  datatype Mutation = Mutation(
    id: nat, table: string, key: seq<byte>, value: Option<Tuple>, rekeyTo: Option<seq<byte>>)

  /**
   * The tables and their field types in storage order; the key encoding; the lowering of an
   * evaluator record; and the mutations already admitted as stored tuples.
   */
  datatype Env = Env(
    types: map<string, seq<FieldType>>,
    runtimeKey: (string, seq<byte>) -> Result<seq<byte>>,
    lower: (string, Tuple) -> Result<Tuple>,
    admitted: set<nat>)

  type Table = map<Address, Tuple>

  /** Applying a normalised mutation: insert or update, delete, or move to another key. */
  function Apply(rows: Table, m: Mutation): Table {
    var at := Address(m.table, m.key);
    match m.value
    case None => rows - {at}
    case Some(v) =>
      match m.rekeyTo
      case None => rows[at := v]
      case Some(key) => (rows - {at})[Address(m.table, key) := v]
  }

  function Replay(rows: Table, ms: seq<Mutation>): Table {
    if |ms| == 0 then rows else Apply(Replay(rows, ms[..|ms| - 1]), ms[|ms| - 1])
  }

  function RowAt(rows: Table, at: Address): Option<Tuple> { if at in rows then Some(rows[at]) else None }

  /** with_reencoded_keys: runtime keys, and a move to the same key refused. */
  function Reencode(env: Env, m: Mutation): Result<Mutation> {
    var key :- env.runtimeKey(m.table, m.key);
    match m.rekeyTo
    case None => Ok(m.(key := key))
    case Some(to) =>
      var destination :- env.runtimeKey(m.table, to);
      if destination == key then Err else Ok(m.(key := key, rekeyTo := Some(destination)))
  }

  /** One normalised mutation, given the row that stands at its key. */
  function NormaliseWith(env: Env, m: Mutation, source: Option<Tuple>): Result<Mutation> {
    match m.value
    case None => Ok(m)
    case Some(record) =>
      var stored :- env.lower(m.table, record);
      var restored :- Restore(if m.table in env.types then env.types[m.table] else [], stored, source);
      Ok(m.(value := Some(restored)))
  }

  /** The meaning of normalisation: every source row is read from the replayed table. */
  function Normalise(env: Env, committed: Table, ms: seq<Mutation>): (r: Result<seq<Mutation>>)
    ensures r.Ok? ==> |r.value| == |ms|
  {
    if |ms| == 0 then Ok([])
    else
      var done :- Normalise(env, committed, ms[..|ms| - 1]);
      var m := ms[|ms| - 1];
      if m.table !in env.types then Err
      else if m.id in env.admitted then Ok(done + [m])
      else
        var keyed :- Reencode(env, m);
        var source := RowAt(Replay(committed, done), Address(keyed.table, keyed.key));
        var normal :- NormaliseWith(env, keyed, source);
        Ok(done + [normal])
  }

  // ----- The overlay -----

  type Overlay = map<Address, Option<Tuple>>

  /** The overlay over the committed rows shows exactly the replayed table. */
  ghost predicate Shows(written: Overlay, committed: Table, rows: Table) {
    forall at :: RowAt(rows, at) == if at in written then written[at] else RowAt(committed, at)
  }

  /** An admitted insert is written under its own key. */
  lemma ShowsPut(written: Overlay, committed: Table, rows: Table, at: Address, v: Option<Tuple>)
    requires Shows(written, committed, rows)
    ensures Shows(written[at := v], committed, if v.Some? then rows[at := v.value] else rows - {at})
  {
  }

  lemma ShowsMove(written: Overlay, committed: Table, rows: Table, from: Address, to: Address, v: Tuple)
    requires Shows(written, committed, rows) && from != to
    ensures Shows(written[to := Some(v)][from := None], committed, (rows - {from})[to := v])
  {
  }

  /**
   * The loop keeps an overlay of what it has written and restores each row from the overlay, or
   * from the committed row when the overlay is silent; that is the row sequential replay leaves.
   */
  method NormaliseMutations(env: Env, committed: Table, ms: seq<Mutation>) returns (r: Result<seq<Mutation>>)
    requires forall i | 0 <= i < |ms| :: ms[i].id in env.admitted ==> ms[i].rekeyTo.None?
    ensures r == Normalise(env, committed, ms)
  {
    hide Shows, Restore, Reencode, NormaliseWith, Apply, Normalise, Replay;
    NothingNormalised(env, committed);
    assert ms[..0] == [];
    var written: Overlay := map[];
    var normalised: seq<Mutation> := [];
    ShowsCommitted(committed);
    for i := 0 to |ms|
      invariant Normalise(env, committed, ms[..i]) == Ok(normalised)
      invariant Shows(written, committed, Replay(committed, normalised))
    {
      var m := ms[i];
      NormaliseNext(env, committed, ms, i);
      if m.table !in env.types {
        NormaliseStops(env, committed, ms, i + 1);
        return Err;
      }
      ghost var rows := Replay(committed, normalised);
      if m.id in env.admitted {
        ReplayNext(committed, normalised, m);
        ApplyPut(rows, m);
        ShowsPut(written, committed, rows, Address(m.table, m.key), m.value);
        written := written[Address(m.table, m.key) := m.value];
        normalised := normalised + [m];
      } else {
        var keyed := Reencode(env, m);
        if keyed.Err? {
          NormaliseStops(env, committed, ms, i + 1);
          return Err;
        }
        ReencodeKeys(env, m);
        var at := Address(keyed.value.table, keyed.value.key);
        var source := if at in written then written[at] else RowAt(committed, at);
        SourceShown(written, committed, rows, at);
        var normal := NormaliseWith(env, keyed.value, source);
        if normal.Err? {
          NormaliseStops(env, committed, ms, i + 1);
          return Err;
        }
        NormalKeys(env, keyed.value, source);
        ReplayNext(committed, normalised, normal.value);
        if normal.value.value.Some? && normal.value.rekeyTo.Some? {
          var to := Address(m.table, normal.value.rekeyTo.value);
          var v := normal.value.value.value;
          ApplyMove(rows, normal.value);
          ShowsMove(written, committed, rows, at, to, v);
          written := written[to := Some(v)];
          written := written[at := None];
        } else {
          ApplyPut(rows, normal.value);
          ShowsPut(written, committed, rows, at, normal.value.value);
          written := written[at := normal.value.value];
        }
        normalised := normalised + [normal.value];
      }
    }
    assert ms[..|ms|] == ms;
    r := Ok(normalised);
  }

  lemma NothingNormalised(env: Env, committed: Table)
    ensures Normalise(env, committed, []) == Ok([])
  {
  }

  lemma NormaliseNext(env: Env, committed: Table, ms: seq<Mutation>, i: nat)
    requires i < |ms| && Normalise(env, committed, ms[..i]).Ok?
    ensures var m, done := ms[i], Normalise(env, committed, ms[..i]).value;
      Normalise(env, committed, ms[..i + 1]) ==
        if m.table !in env.types then Err
        else if m.id in env.admitted then Ok(done + [m])
        else if Reencode(env, m).Err? then Err
        else
          var keyed := Reencode(env, m).value;
          var normal := NormaliseWith(env, keyed, RowAt(Replay(committed, done), Address(keyed.table, keyed.key)));
          if normal.Err? then Err else Ok(done + [normal.value])
  {
    hide Reencode, NormaliseWith, Replay;
    assert ms[..i + 1][..i] == ms[..i] && ms[..i + 1][i] == ms[i];
  }

  lemma ShowsCommitted(committed: Table)
    ensures Shows(map[], committed, Replay(committed, []))
  {
  }

  lemma SourceShown(written: Overlay, committed: Table, rows: Table, at: Address)
    requires Shows(written, committed, rows)
    ensures RowAt(rows, at) == if at in written then written[at] else RowAt(committed, at)
  {
  }

  lemma ReplayNext(committed: Table, ms: seq<Mutation>, m: Mutation)
    ensures Replay(committed, ms + [m]) == Apply(Replay(committed, ms), m)
  {
    hide Apply;
    assert (ms + [m])[..|ms|] == ms;
  }

  lemma ApplyPut(rows: Table, m: Mutation)
    requires m.value.None? || m.rekeyTo.None?
    ensures var at := Address(m.table, m.key);
            Apply(rows, m) == if m.value.Some? then rows[at := m.value.value] else rows - {at}
  {
  }

  lemma ApplyMove(rows: Table, m: Mutation)
    requires m.value.Some? && m.rekeyTo.Some?
    ensures Apply(rows, m) == (rows - {Address(m.table, m.key)})[Address(m.table, m.rekeyTo.value) := m.value.value]
  {
  }

  lemma ReencodeKeys(env: Env, m: Mutation)
    requires Reencode(env, m).Ok?
    ensures var k := Reencode(env, m).value; k.table == m.table && (k.rekeyTo.Some? ==> k.rekeyTo.value != k.key)
  {
  }

  lemma NormalKeys(env: Env, m: Mutation, source: Option<Tuple>)
    requires NormaliseWith(env, m, source).Ok?
    ensures var n := NormaliseWith(env, m, source).value; n.table == m.table && n.key == m.key && n.rekeyTo == m.rekeyTo
  {
  }

  lemma {:induction false} NormaliseStops(env: Env, committed: Table, ms: seq<Mutation>, k: nat)
    requires k <= |ms| && Normalise(env, committed, ms[..k]).Err?
    ensures Normalise(env, committed, ms).Err?
    decreases |ms|
  {
    hide Reencode, NormaliseWith, Replay;
    if k == |ms| {
      assert ms[..k] == ms;
    } else {
      var init := ms[..|ms| - 1];
      assert init[..k] == ms[..k];
      NormaliseStops(env, committed, init, k);
    }
  }

  // ----- What normalisation means, mutation by mutation -----

  /** The row an address shows after a mutation: gone, written, moved here, or as before. */
  lemma ApplyAt(rows: Table, m: Mutation, at: Address)
    requires m.value.Some? && m.rekeyTo.Some? ==> m.rekeyTo.value != m.key
    ensures var from := Address(m.table, m.key);
      RowAt(Apply(rows, m), at) ==
        if m.value.Some? && m.rekeyTo.Some? && at == Address(m.table, m.rekeyTo.value) then m.value
        else if at == from then (if m.rekeyTo.Some? then None else m.value)
        else RowAt(rows, at)
  {
  }

  predicate KeyRead(env: Env, table: string, key: seq<byte>, runtime: seq<byte>) {
    env.runtimeKey(table, key) == Ok(runtime)
  }

  /**
   * What a mutation must become, over the table as all earlier mutations left it: an admitted insert
   * stays, any other gets runtime keys, and its row is the lowered record with the Blob references of
   * the row that stands at its key.
   */
  predicate Normal(env: Env, rows: Table, m: Mutation, d: Mutation) {
    && m.table in env.types
    && if m.id in env.admitted then d == m
       else
         && d.id == m.id && d.table == m.table && KeyRead(env, m.table, m.key, d.key)
         && (m.rekeyTo.None? <==> d.rekeyTo.None?)
         && (m.rekeyTo.Some? ==>
               KeyRead(env, m.table, m.rekeyTo.value, d.rekeyTo.value) && d.rekeyTo.value != d.key)
         && (m.value.None? <==> d.value.None?)
         && (m.value.Some? ==>
               && env.lower(m.table, m.value.value).Ok?
               && Restored(env.types[m.table], env.lower(m.table, m.value.value).value,
                           RowAt(rows, Address(m.table, d.key)), d.value.value))
  }

  /** One step of normalisation meets exactly that. */
  lemma NormalExact(env: Env, rows: Table, m: Mutation, d: Mutation)
    requires m.table in env.types && m.id !in env.admitted
    ensures Normal(env, rows, m, d) <==>
      Reencode(env, m).Ok?
      && var keyed := Reencode(env, m).value;
         NormaliseWith(env, keyed, RowAt(rows, Address(keyed.table, keyed.key))) == Ok(d)
  {
    hide Restore, Restored;
    if Reencode(env, m).Ok? && m.value.Some? && env.lower(m.table, m.value.value).Ok? {
      var keyed := Reencode(env, m).value;
      var lowered := env.lower(m.table, m.value.value).value;
      var source := RowAt(rows, Address(keyed.table, keyed.key));
      if d.value.Some? { RestoreExact(env.types[m.table], lowered, source, d.value.value); }
      if Restore(env.types[m.table], lowered, source).Ok? {
        RestoreExact(env.types[m.table], lowered, source, Restore(env.types[m.table], lowered, source).value);
      }
    }
  }

  /** Every mutation of `done` is the normal form of its own, over the table the earlier ones leave. */
  ghost predicate AllNormal(env: Env, committed: Table, ms: seq<Mutation>, done: seq<Mutation>) {
    |done| == |ms| && forall i | 0 <= i < |ms| :: Normal(env, Replay(committed, done[..i]), ms[i], done[i])
  }

  lemma AllNormalSplit(env: Env, committed: Table, ms: seq<Mutation>, done: seq<Mutation>)
    requires |ms| > 0 && |done| == |ms|
    ensures var k := |ms| - 1;
      AllNormal(env, committed, ms, done) <==>
        AllNormal(env, committed, ms[..k], done[..k]) && Normal(env, Replay(committed, done[..k]), ms[k], done[k])
  {
    hide Normal, Replay;
    var k := |ms| - 1;
    assert forall i | 0 <= i < k :: done[..k][..i] == done[..i];
  }

  lemma {:induction false} NormaliseSound(env: Env, committed: Table, ms: seq<Mutation>, done: seq<Mutation>)
    requires Normalise(env, committed, ms) == Ok(done)
    ensures AllNormal(env, committed, ms, done)
    decreases |ms|
  {
    hide Reencode, NormaliseWith, Replay, Normal, Normalise, AllNormal;
    if |ms| > 0 {
      var k := |ms| - 1;
      SameLength(env, committed, ms);
      NormalisePrefix(env, committed, ms, done);
      NormaliseSound(env, committed, ms[..k], done[..k]);
      LastStep(env, committed, ms, done);
      AllNormalSplit(env, committed, ms, done);
    } else {
      NoneNormal(env, committed);
    }
  }

  lemma {:induction false} NormaliseComplete(env: Env, committed: Table, ms: seq<Mutation>, done: seq<Mutation>)
    requires AllNormal(env, committed, ms, done)
    ensures Normalise(env, committed, ms) == Ok(done)
    decreases |ms|
  {
    hide Reencode, NormaliseWith, Replay, Normal, Normalise;
    if |ms| > 0 {
      var k := |ms| - 1;
      AllNormalSplit(env, committed, ms, done);
      hide AllNormal;
      NormaliseComplete(env, committed, ms[..k], done[..k]);
      LastStep(env, committed, ms, done);
    } else {
      NoneNormal(env, committed);
    }
  }

  lemma SameLength(env: Env, committed: Table, ms: seq<Mutation>)
    ensures Normalise(env, committed, ms).Ok? ==> |Normalise(env, committed, ms).value| == |ms|
  {
  }

  lemma NoneNormal(env: Env, committed: Table)
    ensures Normalise(env, committed, []) == Ok([]) && AllNormal(env, committed, [], [])
  {
  }

  /** Over an already normalised prefix, the last mutation decides. */
  lemma LastStep(env: Env, committed: Table, ms: seq<Mutation>, done: seq<Mutation>)
    requires |ms| > 0 && |done| == |ms| && Normalise(env, committed, ms[..|ms| - 1]) == Ok(done[..|ms| - 1])
    ensures var k := |ms| - 1;
      Normalise(env, committed, ms) == Ok(done) <==> Normal(env, Replay(committed, done[..k]), ms[k], done[k])
  {
    hide Reencode, NormaliseWith, Replay, Normal, Normalise;
    var k := |ms| - 1;
    assert ms[..k + 1] == ms && done == done[..k] + [done[k]];
    NormaliseNext(env, committed, ms, k);
    LastNormal(env, Replay(committed, done[..k]), ms[k], done[k]);
  }

  /** Normalisation returns `done` exactly when it is the normal form, mutation by mutation. */
  lemma NormaliseExact(env: Env, committed: Table, ms: seq<Mutation>, done: seq<Mutation>)
    ensures Normalise(env, committed, ms) == Ok(done) <==> AllNormal(env, committed, ms, done)
  {
    hide Normalise, AllNormal;
    if Normalise(env, committed, ms) == Ok(done) { NormaliseSound(env, committed, ms, done); }
    if AllNormal(env, committed, ms, done) { NormaliseComplete(env, committed, ms, done); }
  }

  lemma LastNormal(env: Env, rows: Table, m: Mutation, d: Mutation)
    ensures Normal(env, rows, m, d) ==> m.table in env.types
    ensures m.table in env.types && m.id in env.admitted ==> (Normal(env, rows, m, d) <==> d == m)
    ensures m.table in env.types && m.id !in env.admitted ==>
      (Normal(env, rows, m, d) <==>
        Reencode(env, m).Ok?
        && var keyed := Reencode(env, m).value;
           NormaliseWith(env, keyed, RowAt(rows, Address(keyed.table, keyed.key))) == Ok(d))
  {
    if m.table in env.types && m.id !in env.admitted { NormalExact(env, rows, m, d); }
    hide Reencode, NormaliseWith, Restored;
  }

  lemma NormalisePrefix(env: Env, committed: Table, ms: seq<Mutation>, done: seq<Mutation>)
    requires |ms| > 0 && |done| == |ms| && Normalise(env, committed, ms) == Ok(done)
    ensures Normalise(env, committed, ms[..|ms| - 1]) == Ok(done[..|ms| - 1])
  {
    hide Reencode, NormaliseWith, Replay;
  }

  // ----- Where Blob references come from -----

  /** A reference stored in a committed row or in an admitted insert among `ms`. */
  ghost predicate Known(env: Env, committed: Table, ms: seq<Mutation>, v: Value) {
    || (exists at :: at in committed && RowStores(env, at.table, committed[at], v))
    || (exists i :: 0 <= i < |ms| && ms[i].id in env.admitted && ms[i].value.Some?
                    && RowStores(env, ms[i].table, ms[i].value.value, v))
  }

  ghost predicate RowStores(env: Env, table: string, tuple: Tuple, v: Value) {
    table in env.types && StoresReference(env.types[table], tuple, v)
  }

  lemma KnownGrows(env: Env, committed: Table, ms: seq<Mutation>, v: Value)
    requires |ms| > 0 && Known(env, committed, ms[..|ms| - 1], v)
    ensures Known(env, committed, ms, v)
  {
    hide RowStores;
    var init := ms[..|ms| - 1];
    if i :| 0 <= i < |init| && init[i].id in env.admitted && init[i].value.Some?
            && RowStores(env, init[i].table, init[i].value.value, v) {
      assert ms[i] == init[i];
    }
  }

  /**
   * Every Blob reference in a normalised mutation, and in the table replayed from them, is a
   * committed reference or one of an admitted insert.
   */
  lemma {:induction false} ReferencesTrace(env: Env, committed: Table, ms: seq<Mutation>)
    requires Normalise(env, committed, ms).Ok?
    ensures var done := Normalise(env, committed, ms).value;
            && (forall i, v | 0 <= i < |done| && done[i].value.Some?
                  && RowStores(env, done[i].table, done[i].value.value, v) :: Known(env, committed, ms, v))
            && (forall at, v | at in Replay(committed, done)
              && RowStores(env, at.table, Replay(committed, done)[at], v) ::
                  Known(env, committed, ms, v))
  {
    hide Restore, Reencode, StoresReference;
    if |ms| > 0 {
      var init, m := ms[..|ms| - 1], ms[|ms| - 1];
      ReferencesTrace(env, committed, init);
      var before := Normalise(env, committed, init).value;
      var done := Normalise(env, committed, ms).value;
      assert done == before + [done[|before|]];
      var last := done[|before|];
      ReplayNext(committed, before, last);
      forall v | last.value.Some? && RowStores(env, last.table, last.value.value, v)
        ensures Known(env, committed, ms, v)
      {
        LastTraces(env, committed, ms, v);
      }
      forall v | Known(env, committed, init, v) ensures Known(env, committed, ms, v) {
        KnownGrows(env, committed, ms, v);
      }
      hide Known, NormaliseWith, Normalise;
      ApplyRows(Replay(committed, before), last);
    }
  }

  /** A replayed row is an earlier row or the mutation's own. */
  lemma ApplyRows(rows: Table, m: Mutation)
    ensures forall at | at in Apply(rows, m) ::
              || (at in rows && Apply(rows, m)[at] == rows[at])
              || (m.value == Some(Apply(rows, m)[at]) && at.table == m.table)
  {
  }

  lemma LastTraces(env: Env, committed: Table, ms: seq<Mutation>, v: Value)
    requires |ms| > 0 && Normalise(env, committed, ms).Ok?
    requires var init := ms[..|ms| - 1]; var before := Normalise(env, committed, init).value;
             forall at, w | at in Replay(committed, before)
               && RowStores(env, at.table, Replay(committed, before)[at], w) ::
               Known(env, committed, init, w)
    requires var last := Normalise(env, committed, ms).value[|ms| - 1];
             last.value.Some? && RowStores(env, last.table, last.value.value, v)
    ensures Known(env, committed, ms, v)
  {
    hide Restore, StoresReference, Replay;
    var init, m := ms[..|ms| - 1], ms[|ms| - 1];
    var before := Normalise(env, committed, init).value;
    var last := Normalise(env, committed, ms).value[|ms| - 1];
    if m.id in env.admitted {
      assert ms[|ms| - 1] == last;
    } else {
      var keyed := Reencode(env, m).value;
      var at := Address(keyed.table, keyed.key);
      var source := RowAt(Replay(committed, before), at);
      var types := env.types[m.table];
      RestoreTraces(types, env.lower(m.table, keyed.value.value).value, source, v);
      assert RowStores(env, at.table, source.value, v);
      KnownGrows(env, committed, ms, v);
    }
  }
}
