/**
  Restoring a live row from an archived snapshot. The snapshot is fetched
  as va_get fetches it; a reconciliation pass over the live model's columns
  decides each column's new value; only then is the live table written, by
  inserting a new row or overwriting the reconciled fields of the existing one.
 */
module Restore {
  import opened Types
  import opened Queries

  /** The stored value of a snapshot field: a non-null value of a datetime
      column is re-parsed (`parse` stands for the datetime library). */
  function Restored(c: Column, v: Value, parse: Value -> Value): (r: Value)
    ensures v == VNull || c.pyType != DateTimeType ==> r == v
  {
    if v != VNull && c.pyType == DateTimeType then parse(v) else v
  }

  /** A column the snapshot lacks and that is declared non-nullable: restore refuses it. */
  predicate Unrestorable(c: Column, vals: Payload) {
    c.key !in vals && c.nullable.Some? && !c.nullable.value
  }

  /** Whether a column receives a value: present in the snapshot, or new and nullable. */
  predicate Reconciled(c: Column, vals: Payload) {
    c.key in vals || (c.nullable.Some? && c.nullable.value)
  }

  /** The reconciliation pass, over the live model's columns in order: a
      snapshot field is taken (re-parsed for datetimes), a new nullable
      column becomes NULL, a new column without nullability information is
      skipped, and a new non-nullable column fails with RestoreError. */
  function Reconcile(cols: seq<Column>, vals: Payload, parse: Value -> Value): (r: Result<Payload, Error>)
    ensures r.Ok? ==> r.value.Keys == set i | 0 <= i < |cols| && Reconciled(cols[i], vals) :: cols[i].key
  {
    if cols == [] then Ok(map[])
    else
      match Reconcile(cols[..|cols| - 1], vals, parse)
      case Err(e) => Err(e)
      case Ok(values) =>
        var c := cols[|cols| - 1];
        if c.key in vals then Ok(values[c.key := Restored(c, vals[c.key], parse)])
        else if c.nullable.Some? && c.nullable.value then Ok(values[c.key := VNull])
        else if c.nullable.None? then Ok(values)
        else Err(RestoreError(c.key))
  }

  /** One step of the pass: how the outcome on all columns follows from the
      outcome on all but the last. */
  lemma ReconcileStep(cols: seq<Column>, vals: Payload, parse: Value -> Value)
    requires cols != []
    ensures Reconcile(cols[..|cols| - 1], vals, parse).Err? ==>
      Reconcile(cols, vals, parse) == Reconcile(cols[..|cols| - 1], vals, parse)
    ensures Reconcile(cols[..|cols| - 1], vals, parse).Ok? ==>
      (Reconcile(cols, vals, parse).Err? <==> Unrestorable(cols[|cols| - 1], vals))
    ensures Reconcile(cols[..|cols| - 1], vals, parse).Ok? && Unrestorable(cols[|cols| - 1], vals) ==>
      Reconcile(cols, vals, parse) == Err(RestoreError(cols[|cols| - 1].key))
  {
  }

  /** Reconciliation fails exactly when some column is unrestorable. */
  lemma {:induction false} ReconcileFailsIff(cols: seq<Column>, vals: Payload, parse: Value -> Value)
    ensures Reconcile(cols, vals, parse).Err? <==> exists i :: 0 <= i < |cols| && Unrestorable(cols[i], vals)
  {
    if cols != [] {
      var front := cols[..|cols| - 1];
      ReconcileFailsIff(front, vals, parse);
      ReconcileStep(cols, vals, parse);
      assert forall j :: 0 <= j < |front| ==> front[j] == cols[j];
    }
  }

  /** A failed reconciliation names the first unrestorable column. */
  lemma {:induction false} ReconcileReportsFirst(cols: seq<Column>, vals: Payload, parse: Value -> Value, i: nat)
    requires i < |cols| && Unrestorable(cols[i], vals)
    requires forall j :: 0 <= j < i ==> !Unrestorable(cols[j], vals)
    ensures Reconcile(cols, vals, parse) == Err(RestoreError(cols[i].key))
  {
    var k := i + 1;
    var prefix := cols[..k];
    ReconcileFailsIff(cols[..i], vals, parse);
    assert prefix[..|prefix| - 1] == cols[..i];
    ReconcileStep(prefix, vals, parse);
    ReconcileErrorPersists(cols, vals, parse, k);
  }

  /** One successful step of the pass: the values on all columns are those on
      all but the last, updated by the last column's rule. */
  lemma ReconcileStepValues(cols: seq<Column>, vals: Payload, parse: Value -> Value)
    requires cols != [] && Reconcile(cols, vals, parse).Ok?
    ensures Reconcile(cols[..|cols| - 1], vals, parse).Ok?
    ensures var c := cols[|cols| - 1];
      var before := Reconcile(cols[..|cols| - 1], vals, parse).value;
      Reconcile(cols, vals, parse).value ==
        if c.key in vals then before[c.key := Restored(c, vals[c.key], parse)]
        else if c.nullable.Some? && c.nullable.value then before[c.key := VNull]
        else before
  {
  }

  /** With distinct column keys, each column's reconciled value follows its rule. */
  lemma {:induction false} ReconcileValueAt(cols: seq<Column>, vals: Payload, parse: Value -> Value, i: nat)
    requires forall a, b :: 0 <= a < b < |cols| ==> cols[a].key != cols[b].key
    requires i < |cols| && Reconcile(cols, vals, parse).Ok?
    ensures cols[i].key in vals ==>
      Reconcile(cols, vals, parse).value[cols[i].key] == Restored(cols[i], vals[cols[i].key], parse)
    ensures cols[i].key !in vals && cols[i].nullable == Some(true) ==>
      Reconcile(cols, vals, parse).value[cols[i].key] == VNull
  {
    var front := cols[..|cols| - 1];
    var last := |cols| - 1;
    ReconcileStepValues(cols, vals, parse);
    if i < last {
      ReconcileValueAt(front, vals, parse, i);
      assert cols[i] == front[i] && cols[i].key != cols[last].key;
      var before := Reconcile(front, vals, parse).value;
      assert cols[i].key in before ==> Reconcile(cols, vals, parse).value[cols[i].key] == before[cols[i].key];
    }
  }

  /** With distinct column keys, a new column of unknown nullability gets no value. */
  lemma ReconcileSkipsUnknown(cols: seq<Column>, vals: Payload, parse: Value -> Value, i: nat)
    requires forall a, b :: 0 <= a < b < |cols| ==> cols[a].key != cols[b].key
    requires i < |cols| && Reconcile(cols, vals, parse).Ok?
    requires cols[i].key !in vals && cols[i].nullable.None?
    ensures cols[i].key !in Reconcile(cols, vals, parse).value
  {
    var keys := set j | 0 <= j < |cols| && Reconciled(cols[j], vals) :: cols[j].key;
    assert Reconcile(cols, vals, parse).value.Keys == keys;
    assert !Reconciled(cols[i], vals);
  }

  /** An error on a prefix of the columns is the error of the whole pass. */
  lemma {:induction false} ReconcileErrorPersists(cols: seq<Column>, vals: Payload, parse: Value -> Value, k: nat)
    requires k <= |cols| && Reconcile(cols[..k], vals, parse).Err?
    ensures Reconcile(cols, vals, parse) == Reconcile(cols[..k], vals, parse)
    decreases |cols| - k
  {
    if k < |cols| {
      assert cols[..k + 1][..k] == cols[..k];
      ReconcileErrorPersists(cols, vals, parse, k + 1);
    } else {
      assert cols[..k] == cols;
    }
  }

  /** The decision of va_restore before anything is written: va_get's errors
      first, then a snapshot without `id` (KeyError), then reconciliation. On
      success, the live id and the values to write. */
  function RestorePlan(log: seq<Entry>, cols: seq<Column>, version: Option<int>, vaId: Option<int>,
                       parse: Value -> Value): (r: Result<(Value, Payload), Error>)
    ensures VaGet(log, version, vaId).Err? ==> r == Err(VaGet(log, version, vaId).error)
    ensures VaGet(log, version, vaId).Ok? && "id" !in VaGet(log, version, vaId).value ==> r == Err(KeyError("id"))
    ensures r.Ok? ==> (VaGet(log, version, vaId).Ok? && "id" in VaGet(log, version, vaId).value &&
      r.value.0 == VaGet(log, version, vaId).value["id"] &&
      Reconcile(cols, VaGet(log, version, vaId).value, parse) == Ok(r.value.1))
  {
    match VaGet(log, version, vaId)
    case Err(e) => Err(e)
    case Ok(vals) =>
      if "id" !in vals then Err(KeyError("id"))
      else
        match Reconcile(cols, vals, parse)
        case Err(e) => Err(e)
        case Ok(values) => Ok((vals["id"], values))
  }

  /** The write step: a new row holding exactly the reconciled values, or the
      existing row with the reconciled fields overwritten. */
  function Write(rows: map<Value, Payload>, id: Value, values: Payload): (r: map<Value, Payload>)
    ensures r.Keys == rows.Keys + {id}
    ensures forall k :: k in rows && k != id ==> r[k] == rows[k]
    ensures id !in rows ==> r[id] == values
    ensures id in rows ==> r[id].Keys == rows[id].Keys + values.Keys
    ensures id in rows ==> forall f :: f in values ==> r[id][f] == values[f]
    ensures id in rows ==> forall f :: f in rows[id] && f !in values ==> r[id][f] == rows[id][f]
  {
    if id in rows then rows[id := rows[id] + values] else rows[id := values]
  }

  /** Writing the same values twice changes nothing more. */
  lemma WriteIdempotent(rows: map<Value, Payload>, id: Value, values: Payload)
    ensures Write(Write(rows, id, values), id, values) == Write(rows, id, values)
  {
    var once := Write(rows, id, values);
    assert once[id] + values == once[id];
  }

  /** The live table: the model's columns in class order and the rows by `id`. */
  class LiveTable {
    const columns: seq<Column>
    var rows: map<Value, Payload>

    constructor (columns: seq<Column>, rows: map<Value, Payload>)
      ensures this.columns == columns && this.rows == rows
    {
      this.columns := columns;
      this.rows := rows;
    }

    /** va_restore: fetches the snapshot, looks up the live row by the
        snapshot's `id`, reconciles every column, then writes. Every failure
        happens before the write, so a failed restore leaves the table as it was. */
    method VaRestore(log: seq<Entry>, version: Option<int>, vaId: Option<int>, parse: Value -> Value)
      returns (r: Outcome<Error>)
      modifies this
      ensures RestorePlan(log, columns, version, vaId, parse).Err? <==> r.Fail?
      ensures r.Fail? ==> r.error == RestorePlan(log, columns, version, vaId, parse).error && rows == old(rows)
      ensures r.Pass? ==>
        var (id, values) := RestorePlan(log, columns, version, vaId, parse).value;
        rows == Write(old(rows), id, values)
    {
      var got := VaGet(log, version, vaId);
      if got.Err? {
        return Fail(got.error);
      }
      var vals := got.value;
      if "id" !in vals {
        return Fail(KeyError("id"));
      }
      var id := vals["id"];
      var values: Payload := map[];
      var i := 0;
      while i < |columns|
        invariant 0 <= i <= |columns|
        invariant Reconcile(columns[..i], vals, parse) == Ok(values)
      {
        var c := columns[i];
        assert columns[..i + 1][..i] == columns[..i];
        if c.key in vals {
          values := values[c.key := Restored(c, vals[c.key], parse)];
        } else if c.nullable.Some? {
          if c.nullable.value {
            values := values[c.key := VNull];
          } else {
            ReconcileErrorPersists(columns, vals, parse, i + 1);
            return Fail(RestoreError(c.key));
          }
        }
        i := i + 1;
      }
      assert columns[..i] == columns;
      rows := Write(rows, id, values);
      return Pass;
    }
  }

  /** A successful restore of a row that is not live inserts exactly the reconciled values. */
  lemma RestoreInsertsReconciledRow(log: seq<Entry>, cols: seq<Column>, version: Option<int>, vaId: Option<int>,
                                    parse: Value -> Value, rows: map<Value, Payload>)
    requires RestorePlan(log, cols, version, vaId, parse).Ok?
    requires RestorePlan(log, cols, version, vaId, parse).value.0 !in rows
    ensures Write(rows, RestorePlan(log, cols, version, vaId, parse).value.0, RestorePlan(log, cols, version, vaId, parse).value.1)
      [RestorePlan(log, cols, version, vaId, parse).value.0] ==
      Reconcile(cols, VaGet(log, version, vaId).value, parse).value
  {
  }

  /** A restore can only fail for a reason va_get, the missing `id`, or an
      unrestorable column gives. */
  lemma RestoreFailureReasons(log: seq<Entry>, cols: seq<Column>, version: Option<int>, vaId: Option<int>,
                              parse: Value -> Value)
    requires RestorePlan(log, cols, version, vaId, parse).Err?
    ensures VaGet(log, version, vaId).Err? ||
      (VaGet(log, version, vaId).Ok? && "id" !in VaGet(log, version, vaId).value) ||
      (VaGet(log, version, vaId).Ok? && exists i :: 0 <= i < |cols| && Unrestorable(cols[i], VaGet(log, version, vaId).value))
  {
    if VaGet(log, version, vaId).Ok? && "id" in VaGet(log, version, vaId).value {
      ReconcileFailsIff(cols, VaGet(log, version, vaId).value, parse);
    }
  }
}
