/**
  Registration: pairing a versioned (live) model with its archive table.
  Registration refuses the pair with a LogTableCreationError whose reason
  names the first check that fails, in the order the checks run. A table is
  described by its mapped attributes, its primary-key column names and its
  unique constraints; schema reflection itself is not modelled.
 */
module Registration {
  import opened Types

  /** A table as registration sees it. `attrs` maps each instrumented
      attribute key to its column; `primaryKey` holds the primary-key column
      names; `uniqueSets` holds the column names of each unique constraint, as
      multisets because the source compares them as sorted lists. */
  datatype TableSchema = TableSchema(
    attrs: map<string, Column>,
    primaryKey: set<string>,
    uniqueSets: set<multiset<string>>)

  /** An entry of the chain has_constraint searches: the sorted column names
      of a unique constraint, or, because the sorted primary-key list is
      chained in element by element, one primary-key column name on its own. */
  datatype ChainItem = NameList(names: multiset<string>) | SingleName(name: string)

  function ConstraintChain(t: TableSchema): set<ChainItem> {
    (set u | u in t.uniqueSets :: NameList(u)) + (set n | n in t.primaryKey :: SingleName(n))
  }

  /** has_constraint: the sorted column names are an entry of the chain. A
      list never equals a single name, so only the unique constraints can
      match and the primary key never does. */
  function HasConstraint(t: TableSchema, names: multiset<string>): (b: bool)
    ensures b <==> names in t.uniqueSets
  {
    NameList(names) in ConstraintChain(t)
  }

  /** The attribute keys of some columns. */
  function ColumnKeys(cols: seq<Column>): (keys: set<string>)
    ensures forall c :: c in cols ==> c.key in keys
    ensures forall k :: k in keys ==> exists c :: c in cols && c.key == k
  {
    set c | c in cols :: c.key
  }

  lemma ColumnKeysAppend(cols: seq<Column>, c: Column)
    ensures ColumnKeys(cols + [c]) == ColumnKeys(cols) + {c.key}
  {
    assert forall d :: d in cols + [c] <==> d in cols || d == c;
  }

  // ---------------------------------------------------------------------------
  // Live-model validation
  // ---------------------------------------------------------------------------

  /** The attributes `getattr(cls, name, None)` finds for the declared version column names. */
  function VersionColumns(t: TableSchema, names: seq<string>): (cols: seq<Option<Column>>)
    ensures |cols| == |names|
    ensures forall i :: 0 <= i < |names| ==> (cols[i].Some? <==> names[i] in t.attrs)
    ensures forall i :: 0 <= i < |names| && names[i] in t.attrs ==> cols[i] == Some(t.attrs[names[i]])
  {
    seq(|names|, i requires 0 <= i < |names| => if names[i] in t.attrs then Some(t.attrs[names[i]]) else None)
  }

  predicate AllInstrumented(cols: seq<Option<Column>>) {
    forall i :: 0 <= i < |cols| ==> cols[i].Some?
  }

  function Present(cols: seq<Option<Column>>): (r: seq<Column>)
    requires AllInstrumented(cols)
    ensures |r| == |cols| && forall i :: 0 <= i < |cols| ==> cols[i] == Some(r[i])
  {
    seq(|cols|, i requires 0 <= i < |cols| => cols[i].value)
  }

  /** VAModelMixin._validate: every version column must be an instrumented
      attribute; then their keys must be the primary key's column names or
      carry a unique constraint. */
  function ModelValidation(t: TableSchema, cols: seq<Option<Column>>): (r: Outcome<Error>)
    ensures r == Fail(LogTableCreationError(NotInstrumented)) <==> exists i :: 0 <= i < |cols| && cols[i].None?
    ensures r.Fail? ==> r.error == LogTableCreationError(NotInstrumented) || r.error == LogTableCreationError(NoUniqueOnModel)
  {
    if !AllInstrumented(cols) then Fail(LogTableCreationError(NotInstrumented))
    else
      var keys := ColumnKeys(Present(cols));
      if t.primaryKey == keys || HasConstraint(t, multiset(keys)) then Pass
      else Fail(LogTableCreationError(NoUniqueOnModel))
  }

  /** Every attribute of a table is found under its own key. */
  predicate KeyedByName(t: TableSchema) {
    forall k :: k in t.attrs ==> t.attrs[k].key == k
  }

  /** For the declared version column names: the live model passes exactly
      when each name is an attribute and the names are the primary key or
      carry a unique constraint. */
  lemma ModelValidationOfNames(t: TableSchema, names: seq<string>)
    requires KeyedByName(t)
    ensures ModelValidation(t, VersionColumns(t, names)) == Pass <==>
      (forall i :: 0 <= i < |names| ==> names[i] in t.attrs) &&
      (t.primaryKey == (set n | n in names) || multiset(set n | n in names) in t.uniqueSets)
  {
    var cols := VersionColumns(t, names);
    if AllInstrumented(cols) {
      var p := Present(cols);
      forall i | 0 <= i < |names|
        ensures names[i] in t.attrs && p[i].key == names[i]
      {
        assert cols[i] == Some(p[i]);
      }
      forall k | k in ColumnKeys(p)
        ensures k in names
      {
        var c :| c in p && c.key == k;
        var i :| 0 <= i < |p| && p[i] == c;
      }
      forall k | k in names
        ensures k in ColumnKeys(p)
      {
        var i :| 0 <= i < |names| && names[i] == k;
        assert p[i] in p;
      }
      assert ColumnKeys(p) == set n | n in names;
    } else {
      var i :| 0 <= i < |cols| && cols[i].None?;
      assert names[i] !in t.attrs;
    }
  }

  /** The loop of VAModelMixin._validate: it stops at the first attribute that
      is not instrumented and collects the keys of the others. */
  method ValidateModel(t: TableSchema, versionCols: seq<Option<Column>>) returns (r: Outcome<Error>)
    ensures r == ModelValidation(t, versionCols)
  {
    var versionColNames: set<string> := {};
    var i := 0;
    while i < |versionCols|
      invariant 0 <= i <= |versionCols|
      invariant AllInstrumented(versionCols[..i])
      invariant versionColNames == ColumnKeys(Present(versionCols[..i]))
    {
      if versionCols[i].None? {
        assert !AllInstrumented(versionCols);
        return Fail(LogTableCreationError(NotInstrumented));
      }
      assert Present(versionCols[..i + 1]) == Present(versionCols[..i]) + [versionCols[i].value];
      ColumnKeysAppend(Present(versionCols[..i]), versionCols[i].value);
      versionColNames := versionColNames + {versionCols[i].value.key};
      i := i + 1;
    }
    assert versionCols[..i] == versionCols;
    var uc := t.primaryKey == versionColNames;
    if !(uc || HasConstraint(t, multiset(versionColNames))) {
      return Fail(LogTableCreationError(NoUniqueOnModel));
    }
    return Pass;
  }

  // ---------------------------------------------------------------------------
  // Archive-table validation
  // ---------------------------------------------------------------------------

  /** A version column is fine on the archive table when an attribute of the
      same key exists there with the same Python type. */
  predicate ColumnAccepted(t: TableSchema, c: Column) {
    c.key in t.attrs && t.attrs[c.key].pyType == c.pyType
  }

  /** The reason a rejected version column is refused: missing before mismatched. */
  function ColumnFailure(t: TableSchema, c: Column): (f: CreationFailure)
    requires !ColumnAccepted(t, c)
    ensures f == MissingLogColumn(c.key) <==> c.key !in t.attrs
    ensures f == TypeMismatch(c.key) <==> c.key in t.attrs
  {
    if c.key !in t.attrs then MissingLogColumn(c.key) else TypeMismatch(c.key)
  }

  /** The longest prefix of the version columns that the archive table accepts. */
  function PassingPrefix(t: TableSchema, cols: seq<Column>): (p: seq<Column>)
    ensures |p| <= |cols| && p == cols[..|p|]
    ensures forall j :: 0 <= j < |p| ==> ColumnAccepted(t, cols[j])
    ensures |p| < |cols| ==> !ColumnAccepted(t, cols[|p|])
  {
    if cols == [] || !ColumnAccepted(t, cols[0]) then []
    else [cols[0]] + PassingPrefix(t, cols[1..])
  }

  /** A prefix of accepted columns followed by a rejected one (or the end) is the passing prefix. */
  lemma {:induction false} PassingPrefixIs(t: TableSchema, cols: seq<Column>, i: nat)
    requires i <= |cols|
    requires forall j :: 0 <= j < i ==> ColumnAccepted(t, cols[j])
    requires i < |cols| ==> !ColumnAccepted(t, cols[i])
    ensures PassingPrefix(t, cols) == cols[..i]
  {
    if i > 0 {
      PassingPrefixIs(t, cols[1..], i - 1);
      assert cols[..i] == [cols[0]] + cols[1..][..i - 1];
    }
  }

  /** VALogMixin._validate, as a verdict: the first rejected version column,
      then a missing `user_id`, then no unique constraint on the version
      columns together with `va_version`. */
  function LogValidation(t: TableSchema, cols: seq<Column>): (r: Outcome<Error>)
    ensures r.Fail? ==> r.error.LogTableCreationError?
    ensures (exists i :: 0 <= i < |cols| && !ColumnAccepted(t, cols[i])) <==>
      r.Fail? && r.error.LogTableCreationError? && (r.error.reason.MissingLogColumn? || r.error.reason.TypeMismatch?)
    ensures r == Fail(LogTableCreationError(MissingUserId)) ==>
      (forall i :: 0 <= i < |cols| ==> ColumnAccepted(t, cols[i])) && "user_id" !in t.attrs
    ensures r == Fail(LogTableCreationError(NoUniqueOnLog)) ==>
      (forall i :: 0 <= i < |cols| ==> ColumnAccepted(t, cols[i])) && "user_id" in t.attrs
  {
    var p := PassingPrefix(t, cols);
    if |p| < |cols| then Fail(LogTableCreationError(ColumnFailure(t, cols[|p|])))
    else if "user_id" !in t.attrs then Fail(LogTableCreationError(MissingUserId))
    else if !HasConstraint(t, multiset(ColumnKeys(cols)) + multiset{"va_version"}) then Fail(LogTableCreationError(NoUniqueOnLog))
    else Pass
  }

  /** The archive table passes exactly when it accepts every version column,
      has `user_id`, and has a unique constraint on the version columns plus `va_version`. */
  lemma LogValidationPassIff(t: TableSchema, cols: seq<Column>)
    ensures LogValidation(t, cols) == Pass <==>
      (forall i :: 0 <= i < |cols| ==> ColumnAccepted(t, cols[i])) &&
      "user_id" in t.attrs &&
      multiset(ColumnKeys(cols)) + multiset{"va_version"} in t.uniqueSets
  {
    if forall i :: 0 <= i < |cols| ==> ColumnAccepted(t, cols[i]) {
      PassingPrefixIs(t, cols, |cols|);
    }
  }

  /** A column failure reported by the archive validation is the first
      rejected version column: every column before it is accepted. */
  lemma LogValidationReportsFirstRejected(t: TableSchema, cols: seq<Column>, i: nat)
    requires i < |cols| && !ColumnAccepted(t, cols[i])
    requires forall j :: 0 <= j < i ==> ColumnAccepted(t, cols[j])
    ensures LogValidation(t, cols) == Fail(LogTableCreationError(ColumnFailure(t, cols[i])))
  {
    PassingPrefixIs(t, cols, i);
  }

  /** The archive table: the schema it was declared with and the version
      column names its validation records. */
  class ArchiveTable {
    const schema: TableSchema
    var versionColNames: set<string>

    constructor (schema: TableSchema)
      ensures this.schema == schema && versionColNames == {}
    {
      this.schema := schema;
      versionColNames := {};
    }

    /** VALogMixin._validate: resets the recorded names, then records each
        version column's key as it is accepted. On failure the names accepted
        so far stay recorded. */
    method Validate(versionCols: seq<Column>) returns (r: Outcome<Error>)
      modifies this
      ensures r == LogValidation(schema, versionCols)
      ensures versionColNames == ColumnKeys(PassingPrefix(schema, versionCols))
    {
      versionColNames := {};
      var i := 0;
      while i < |versionCols|
        invariant 0 <= i <= |versionCols|
        invariant forall j :: 0 <= j < i ==> ColumnAccepted(schema, versionCols[j])
        invariant versionColNames == ColumnKeys(versionCols[..i])
      {
        var c := versionCols[i];
        if c.key !in schema.attrs || schema.attrs[c.key].pyType != c.pyType {
          PassingPrefixIs(schema, versionCols, i);
          return Fail(LogTableCreationError(ColumnFailure(schema, c)));
        }
        assert versionCols[..i + 1] == versionCols[..i] + [c];
        ColumnKeysAppend(versionCols[..i], c);
        versionColNames := versionColNames + {c.key};
        i := i + 1;
      }
      PassingPrefixIs(schema, versionCols, i);
      assert versionCols[..i] == versionCols;
      if "user_id" !in schema.attrs {
        return Fail(LogTableCreationError(MissingUserId));
      }
      if !HasConstraint(schema, multiset(versionColNames) + multiset{"va_version"}) {
        return Fail(LogTableCreationError(NoUniqueOnLog));
      }
      return Pass;
    }
  }

  // ---------------------------------------------------------------------------
  // register
  // ---------------------------------------------------------------------------

  /** What register decides: no declared version columns first, then the live
      model's validation, then the archive table's. */
  function RegisterOutcome(model: TableSchema, names: seq<string>, log: TableSchema): (r: Outcome<Error>)
    ensures names == [] <==> r == Fail(LogTableCreationError(NoVersionColumns))
    ensures r.Fail? ==> r.error.LogTableCreationError?
    ensures names != [] && (exists i :: 0 <= i < |names| && names[i] !in model.attrs) ==>
      r == Fail(LogTableCreationError(NotInstrumented))
  {
    if names == [] then Fail(LogTableCreationError(NoVersionColumns))
    else
      var cols := VersionColumns(model, names);
      match ModelValidation(model, cols)
      case Fail(e) => Fail(e)
      case Pass => LogValidation(log, Present(cols))
  }

  /** Registration succeeds exactly when version columns are declared, each is
      an attribute of the live model, the live model's keys are unique, and the
      archive table passes its validation. */
  lemma RegisterSucceedsIff(model: TableSchema, names: seq<string>, log: TableSchema)
    ensures RegisterOutcome(model, names, log) == Pass <==>
      names != [] &&
      (forall i :: 0 <= i < |names| ==> names[i] in model.attrs) &&
      ModelValidation(model, VersionColumns(model, names)) == Pass &&
      LogValidation(log, Present(VersionColumns(model, names))) == Pass
  {
    var cols := VersionColumns(model, names);
    if names != [] && ModelValidation(model, cols) == Pass {
      forall i | 0 <= i < |names|
        ensures names[i] in model.attrs
      {
        assert cols[i].Some?;
      }
    }
  }

  /** A live model with its versioning settings. `versionColumns` is
      `va_version_columns` (an unset value is the empty list); `ignoreColumns`
      is `va_ignore_columns`; `archive` is the registered archive table. */
  class VersionedTable {
    const schema: TableSchema
    const versionColumns: seq<string>
    var ignoreColumns: Option<set<string>>
    var archive: ArchiveTable?

    constructor (schema: TableSchema, versionColumns: seq<string>, ignoreColumns: Option<set<string>>)
      ensures this.schema == schema && this.versionColumns == versionColumns
      ensures this.ignoreColumns == ignoreColumns && archive == null
    {
      this.schema := schema;
      this.versionColumns := versionColumns;
      this.ignoreColumns := ignoreColumns;
      archive := null;
    }

    /** register: refuses a model without version columns before touching
        anything; otherwise adds `va_id` to the ignored columns, validates the
        live model and then the archive table, and records the archive table
        only when both pass. */
    method Register(at: ArchiveTable) returns (r: Outcome<Error>)
      modifies this, at
      ensures r == RegisterOutcome(schema, versionColumns, at.schema)
      ensures versionColumns == [] ==> ignoreColumns == old(ignoreColumns)
      ensures versionColumns != [] ==> ignoreColumns == Some(old(ignoreColumns).GetOr({}) + {"va_id"})
      ensures archive == (if r.Pass? then at else old(archive))
      ensures versionColumns == [] || ModelValidation(schema, VersionColumns(schema, versionColumns)).Fail? ==>
        at.versionColNames == old(at.versionColNames)
      ensures versionColumns != [] && ModelValidation(schema, VersionColumns(schema, versionColumns)).Pass? ==>
        at.versionColNames == ColumnKeys(PassingPrefix(at.schema, Present(VersionColumns(schema, versionColumns))))
    {
      if versionColumns == [] {
        return Fail(LogTableCreationError(NoVersionColumns));
      }
      if ignoreColumns.None? {
        ignoreColumns := Some({});
      }
      ignoreColumns := Some(ignoreColumns.value + {"va_id"});
      var versionCols := VersionColumns(schema, versionColumns);
      r := ValidateModel(schema, versionCols);
      if r.Fail? {
        return;
      }
      r := at.Validate(Present(versionCols));
      if r.Fail? {
        return;
      }
      archive := at;
    }
  }
}
