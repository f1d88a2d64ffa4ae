# versionalchemy — a Dafny model of the version-log engine

versionalchemy keeps an append-only archive table beside each versioned
(live) table. Every insert, update or delete of a live row appends an
archive row. That row records the identity (the values of the version
columns), a per-identity version number `va_version`, the acting `user_id`,
a `va_deleted` flag, a timestamp and a JSON snapshot `va_data` of the live
row. On top of this log the library lists versions, fetches one version,
diffs versions, and restores a live row from a snapshot.

This project models that engine and proves properties about it:

- The archive table is a `seq<Entry>` in insertion order, so `va_id` ascends.
- The live table is a `map` from a row's `id` to its field map.
- An attribute's ORM change history is an explicit `History(added, kept, deleted)`.
- Errors the source raises are `Err`/`Fail` values of the `Error` datatype.

| file | module | models |
|---|---|---|
| `types.dfy` | `Types` | values, archive entries, column descriptors, errors |
| `utils.dfy` | `Utils` | `get_column_attribute`, `is_modified`, `compare_dicts`, `compare_rows`, `result_to_dict` |
| `models.dfy` | `Models` | `_latest_version`, `_to_dict`, `build_row_dict`, the gap-free version invariant |
| `queries.dfy` | `Queries` | `create_log_select_expression`, `va_list_by_pk`, `get_row_identifier`, `va_get`, `va_get_all_by_pk`, `va_diff`, `va_diff_all_by_pk` |
| `registration.dfy` | `Registration` | `register` and the two `_validate` class methods |
| `restore.dfy` | `Restore` | `va_restore` |

Some operations work by changing state step by step, and the model keeps that form:

- `compare_dicts` fills a dictionary pair by pair. `Utils.CompareDicts` does the same, with loop invariants, and is proved equal to the specification function `Utils.ChangeSet`.
- `va_diff_all_by_pk` appends in an index loop.
- `VALogMixin._validate` fills `_version_col_names` as it goes. It is a method of the class `Registration.ArchiveTable`.
- `register` updates the live model's class attributes. It is a method of `Registration.VersionedTable`.
- `va_restore` builds the values to write in a loop and then inserts or overwrites. It is a method of `Restore.LiveTable`.

The archive log is "valid" (`Models.ValidLog`) when three things hold: `va_id` ascends, every row carries exactly the version columns, and each row's version equals the number of earlier rows of the same identity. Appending a row built by `build_row_dict` preserves this, so each identity's versions are exactly 0..n-1.

A few behaviours are modelled as the code has them:

- Fetching by `va_version` (in `va_get`, `va_diff` and restore) takes the first row with that version across all identities.
- `has_constraint` only ever matches a unique constraint. The primary-key entry it chains in is a run of single column names, which never equals the sorted list it is compared with.
- The `get_column_attribute` docstring describes `use_dirty` the other way round. The model follows the code: with `use_dirty` false and a history that has changes, it reads the pre-change value.
- Some test expectations disagree with the code: the output key names `va_version`/`user_id` and a one-field first-version diff. The model follows the code.

## Model

| member | source | states |
|---|---|---|
| Utils.GetBindProcessor | versionalchemy/utils.py:107-116 | without a dialect or without a processor for the column the processor is the identity; otherwise it is the dialect's processor |
| Utils.Unwrap | versionalchemy/utils.py:140 | a tuple value stands for its first element; any other value for itself |
| Utils.GetColumnAttribute | versionalchemy/utils.py:119-141 | with `use_dirty` false and a history that has changes, the processed first deleted value, or NULL when nothing was deleted; otherwise the processed current value, unwrapped |
| Utils.CleanAttributeReadsAgree | versionalchemy/utils.py:135-141 | for an attribute with no pending changes, the current and pre-change reads agree |
| Utils.UpdatedAttributeReads | versionalchemy/utils.py:135-141 | after an update from `old` to `new`, the pre-change read is `old` and the current read is `new` |
| Utils.IsModified | versionalchemy/utils.py:190-199 | a row is modified only if some non-ignored, not-unmodified column has pending changes |
| Utils.CleanRowIsNotModified | versionalchemy/utils.py:190-199 | a row without pending changes is not modified |
| Utils.ChangedCandidateMakesModified | versionalchemy/utils.py:190-199 | a non-ignored, not-unmodified column whose two reads differ makes the row modified |
| Utils.Baseline | versionalchemy/utils.py:14-17 | a missing or empty old map becomes NULL for every key of the new map; a non-empty one is kept |
| Utils.AllNone | versionalchemy/utils.py:14-17 | the loop that fills the NULL baseline builds exactly `Baseline(None, new)` |
| Utils.FieldChanges | versionalchemy/utils.py:19-34 | the reported keys come from the two maps, a key equal on both sides is never reported, and every change has both a `prev` and a `this` side |
| Utils.ChangeSet | versionalchemy/utils.py:13-34 | every reported `this` is the new map's value (None when absent) and every `prev` the old map's (None when the old map is missing or lacks the key) |
| Utils.CompareDicts | versionalchemy/utils.py:13-34 | the change dictionary built pair by pair equals the change set `ChangeSet(old, new)` |
| Utils.CollectChanges | versionalchemy/utils.py:19-34 | the loop over the symmetric difference of the two item sets yields exactly the field changes |
| Utils.KeysOfSymDiff | versionalchemy/utils.py:19-23 | the keys touched by the symmetric difference are exactly the keys that change |
| Utils.TracksAllIsFieldChanges | versionalchemy/utils.py:21-33 | once every pair has been visited, the partial dictionary is the full change set |
| Utils.ChangeSetEntry | versionalchemy/utils.py:19-33 | a key is reported iff it is in either map and not equal in both; a changed key gives `{this: new, prev: old}`, a new key `{prev: None, this: v}`, a dropped key `{prev: v, this: None}` |
| Utils.ChangeSetOfIdentical | versionalchemy/utils.py:19 | identical maps give an empty change set |
| Utils.ChangeSetEmptyIff | versionalchemy/utils.py:19-34 | for a non-empty old map the change set is empty iff the two maps are equal |
| Utils.ChangeSetFromNothing | versionalchemy/utils.py:14-17 | with no old map every key whose new value is not NULL is reported with `prev: None`, and NULL keys are omitted |
| Utils.ChangeSetSymmetric | versionalchemy/utils.py:19-34 | swapping two non-empty maps reports the same keys with `prev` and `this` swapped |
| Utils.ChangeSetKeysFromPayloads | versionalchemy/utils.py:19-34 | the change set's keys lie in the union of the two key sets and each change has both sides |
| Utils.CompareRows | versionalchemy/utils.py:37-52 | with no old row every `prev_*` field is NULL; otherwise the fields come from the two rows; `change` is the change set of the two payloads |
| Utils.FirstVersionDiff | versionalchemy/utils.py:37-52 | the diff of a first version reports every non-NULL payload field with `prev: None` |
| Utils.IdenticalPayloadsDiffEmpty | versionalchemy/utils.py:37-52 | two rows with the same payload have an empty change |
| Utils.RowColumns | versionalchemy/models/__init__.py:24-28 | an archive row as a column map has `va_id`, `va_version`, `va_deleted`, `va_updated_at`, `user_id` and its identity columns, and nothing else |
| Utils.CompareRowsAsWritten | versionalchemy/utils.py:37-52 | as written, a diff is produced only when the rows carry columns named `deleted` and `updated_at` |
| Utils.CompareRowsAsWrittenMissesDeleted | versionalchemy/utils.py:47 | an archive row without a `deleted` column makes the diff fail with KeyError('deleted') |
| Utils.ZipDict | versionalchemy/utils.py:64 | the map of one fetched row has exactly the column keys that received a value |
| Utils.ZipDictAt | versionalchemy/utils.py:64 | with distinct keys, each key maps to the value in the same position |
| Utils.ResultToDict | versionalchemy/utils.py:55-64 | one map per fetched row, in order |
| Utils.ResultToDictAt | versionalchemy/utils.py:55-64 | in every fetched row each column key maps to that row's value in the same position |
| Models.Matching | versionalchemy/models/__init__.py:66-71 | the rows of an identity are no more than the log's rows and all match the identity (completeness in `Models.MatchingPositions`) |
| Models.MatchingPositions | versionalchemy/models/__init__.py:66-71 | the history of an identity is exactly the filter of the log: its rows sit at strictly increasing log positions, and every matching log position is among them |
| Models.MatchingComplete | versionalchemy/models/__init__.py:66-71 | every log row that matches the identity is in its history |
| Models.MaxVersion | versionalchemy/models/__init__.py:66-72 | `max(va_version)` is None exactly when the identity has no rows |
| Models.MaxVersionIsMaximum | versionalchemy/models/__init__.py:57-72 | the maximum version of an identity is None iff no row matches, is some matching row's version, and bounds every matching version |
| Models.RowIdentity | versionalchemy/utils.py:79-104 | the identity of a live row is the read of every version column in the chosen mode |
| Models.LatestVersion | versionalchemy/models/__init__.py:57-72 | `_latest_version` is None iff no archive row matches the live row's identity, and otherwise bounds every matching version |
| Models.NextVersion | versionalchemy/models/__init__.py:46-47 | the next version is above every existing version of the identity, and is 0 when there is none |
| Models.Project | versionalchemy/models/__init__.py:163-167 | the projection has one entry per non-ignored column, under the column name |
| Models.ToDict | versionalchemy/models/__init__.py:153-167 | `_to_dict` has exactly the names of the non-ignored columns as keys |
| Models.ProjectAt | versionalchemy/models/__init__.py:163-167 | each non-ignored column's entry is its attribute read through the dialect |
| Models.IgnoredColumnNotProjected | versionalchemy/models/__init__.py:143-145 | a column whose key is ignored (as `va_id` is after registration) never reaches the snapshot |
| Models.BuildRowDict | versionalchemy/models/__init__.py:31-54 | the built row has the next version, the version columns read from the row, `user_id` only when one was given, the flags and time passed in, and the `_to_dict` snapshot |
| Models.Insert | versionalchemy/models/__init__.py:24-28 | inserting a built row keeps its version, identity and snapshot, stores the given `va_id`, and stores NULL when no user was given |
| Models.MatchesIsEquality | versionalchemy/models/__init__.py:66-71 | over exactly the version columns, matching an identity is equality with it |
| Models.ValidLogPrefix | versionalchemy/models/__init__.py:46-47 | every prefix of a valid log is valid |
| Models.VersionsAreConsecutive | versionalchemy/models/__init__.py:46-47 | in a valid log the versions of an identity are 0, 1, ..., n-1 in log order |
| Models.MaxVersionOfConsecutive | versionalchemy/models/__init__.py:66-72 | when an identity's rows carry versions 0..n-1, `max(va_version)` is n-1, or None for no rows |
| Models.MaxVersionCountsHistory | versionalchemy/models/__init__.py:57-72 | in a valid log the maximum version of an identity is its history length minus one, or None |
| Models.NextVersionIsHistoryLength | versionalchemy/models/__init__.py:46-47 | in a valid log the next version of an identity is the number of its rows |
| Models.AppendKeepsLogValid | versionalchemy/models/__init__.py:46-47 | appending a row with the next version and a larger `va_id` keeps the log valid |
| Models.AppendBuiltRowKeepsLogValid | versionalchemy/models/__init__.py:31-54 | appending a row built by `build_row_dict` keeps the log valid |
| Models.HistoryAfterAppend | versionalchemy/models/__init__.py:46-47 | after appending, the identity's history grows by exactly that row, whose version is the old history length |
| Queries.CreateLogSelectExpression | versionalchemy/models/__init__.py:200-212 | LogIdentifyError when a version column is missing; otherwise the filter is the supplied values on exactly the version columns |
| Queries.CreateLogSelectExpressionAsWritten | versionalchemy/models/__init__.py:200-212 | as written, a filter is produced only for a single version column |
| Queries.CompositeIdentityRejectedAsWritten | versionalchemy/models/__init__.py:209-210 | as written, every fully supplied composite identity fails with TypeError, while the corrected filter accepts it |
| Queries.CompositeIdentityExample | versionalchemy/models/__init__.py:209-210 | a two-column identity with both values given fails with TypeError as written |
| Queries.SingleColumnVariantsAgree | versionalchemy/models/__init__.py:200-212 | for one version column the as-written and corrected filters agree |
| Queries.SelectMatchesConjunction | versionalchemy/models/__init__.py:200-212 | a row passes the filter iff it equals the supplied values on every version column |
| Queries.SelectIgnoresOtherAttributes | versionalchemy/models/__init__.py:202-207 | attributes that are not version columns do not affect the filter |
| Queries.VaListByPk | versionalchemy/models/__init__.py:214-223 | the identity's rows as `(va_id, user_id, va_version)`, in log order, or the filter's error |
| Queries.ListWithoutIdentityFails | tests/test_models_methods.py:71-78 | listing with no identity attributes fails with LogIdentifyError |
| Queries.ListedVersionsAreConsecutive | tests/test_models_methods.py:239-266 | in a valid log the listed versions are 0..n-1 in order |
| Queries.GetRowIdentifier | versionalchemy/models/__init__.py:225-228 | the row identifier has exactly the version columns, with their current values |
| Queries.RowIdentifierSelects | versionalchemy/models/__init__.py:230-238 | a row's own identifier always passes the identity check |
| Queries.VaGetAllByPk | versionalchemy/models/__init__.py:390-401 | the identity's rows with `va_id`, version, user and full snapshot, in log order, or the filter's error |
| Queries.HistoryIsConsecutive | tests/test_models_methods.py:239-266 | in a valid log the full history lists versions 0..n-1, aligned with the version list |
| Queries.SelectorOf | versionalchemy/models/__init__.py:252-262 | `va_version` wins over `va_id`; giving neither is LogIdentifyError |
| Queries.FirstIndex | versionalchemy/models/__init__.py:264-276 | the position of the first selected row, with no earlier row selected, or None when none is |
| Queries.VaGet | versionalchemy/models/__init__.py:240-279 | LogIdentifyError without a selector; HistoryItemNotFound iff no row is selected; otherwise the first selected row's snapshot with `va_id` set to its log id |
| Queries.VersionTakesPrecedence | versionalchemy/models/__init__.py:252-262 | given both selectors, the result is the one for `va_version` alone |
| Queries.FindByIdInAscendingLog | versionalchemy/models/__init__.py:262 | in a log with ascending ids, a row's log id finds exactly that row |
| Queries.VaGetById | versionalchemy/models/__init__.py:262-279 | fetching by log id returns that row's snapshot with its log id added |
| Queries.VersionLookupCrossesIdentities | versionalchemy/models/__init__.py:259-260 | fetching by version ignores the identity: with two identities at version 0, the first logged one is returned |
| Queries.IdentityOf | versionalchemy/models/__init__.py:355-357 | the identity of an archive row is its values on the version columns |
| Queries.Before | versionalchemy/models/__init__.py:358-360 | the kept list items all have a smaller log id |
| Queries.VaDiff | versionalchemy/models/__init__.py:321-370 | LogIdentifyError without a selector; HistoryItemNotFound iff no row is selected |
| Queries.BeforeAscending | versionalchemy/models/__init__.py:358-360 | in an id-ascending history, the entries before the i-th id are exactly the first i |
| Queries.SelectOwnIdentity | versionalchemy/models/__init__.py:355-360 | an identity over exactly the version columns selects itself |
| Queries.VaDiffFound | versionalchemy/models/__init__.py:354-370 | once the row is found, the diff is against None without an earlier entry, and otherwise against the row of the last earlier log id |
| Queries.ListedIdsAscend | versionalchemy/models/__init__.py:358-364 | the listed rows of an identity have strictly ascending log ids |
| Queries.VaDiffPairsWithPredecessor | versionalchemy/models/__init__.py:354-370 | in a log whose ids ascend and whose rows carry the version columns (every valid log), the diff of an identity's i-th row compares it with its (i-1)-th row (the first with None), the same pairing `va_diff_all_by_pk` makes |
| Queries.DiffAt | versionalchemy/models/__init__.py:382-386 | the i-th diff carries the i-th row's version and user; its previous version is None exactly for the first row, and otherwise the previous side is the (i-1)-th row |
| Queries.VaDiffAllByPk | versionalchemy/models/__init__.py:375-388 | one diff per history row in log order, the first against None and each other against the row before it, or the filter's error |
| Registration.HasConstraint | versionalchemy/utils.py:173-187 | the names pass exactly when they equal one of the unique constraints; the primary-key entries of the chain never match |
| Registration.ColumnKeys | versionalchemy/models/__init__.py:171-177 | the keys collected are exactly the keys of the given columns |
| Registration.VersionColumns | versionalchemy/models/__init__.py:146 | each declared name yields its attribute when the model has one, and None otherwise |
| Registration.ModelValidation | versionalchemy/models/__init__.py:170-185 | the live model fails as not instrumented exactly when some version column is missing; any failure is that or the missing unique constraint |
| Registration.ModelValidationOfNames | versionalchemy/models/__init__.py:141-146 | for the declared names, the live model passes iff each name is an attribute and the names are the primary key or carry a unique constraint |
| Registration.ValidateModel | versionalchemy/models/__init__.py:170-185 | the loop over the version columns returns exactly the model-validation verdict |
| Registration.ColumnFailure | versionalchemy/models/__init__.py:93-104 | a missing log column is reported as missing, a present one with another type as a type mismatch |
| Registration.PassingPrefix | versionalchemy/models/__init__.py:89-105 | the accepted prefix is a prefix of the version columns, all accepted, followed by a rejected column or the end |
| Registration.PassingPrefixIs | versionalchemy/models/__init__.py:89-105 | an accepted prefix followed by a rejected column or the end is the passing prefix |
| Registration.LogValidation | versionalchemy/models/__init__.py:88-120 | every failure is a LogTableCreationError; a column error is reported iff some version column is rejected; a missing `user_id` or unique constraint is reported only once every column is accepted, the latter only with `user_id` present |
| Registration.LogValidationPassIff | versionalchemy/models/__init__.py:88-120 | the archive table passes iff it accepts every version column, has `user_id`, and has a unique constraint on the version columns plus `va_version` |
| Registration.LogValidationReportsFirstRejected | versionalchemy/models/__init__.py:89-104 | the column error reported is that of the first rejected version column |
| Registration.ArchiveTable.Validate | versionalchemy/models/__init__.py:74-120 | returns the archive validation verdict and leaves the keys of the accepted prefix recorded as the version column names |
| Registration.RegisterOutcome | versionalchemy/models/__init__.py:140-151 | registration fails for no declared version columns exactly when none are declared; a declared name the model lacks fails as not instrumented, before the archive table is looked at; every failure is a LogTableCreationError |
| Registration.RegisterSucceedsIff | versionalchemy/models/__init__.py:133-151 | registration succeeds iff version columns are declared, each is an attribute of the model, and both validations pass |
| Registration.VersionedTable.Register | versionalchemy/models/__init__.py:133-151 | no version columns fails before any change; otherwise `va_id` joins the ignored columns, and the archive table is recorded only when both validations pass |
| Restore.Restored | versionalchemy/models/__init__.py:299-301 | a NULL value, or a value of a column that is not a datetime, is restored unchanged |
| Restore.Reconcile | versionalchemy/models/__init__.py:295-312 | the reconciled values cover exactly the columns present in the snapshot or new and nullable |
| Restore.ReconcileStep | versionalchemy/models/__init__.py:295-312 | one column step: an earlier error stands; otherwise the step fails iff the column is new and non-nullable, with RestoreError naming it |
| Restore.ReconcileFailsIff | versionalchemy/models/__init__.py:302-312 | reconciliation fails iff some column is new and non-nullable |
| Restore.ReconcileReportsFirst | versionalchemy/models/__init__.py:308-312 | the RestoreError names the first new non-nullable column in class order |
| Restore.ReconcileStepValues | versionalchemy/models/__init__.py:295-307 | one successful column step updates the values by that column's rule only |
| Restore.ReconcileValueAt | versionalchemy/models/__init__.py:298-307 | a snapshot column takes its snapshot value, re-parsed for datetimes, and a new nullable column takes NULL |
| Restore.ReconcileSkipsUnknown | versionalchemy/models/__init__.py:302-303 | a new column with unknown nullability gets no value |
| Restore.ReconcileErrorPersists | versionalchemy/models/__init__.py:309-312 | an error on a prefix of the columns is the error of the whole pass |
| Restore.RestorePlan | versionalchemy/models/__init__.py:292-312 | errors come from `va_get` first, then a snapshot without `id`, then reconciliation; a plan holds the snapshot's `id` and its reconciled values |
| Restore.Write | versionalchemy/models/__init__.py:313-317 | a new row holds exactly the values; an existing row gets the values overwritten and keeps its other fields; other rows are unchanged |
| Restore.WriteIdempotent | versionalchemy/models/__init__.py:313-317 | writing the same values twice equals writing them once |
| Restore.LiveTable.VaRestore | versionalchemy/models/__init__.py:281-319 | fails exactly when the plan fails, and then leaves the table unchanged; on success the table is the plan written into it |
| Restore.RestoreInsertsReconciledRow | versionalchemy/models/__init__.py:313-314 | restoring a row that is not live inserts exactly the reconciled values |
| Restore.RestoreFailureReasons | versionalchemy/models/__init__.py:292-312 | a restore fails only through `va_get`, a missing `id`, or a new non-nullable column |

## Findings

| source | as written | input that shows it | evidently intended | confidence | as-written member | corrected member |
|---|---|---|---|---|---|---|
| versionalchemy/models/__init__.py:209-210 | with more than one version column, `operator.and_` is called with a single tuple argument, which raises TypeError | version columns `product_id` and `region`, both supplied (`Queries.CompositeIdentityExample`) | the conjunction of the per-column equalities | high, not executed | Queries.CreateLogSelectExpressionAsWritten | Queries.CreateLogSelectExpression |
| versionalchemy/utils.py:47-50 | `compare_rows` reads the keys `deleted` and `updated_at`, but archive rows have the columns `va_deleted` and `va_updated_at` (models/__init__.py:26-27), so KeyError('deleted') is raised | any archive row of a table built on the log mixin, which has no `deleted` column (`Utils.CompareRowsAsWrittenMissesDeleted`) | read `va_deleted` and `va_updated_at` | medium, not executed | Utils.CompareRowsAsWritten | Utils.CompareRows |

## Left out

- SQL execution, sessions, flush and commit are left out. The archive log is a sequence and the live table a map, and the order of query results is taken to be log order.
- Schema reflection is left out: `sa.inspect`, the `InstrumentedAttribute` checks and the inspector behind `has_constraint`. A table is a given `TableSchema` of attributes, primary-key column names and unique constraints.
- JSON encoding of `va_data` is left out; snapshots are maps of `Value`.
- The `arrow` datetime re-parse is a function parameter `parse`.
- `datetime.now()` is the parameter `now`.
- Logging warnings are left out; they do not change results.
- Transactions and concurrent version collisions are left out, because those are the store's concern.
- Python's cross-type equality (`True == 1`) and unhashable values in `compare_dicts` are not represented: `Value` has its own decidable equality.
- Empty tuples as attribute values are not representable, so the IndexError on them is not modelled.
- The flush hook that appends an archive row after restore writes the live row is not part of this model. Restore ends with the live-table write.
- Queries.VaDiff: built on the corrected `Utils.CompareRows` and the corrected `Queries.CreateLogSelectExpression` (see Findings); as written, every call that finds its row raises KeyError('deleted'), and composite identities raise TypeError. The `va_id` pairing is proved for valid logs (`VaDiffPairsWithPredecessor`); the contract on arbitrary logs states only the error cases.
- Queries.VaDiffFound: built on the corrected `Utils.CompareRows` and `Queries.CreateLogSelectExpression`; as written, the diff it describes raises KeyError('deleted').
- Queries.VaDiffPairsWithPredecessor: relates diffs built by the corrected `Utils.CompareRows` and filters built by the corrected `Queries.CreateLogSelectExpression`; as written, both sides raise KeyError('deleted').
- Queries.VaDiffAllByPk: built on the corrected `Utils.CompareRows` and `Queries.CreateLogSelectExpression`; as written, any non-empty history raises KeyError('deleted'), and composite identities raise TypeError.
- Queries.VaListByPk: built on the corrected `Queries.CreateLogSelectExpression`; as written, composite identities raise TypeError.
- Queries.VaGetAllByPk: built on the corrected `Queries.CreateLogSelectExpression`; as written, composite identities raise TypeError.
- Types.Entry holds only the archive mixin's columns, `user_id`, the version columns and the snapshot. The mixin's docstring (models/__init__.py:17-23) does not forbid further columns, and an archive table with its own `deleted` and `updated_at` columns would let `compare_rows` succeed as written; such extra columns are not modelled, which is why `Utils.CompareRowsAsWritten` succeeds only when `deleted` and `updated_at` are version columns.
- A version column that is itself named `va_version` appears twice in the archive constraint check. The model keeps that duplicate, using multisets, as the source's sorted-list comparison does.
- `updated_by` only stores the acting user for the session hook, and `version` reads one archive row by `va_id`; both are outside this model.
- Restore.LiveTable.VaRestore: the row is written under the snapshot's `id` even when `id` is not a mapped column, where the source would insert a row without it.
- Errors carry no message text, and LogIdentifyError does not name the missing column, because the source's set iteration order decides which column is named.
