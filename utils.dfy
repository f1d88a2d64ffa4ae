/**
  Helpers of the versioning engine: reading an attribute in its current or
  pre-change state, detecting a modified row, the field-level change set
  between two payloads, the diff of two archive rows, and turning fetched
  result rows into maps.
 */
module Utils {
  import opened Types

  // ---------------------------------------------------------------------------
  // Attribute reads
  // ---------------------------------------------------------------------------

  /** The pending-change record of one attribute, as the session keeps it. */
  datatype History = History(added: seq<Value>, kept: seq<Value>, deleted: seq<Value>) {
    predicate HasChanges() {
      |added| > 0 || |deleted| > 0
    }
  }

  /** An attribute of a live row: its present value and, when the attribute is
      instrumented, its history. */
  datatype Attr = Attr(current: Value, history: Option<History>)

  /** A live row object: its mapped columns in mapper order (of each, the
      attribute key and the SQL column name are read), its attributes and the
      keys the session reports as unmodified. */
  datatype LiveRow = LiveRow(columns: seq<Column>, attrs: map<string, Attr>, unmodified: set<string>)

  ghost predicate RowWellFormed(row: LiveRow) {
    forall i :: 0 <= i < |row.columns| ==> row.columns[i].key in row.attrs
  }

  /** A bind processor turns a value into the form the SQL dialect stores. */
  type Processor = Value -> Value

  /** A SQL dialect, described by the bind processor each column's type has under it. */
  datatype Dialect = Dialect(processors: map<string, Processor>)

  /** The processor for a column: the identity when there is no dialect or the
      column's type has no processor under it. */
  function GetBindProcessor(col: string, dialect: Option<Dialect>): (p: Processor)
    ensures (dialect.None? || col !in dialect.value.processors) ==> forall v :: p(v) == v
    ensures dialect.Some? && col in dialect.value.processors ==> p == dialect.value.processors[col]
  {
    if dialect.Some? && col in dialect.value.processors then dialect.value.processors[col] else v => v
  }

  /** A tuple-valued attribute stands for its first element. */
  function Unwrap(v: Value): (r: Value)
    ensures !v.VTuple? ==> r == v
    ensures v.VTuple? ==> r == v.first
  {
    if v.VTuple? then v.first else v
  }

  /** Reads one attribute. With `useDirty` false and a pending change the read
      gives the value before the change (None when there was none); otherwise
      it gives the present value. Either way the dialect's processor is applied,
      except to the None of an attribute that had no prior value. */
  function GetColumnAttribute(row: LiveRow, col: string, useDirty: bool, dialect: Option<Dialect>): (r: Value)
    requires col in row.attrs
    ensures var h := row.attrs[col].history;
      (useDirty || h.None? || !h.value.HasChanges()) ==>
        r == GetBindProcessor(col, dialect)(Unwrap(row.attrs[col].current))
    ensures var h := row.attrs[col].history;
      (!useDirty && h.Some? && h.value.HasChanges()) ==>
        r == (if |h.value.deleted| > 0 then GetBindProcessor(col, dialect)(h.value.deleted[0]) else VNull)
  {
    var process := GetBindProcessor(col, dialect);
    var hist := row.attrs[col].history;
    if !useDirty && hist.Some? && hist.value.HasChanges() then
      if |hist.value.deleted| > 0 then process(hist.value.deleted[0]) else VNull
    else
      process(Unwrap(row.attrs[col].current))
  }

  /** An attribute without pending changes reads the same in both modes. */
  lemma CleanAttributeReadsAgree(row: LiveRow, col: string, dialect: Option<Dialect>)
    requires col in row.attrs
    requires row.attrs[col].history.None? || !row.attrs[col].history.value.HasChanges()
    ensures GetColumnAttribute(row, col, true, dialect) == GetColumnAttribute(row, col, false, dialect)
  {
  }

  /** Setting an attribute that had a value (history: added [new], deleted [old]):
      the pre-change read gives the old value, the current read the new one. */
  lemma UpdatedAttributeReads(row: LiveRow, col: string, oldV: Value, newV: Value)
    requires col in row.attrs
    requires row.attrs[col] == Attr(newV, Some(History([newV], [], [oldV])))
    ensures GetColumnAttribute(row, col, false, None) == oldV
    ensures GetColumnAttribute(row, col, true, None) == Unwrap(newV)
  {
  }

  /** The keys of the columns that are neither ignored nor reported unmodified. */
  function ModifiedCandidates(row: LiveRow, ignore: set<string>): (s: set<string>)
    ensures forall k :: k in s ==> k !in ignore && k !in row.unmodified
  {
    (set c | c in row.columns && c.key !in ignore :: c.key) - row.unmodified
  }

  /** A row is modified when some candidate column's current value differs from
      its pre-change value. */
  function IsModified(row: LiveRow, ignore: set<string>): (r: bool)
    requires RowWellFormed(row)
    ensures r ==> (exists k :: k in ModifiedCandidates(row, ignore) && k in row.attrs &&
                     row.attrs[k].history.Some? && row.attrs[k].history.value.HasChanges())
  {
    exists k | k in ModifiedCandidates(row, ignore) ::
      k in row.attrs && GetColumnAttribute(row, k, true, None) != GetColumnAttribute(row, k, false, None)
  }

  /** A row none of whose attributes has a pending change is not modified. */
  lemma CleanRowIsNotModified(row: LiveRow, ignore: set<string>)
    requires RowWellFormed(row)
    requires forall k :: k in row.attrs ==> row.attrs[k].history.None? || !row.attrs[k].history.value.HasChanges()
    ensures !IsModified(row, ignore)
  {
  }

  /** A candidate column whose current value differs from its pre-change value makes the row modified. */
  lemma ChangedCandidateMakesModified(row: LiveRow, ignore: set<string>, i: nat)
    requires RowWellFormed(row)
    requires i < |row.columns|
    requires row.columns[i].key !in ignore && row.columns[i].key !in row.unmodified
    requires GetColumnAttribute(row, row.columns[i].key, true, None) != GetColumnAttribute(row, row.columns[i].key, false, None)
    ensures IsModified(row, ignore)
  {
    var k := row.columns[i].key;
    assert k in ModifiedCandidates(row, ignore);
  }

  // ---------------------------------------------------------------------------
  // Change sets
  // ---------------------------------------------------------------------------

  /** The two sides of a reported change: `prev` and `this`. */
  datatype Side = Prev | This

  type Change = map<Side, Value>

  type ChangeMap = map<string, Change>

  /** The change reported for one field: its old value and its new one. */
  function ChangeOf(prev: Value, cur: Value): Change {
    map[Prev := prev, This := cur]
  }

  /** The old payload the change set is taken against: a missing or empty old
      payload stands for "every new key was None". */
  function Baseline(oldD: Option<Payload>, newD: Payload): (b: Payload)
    ensures oldD.None? || oldD.value == map[] ==> b.Keys == newD.Keys && forall k :: k in b ==> b[k] == VNull
    ensures oldD.Some? && oldD.value != map[] ==> b == oldD.value
  {
    if oldD.None? || oldD.value == map[] then map k | k in newD :: VNull else oldD.value
  }

  /** Field-by-field change set: a key present on both sides with equal values
      is left out; every other key of either side is reported with its old
      value as `prev` and its new value as `this`, None standing for a side
      that lacks the key. */
  function FieldChanges(o: Payload, n: Payload): (r: ChangeMap)
    ensures r.Keys <= o.Keys + n.Keys
    ensures forall k :: k in o && k in n && o[k] == n[k] ==> k !in r
    ensures forall k :: k in r ==> r[k].Keys == {Prev, This}
  {
    map k | k in o.Keys + n.Keys && !(k in o && k in n && o[k] == n[k]) ::
      ChangeOf(if k in o then o[k] else VNull, if k in n then n[k] else VNull)
  }

  /** What compare_dicts returns for an old payload (possibly missing) and a new one. */
  function ChangeSet(oldD: Option<Payload>, newD: Payload): (r: ChangeMap)
    ensures forall k :: k in r ==> Prev in r[k] && This in r[k]
    ensures forall k :: k in r ==> r[k][This] == (if k in newD then newD[k] else VNull)
    ensures forall k :: k in r ==> r[k][Prev] == (if oldD.Some? && k in oldD.value then oldD.value[k] else VNull)
  {
    FieldChanges(Baseline(oldD, newD), newD)
  }

  /** The key/value pairs of a payload, as a set. */
  function Items(m: Payload): set<(string, Value)> {
    set k | k in m :: (k, m[k])
  }

  /** The pairs that belong to exactly one of the two payloads. */
  function SymDiff(o: Payload, n: Payload): set<(string, Value)> {
    (Items(o) - Items(n)) + (Items(n) - Items(o))
  }

  function KeysOf(s: set<(string, Value)>): set<string> {
    set p | p in s :: p.0
  }

  /** The entry for key `k` once the pairs in `done` have been processed. */
  ghost function Partial(o: Payload, n: Payload, k: string, done: set<(string, Value)>): Change {
    if k in o && k in n then
      (if (k, o[k]) in done then map[Prev := o[k]] else map[]) +
      (if (k, n[k]) in done then map[This := n[k]] else map[])
    else
      ChangeOf(if k in o then o[k] else VNull, if k in n then n[k] else VNull)
  }

  lemma ItemsMember(m: Payload, k: string, v: Value)
    ensures (k, v) in Items(m) <==> k in m && m[k] == v
  {
    if k in m && m[k] == v {
      assert (k, m[k]) in Items(m);
    }
  }

  lemma SymDiffMember(o: Payload, n: Payload, k: string, v: Value)
    ensures (k, v) in SymDiff(o, n) <==>
      ((k in o && o[k] == v) || (k in n && n[k] == v)) && !(k in o && o[k] == v && k in n && n[k] == v)
  {
    ItemsMember(o, k, v);
    ItemsMember(n, k, v);
  }

  /** The keys touched by the symmetric difference are the keys of the field-by-field change set. */
  lemma KeysOfSymDiff(o: Payload, n: Payload)
    ensures KeysOf(SymDiff(o, n)) == FieldChanges(o, n).Keys
  {
    var f := FieldChanges(o, n);
    forall k | k in f
      ensures k in KeysOf(SymDiff(o, n))
    {
      var v := if k in n then n[k] else o[k];
      SymDiffMember(o, n, k, v);
      assert (k, v) in SymDiff(o, n);
    }
    forall k | k in KeysOf(SymDiff(o, n))
      ensures k in f
    {
      var p :| p in SymDiff(o, n) && p.0 == k;
      SymDiffMember(o, n, k, p.1);
    }
  }

  /** With every pair processed, a touched key's partial entry is its full entry. */
  lemma PartialComplete(o: Payload, n: Payload, k: string)
    requires k in FieldChanges(o, n)
    ensures Partial(o, n, k, SymDiff(o, n)) == FieldChanges(o, n)[k]
  {
    if k in o && k in n {
      SymDiffMember(o, n, k, o[k]);
      SymDiffMember(o, n, k, n[k]);
    }
  }

  /** Processing one more pair fills one side of that pair's key and leaves every other key alone. */
  lemma PairStep(o: Payload, n: Payload, done: set<(string, Value)>, k: string, v: Value)
    requires (k, v) in SymDiff(o, n) && (k, v) !in done
    ensures k in o || k in n
    ensures k in o && k in n ==> o[k] != n[k]
    ensures k in o && k in n && k !in KeysOf(done) ==> Partial(o, n, k, done) == map[]
    ensures k in o && k in n && (k, v) in Items(n) ==>
      v == n[k] && Partial(o, n, k, done + {(k, v)}) == Partial(o, n, k, done)[This := v]
    ensures k in o && k in n && (k, v) !in Items(n) ==>
      v == o[k] && Partial(o, n, k, done + {(k, v)}) == Partial(o, n, k, done)[Prev := v]
    ensures k in n && k !in o ==> Partial(o, n, k, done + {(k, v)}) == ChangeOf(VNull, v)
    ensures k !in n ==> Partial(o, n, k, done + {(k, v)}) == ChangeOf(v, VNull)
    ensures forall k' :: k' != k ==> Partial(o, n, k', done + {(k, v)}) == Partial(o, n, k', done)
  {
    SymDiffMember(o, n, k, v);
    ItemsMember(n, k, v);
    forall p | p in done
      ensures p.0 in KeysOf(done)
    {
    }
  }

  /** `changes` holds, for each key touched by the pairs in `done`, that key's partial entry. */
  ghost predicate Tracks(o: Payload, n: Payload, changes: ChangeMap, done: set<(string, Value)>) {
    && changes.Keys == KeysOf(done)
    && forall k :: k in changes ==> changes[k] == Partial(o, n, k, done)
  }

  /** One iteration of compare_dicts's pair loop keeps `Tracks`. */
  lemma TrackStep(o: Payload, n: Payload, changes: ChangeMap, changes': ChangeMap,
                  done: set<(string, Value)>, k: string, v: Value)
    requires Tracks(o, n, changes, done)
    requires (k, v) in SymDiff(o, n) && (k, v) !in done
    requires changes'.Keys == changes.Keys + {k}
    requires forall k' :: k' in changes && k' != k ==> changes'[k'] == changes[k']
    requires var start := if k in changes then changes[k] else map[];
      changes'[k] ==
        if k in n && k in o then start[(if (k, v) in Items(n) then This else Prev) := v]
        else if k in n then start[Prev := VNull][This := v]
        else start[Prev := v][This := VNull]
    ensures Tracks(o, n, changes', done + {(k, v)})
  {
    PairStep(o, n, done, k, v);
    assert KeysOf(done + {(k, v)}) == KeysOf(done) + {k};
  }

  /** The loop of compare_dicts that stands in for a missing old payload: every
      key of the new payload, mapped to None. */
  method AllNone(newD: Payload) returns (o: Payload)
    ensures o == Baseline(None, newD)
  {
    o := map[];
    var pending := newD.Keys;
    while pending != {}
      invariant pending <= newD.Keys
      invariant o.Keys == newD.Keys - pending
      invariant forall k :: k in o ==> o[k] == VNull
      decreases pending
    {
      var k :| k in pending;
      o := o[k := VNull];
      pending := pending - {k};
    }
  }

  /** Once every pair is processed, the tracked entries are the field-by-field change set. */
  lemma TracksAllIsFieldChanges(o: Payload, n: Payload, changes: ChangeMap)
    requires Tracks(o, n, changes, SymDiff(o, n))
    ensures changes == FieldChanges(o, n)
  {
    KeysOfSymDiff(o, n);
    forall k | k in changes
      ensures changes[k] == FieldChanges(o, n)[k]
    {
      PartialComplete(o, n, k);
    }
  }

  /** compare_dicts: rebuilds a missing or empty old payload as all-None, then
      collects the changes pair by pair. The result is the field-by-field change set. */
  method CompareDicts(oldD: Option<Payload>, newD: Payload) returns (changes: ChangeMap)
    ensures changes == ChangeSet(oldD, newD)
  {
    var o: Payload;
    if oldD.None? || oldD.value == map[] {
      o := AllNone(newD);
    } else {
      o := oldD.value;
    }
    changes := CollectChanges(o, newD);
  }

  /** The pair loop of compare_dicts: walks the symmetric difference of the two
      item sets, filling one side of a key's entry per pair (both sides at once
      for a key found on one side only). */
  method CollectChanges(o: Payload, newD: Payload) returns (changes: ChangeMap)
    ensures changes == FieldChanges(o, newD)
  {
    var changed := SymDiff(o, newD);
    var todo := changed;
    changes := map[];
    while todo != {}
      invariant todo <= changed
      invariant Tracks(o, newD, changes, changed - todo)
      decreases todo
    {
      var pair :| pair in todo;
      var k, v := pair.0, pair.1;
      ghost var done, before := changed - todo, changes;
      if k !in changes {
        changes := changes[k := map[]];
      }
      if k in newD {
        if k in o {
          var side := if pair in Items(newD) then This else Prev;
          changes := changes[k := changes[k][side := v]];
        } else {
          changes := changes[k := changes[k][Prev := VNull][This := v]];
        }
      } else if k in o {
        changes := changes[k := changes[k][Prev := v][This := VNull]];
      }
      TrackStep(o, newD, before, changes, done, k, v);
      todo := todo - {pair};
      assert changed - todo == done + {pair};
    }
    TracksAllIsFieldChanges(o, newD, changes);
  }

  /** A key in both payloads is reported exactly when its values differ, with
      the new value as `this` and the old one as `prev`; a key on one side only
      is always reported, the missing side as None; no other key is reported. */
  lemma ChangeSetEntry(o: Payload, n: Payload, k: string)
    requires o != map[]
    ensures k in ChangeSet(Some(o), n) <==> (k in o || k in n) && !(k in o && k in n && o[k] == n[k])
    ensures k in o && k in n && o[k] != n[k] ==> ChangeSet(Some(o), n)[k] == map[This := n[k], Prev := o[k]]
    ensures k in n && k !in o ==> ChangeSet(Some(o), n)[k] == map[Prev := VNull, This := n[k]]
    ensures k in o && k !in n ==> ChangeSet(Some(o), n)[k] == map[Prev := o[k], This := VNull]
  {
  }

  /** Identical payloads give an empty change set. */
  lemma ChangeSetOfIdentical(m: Payload)
    ensures ChangeSet(Some(m), m) == map[]
  {
  }

  /** For a non-empty old payload, the change set is empty exactly when the payloads are equal. */
  lemma ChangeSetEmptyIff(o: Payload, n: Payload)
    requires o != map[]
    ensures ChangeSet(Some(o), n) == map[] <==> o == n
  {
    if ChangeSet(Some(o), n) == map[] {
      forall k | k in o.Keys + n.Keys
        ensures k in o && k in n && o[k] == n[k]
      {
        assert k !in ChangeSet(Some(o), n);
      }
    }
  }

  /** Against a missing (or empty) old payload every new key counts as
      previously None: keys whose new value is None are left out, all others
      are reported with `prev` None. */
  lemma ChangeSetFromNothing(n: Payload)
    ensures ChangeSet(None, n) == ChangeSet(Some(map[]), n)
    ensures ChangeSet(None, n).Keys == set k | k in n && n[k] != VNull
    ensures forall k :: k in ChangeSet(None, n) ==> ChangeSet(None, n)[k] == map[Prev := VNull, This := n[k]]
  {
  }

  /** Swapping two non-empty payloads reports the same keys with the sides swapped. */
  lemma ChangeSetSymmetric(a: Payload, b: Payload, k: string)
    requires a != map[] && b != map[]
    ensures k in ChangeSet(Some(a), b) <==> k in ChangeSet(Some(b), a)
    ensures k in ChangeSet(Some(a), b) ==>
      ChangeSet(Some(a), b)[k][Prev] == ChangeSet(Some(b), a)[k][This] &&
      ChangeSet(Some(a), b)[k][This] == ChangeSet(Some(b), a)[k][Prev]
  {
  }

  /** The reported keys come from the two payloads, and each entry has both sides. */
  lemma ChangeSetKeysFromPayloads(oldD: Option<Payload>, n: Payload)
    ensures ChangeSet(oldD, n).Keys <= n.Keys + (if oldD.Some? then oldD.value.Keys else {})
    ensures forall k :: k in ChangeSet(oldD, n) ==> ChangeSet(oldD, n)[k].Keys == {Prev, This}
  {
  }

  // ---------------------------------------------------------------------------
  // Row diffs
  // ---------------------------------------------------------------------------

  /** The diff of two archive rows, as compare_rows returns it. */
  datatype RowDiff = RowDiff(
    prevVersion: Value,
    newVersion: Value,
    prevUserId: Value,
    newUserId: Value,
    prevDeleted: Value,
    newDeleted: Value,
    prevUpdatedAt: Value,
    newUpdatedAt: Value,
    change: ChangeMap)

  /** The diff of an archive row against its predecessor (None for the first
      version): every `prev` field is None when there is no predecessor, and
      the change set is taken between the two payloads. This reads the log's
      own deletion flag and timestamp columns (see CompareRowsAsWritten). */
  function CompareRows(oldR: Option<Entry>, newR: Entry): (d: RowDiff)
    ensures oldR.None? ==> d.prevVersion == VNull && d.prevUserId == VNull && d.prevDeleted == VNull && d.prevUpdatedAt == VNull
    ensures oldR.Some? ==> (d.prevVersion == VInt(oldR.value.version) && d.prevUserId == oldR.value.userId
                            && d.prevDeleted == VBool(oldR.value.deleted) && d.prevUpdatedAt == VTime(oldR.value.updatedAt))
    ensures d.newVersion == VInt(newR.version) && d.newUserId == newR.userId
      && d.newDeleted == VBool(newR.deleted) && d.newUpdatedAt == VTime(newR.updatedAt)
    ensures d.change == ChangeSet(if oldR.Some? then Some(oldR.value.data) else None, newR.data)
  {
    match oldR
    case None =>
      RowDiff(VNull, VInt(newR.version), VNull, newR.userId, VNull, VBool(newR.deleted), VNull, VTime(newR.updatedAt),
              ChangeSet(None, newR.data))
    case Some(o) =>
      RowDiff(VInt(o.version), VInt(newR.version), o.userId, newR.userId, VBool(o.deleted), VBool(newR.deleted),
              VTime(o.updatedAt), VTime(newR.updatedAt), ChangeSet(Some(o.data), newR.data))
  }

  /** The first version's diff reports every non-None payload field as new. */
  lemma FirstVersionDiff(e: Entry)
    ensures CompareRows(None, e).change.Keys == set k | k in e.data && e.data[k] != VNull
    ensures forall k :: k in CompareRows(None, e).change ==> CompareRows(None, e).change[k] == map[Prev := VNull, This := e.data[k]]
  {
    ChangeSetFromNothing(e.data);
  }

  /** Two rows with identical payloads have an empty change set. */
  lemma IdenticalPayloadsDiffEmpty(a: Entry, b: Entry)
    requires a.data == b.data
    ensures CompareRows(Some(a), b).change == map[]
  {
    ChangeSetOfIdentical(a.data);
  }

  /** An archive row as the select hands it back, without its payload column. */
  function RowColumns(e: Entry): (m: Payload)
    ensures "va_version" in m && "user_id" in m && "va_deleted" in m && "va_updated_at" in m && "va_id" in m
    ensures forall c :: c in m ==> c in e.ident || c in {"va_id", "va_version", "va_deleted", "va_updated_at", "user_id"}
  {
    e.ident + map["va_id" := VInt(e.vaId), "va_version" := VInt(e.version), "va_deleted" := VBool(e.deleted),
                  "va_updated_at" := VTime(e.updatedAt), "user_id" := e.userId]
  }

  /** compare_rows as written: it reads the keys `deleted` and `updated_at`,
      which an archive row only has when they happen to be version columns;
      the log's own columns are `va_deleted` and `va_updated_at`. */
  function CompareRowsAsWritten(oldR: Option<Entry>, newR: Entry): (r: Result<RowDiff, Error>)
    ensures r.Ok? ==> "deleted" in newR.ident && "updated_at" in newR.ident
  {
    var n := RowColumns(newR);
    var o := if oldR.None? then map k | k in n :: VNull else RowColumns(oldR.value);
    if "deleted" !in o || "deleted" !in n then Err(KeyError("deleted"))
    else if "updated_at" !in o || "updated_at" !in n then Err(KeyError("updated_at"))
    else Ok(RowDiff(o["va_version"], n["va_version"], o["user_id"], n["user_id"], o["deleted"], n["deleted"],
                    o["updated_at"], n["updated_at"],
                    ChangeSet(if oldR.Some? then Some(oldR.value.data) else None, newR.data)))
  }

  /** Any row whose version columns do not include `deleted` makes compare_rows
      as written fail, with or without a predecessor. */
  lemma CompareRowsAsWrittenMissesDeleted(oldR: Option<Entry>, newR: Entry)
    requires "deleted" !in newR.ident
    requires oldR.Some? ==> "deleted" !in oldR.value.ident
    ensures CompareRowsAsWritten(oldR, newR) == Err(KeyError("deleted"))
  {
  }

  // ---------------------------------------------------------------------------
  // Result rows
  // ---------------------------------------------------------------------------

  /** dict(zip(keys, row)): pairs keys with values up to the shorter of the two;
      a later duplicate key overrides an earlier one. */
  function ZipDict(keys: seq<string>, row: seq<Value>): (d: Payload)
    ensures d.Keys == set i | 0 <= i < |keys| && i < |row| :: keys[i]
  {
    if |keys| == 0 || |row| == 0 then map[]
    else map[keys[0] := row[0]] + ZipDict(keys[1..], row[1..])
  }

  /** With distinct keys, each key maps to the value in its own position. */
  lemma {:induction false} ZipDictAt(keys: seq<string>, row: seq<Value>, i: nat)
    requires forall a, b :: 0 <= a < b < |keys| ==> keys[a] != keys[b]
    requires i < |keys| && i < |row|
    ensures ZipDict(keys, row)[keys[i]] == row[i]
  {
    if i > 0 {
      ZipDictAt(keys[1..], row[1..], i - 1);
      assert keys[1..][i - 1] == keys[i];
    }
  }

  /** result_to_dict: one map per fetched row, in fetch order. */
  function ResultToDict(keys: seq<string>, rows: seq<seq<Value>>): (r: seq<Payload>)
    ensures |r| == |rows|
    ensures forall j :: 0 <= j < |rows| ==> r[j] == ZipDict(keys, rows[j])
  {
    if rows == [] then [] else [ZipDict(keys, rows[0])] + ResultToDict(keys, rows[1..])
  }

  /** Each map of result_to_dict gives every column key its value in that row. */
  lemma ResultToDictAt(keys: seq<string>, rows: seq<seq<Value>>, j: nat, i: nat)
    requires forall a, b :: 0 <= a < b < |keys| ==> keys[a] != keys[b]
    requires j < |rows| && i < |keys| && |rows[j]| == |keys|
    ensures keys[i] in ResultToDict(keys, rows)[j]
    ensures ResultToDict(keys, rows)[j][keys[i]] == rows[j][i]
  {
    ZipDictAt(keys, rows[j], i);
  }
}
