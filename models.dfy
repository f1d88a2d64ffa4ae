/**
  Version numbering and snapshot assembly: the maximum version recorded for an
  identity, the next version to assign, the projection of a live row into a
  payload, and the archive row built from them. The lemmas at the end show
  that appending rows built this way keeps every identity's versions exactly
  0, 1, ..., n-1.
 */
module Models {
  import opened Types
  import opened Utils

  // ---------------------------------------------------------------------------
  // Identity matching
  // ---------------------------------------------------------------------------

  /** An archive row matches an identity when it agrees with it on every identity column. */
  predicate Matches(e: Entry, key: Payload) {
    forall c :: c in key ==> c in e.ident && e.ident[c] == key[c]
  }

  /** The rows of the log that match an identity, in log order. */
  function Matching(log: seq<Entry>, key: Payload): (h: seq<Entry>)
    ensures |h| <= |log|
    ensures forall j :: 0 <= j < |h| ==> Matches(h[j], key)
  {
    if log == [] then []
    else Matching(log[..|log| - 1], key) + (if Matches(log[|log| - 1], key) then [log[|log| - 1]] else [])
  }

  /** Matching is the filter of the log by the identity: its rows sit in the
      log at strictly increasing positions, and every matching position of the
      log is among them, so no matching row is dropped and the order is kept. */
  lemma {:induction false} MatchingPositions(log: seq<Entry>, key: Payload) returns (pos: seq<nat>)
    ensures |pos| == |Matching(log, key)|
    ensures forall j :: 0 <= j < |pos| ==> pos[j] < |log| && log[pos[j]] == Matching(log, key)[j]
    ensures forall a, b :: 0 <= a < b < |pos| ==> pos[a] < pos[b]
    ensures forall j :: 0 <= j < |log| && Matches(log[j], key) ==> j in pos
  {
    if log == [] {
      pos := [];
    } else {
      var front := log[..|log| - 1];
      var fp := MatchingPositions(front, key);
      assert forall j :: 0 <= j < |front| ==> front[j] == log[j];
      if Matches(log[|log| - 1], key) {
        pos := fp + [|log| - 1];
      } else {
        pos := fp;
      }
    }
  }

  /** Every row of the log that matches an identity is in its history. */
  lemma MatchingComplete(log: seq<Entry>, key: Payload, j: nat)
    requires j < |log| && Matches(log[j], key)
    ensures log[j] in Matching(log, key)
  {
    var pos := MatchingPositions(log, key);
    var k :| 0 <= k < |pos| && pos[k] == j;
    assert Matching(log, key)[k] == log[j];
  }

  // ---------------------------------------------------------------------------
  // Version numbering
  // ---------------------------------------------------------------------------

  /** SELECT max(va_version) over the rows matching an identity: None when no row matches. */
  function MaxVersion(log: seq<Entry>, key: Payload): (r: Option<int>)
    ensures r.None? <==> Matching(log, key) == []
  {
    if log == [] then None
    else
      var rest := MaxVersion(log[..|log| - 1], key);
      var last := log[|log| - 1];
      if !Matches(last, key) then rest
      else if rest.Some? && rest.value >= last.version then rest
      else Some(last.version)
  }

  /** MaxVersion is None exactly when no row matches, and otherwise the
      version of some matching row that no matching row exceeds. */
  lemma {:induction false} MaxVersionIsMaximum(log: seq<Entry>, key: Payload)
    ensures MaxVersion(log, key).None? <==> forall j :: 0 <= j < |log| ==> !Matches(log[j], key)
    ensures MaxVersion(log, key).Some? ==>
      exists j :: 0 <= j < |log| && Matches(log[j], key) && log[j].version == MaxVersion(log, key).value
    ensures MaxVersion(log, key).Some? ==>
      forall j :: 0 <= j < |log| && Matches(log[j], key) ==> log[j].version <= MaxVersion(log, key).value
  {
    if log != [] {
      var front := log[..|log| - 1];
      MaxVersionIsMaximum(front, key);
      assert forall j :: 0 <= j < |front| ==> front[j] == log[j];
      var r := MaxVersion(log, key);
      if r.Some? && r == MaxVersion(front, key) {
        var j :| 0 <= j < |front| && Matches(front[j], key) && front[j].version == r.value;
        assert log[j] == front[j];
      }
    }
  }

  /** The identity of a live row: each version column read in the given mode. */
  function RowIdentity(row: LiveRow, cols: set<string>, useDirty: bool): (key: Payload)
    requires cols <= row.attrs.Keys
    ensures key.Keys == cols
    ensures forall c :: c in cols ==> key[c] == GetColumnAttribute(row, c, useDirty, None)
  {
    map c | c in cols :: GetColumnAttribute(row, c, useDirty, None)
  }

  /** _latest_version: the maximum version recorded for the row's identity, read in the given mode. */
  function LatestVersion(log: seq<Entry>, cols: set<string>, row: LiveRow, useDirty: bool): (r: Option<int>)
    requires cols <= row.attrs.Keys
    ensures r.None? <==> forall j :: 0 <= j < |log| ==> !Matches(log[j], RowIdentity(row, cols, useDirty))
    ensures r.Some? ==> forall j :: 0 <= j < |log| && Matches(log[j], RowIdentity(row, cols, useDirty)) ==> log[j].version <= r.value
  {
    MaxVersionIsMaximum(log, RowIdentity(row, cols, useDirty));
    MaxVersion(log, RowIdentity(row, cols, useDirty))
  }

  /** The version build_row_dict assigns: 0 for an identity without history,
      otherwise one more than the largest recorded version. */
  function NextVersion(log: seq<Entry>, key: Payload): (v: int)
    ensures v == 0 <==> MaxVersion(log, key).None? || MaxVersion(log, key).value == -1
    ensures forall j :: 0 <= j < |log| && Matches(log[j], key) ==> log[j].version < v
  {
    MaxVersionIsMaximum(log, key);
    match MaxVersion(log, key)
    case None => 0
    case Some(m) => m + 1
  }

  // ---------------------------------------------------------------------------
  // Projection and snapshot assembly
  // ---------------------------------------------------------------------------

  /** The projection of a prefix of the mapped columns: each column that is not
      ignored, under its column name, read in the given mode through the dialect. */
  function Project(row: LiveRow, cols: seq<Column>, ignore: set<string>, dialect: Option<Dialect>, useDirty: bool): (d: Payload)
    requires forall i :: 0 <= i < |cols| ==> cols[i].key in row.attrs
    ensures d.Keys == set i | 0 <= i < |cols| && cols[i].key !in ignore :: cols[i].name
  {
    if cols == [] then map[]
    else
      var d := Project(row, cols[..|cols| - 1], ignore, dialect, useDirty);
      var c := cols[|cols| - 1];
      if c.key in ignore then d
      else d[c.name := GetColumnAttribute(row, c.key, useDirty, dialect)]
  }

  /** _to_dict: the payload of a live row. */
  function ToDict(row: LiveRow, ignore: set<string>, dialect: Option<Dialect>, useDirty: bool): (d: Payload)
    requires RowWellFormed(row)
    ensures d.Keys == set i | 0 <= i < |row.columns| && row.columns[i].key !in ignore :: row.columns[i].name
  {
    Project(row, row.columns, ignore, dialect, useDirty)
  }

  /** With distinct column names, each non-ignored column's payload value is its attribute read. */
  lemma {:induction false} ProjectAt(row: LiveRow, cols: seq<Column>, ignore: set<string>, dialect: Option<Dialect>,
                                     useDirty: bool, i: nat)
    requires forall j :: 0 <= j < |cols| ==> cols[j].key in row.attrs
    requires forall a, b :: 0 <= a < b < |cols| ==> cols[a].name != cols[b].name
    requires i < |cols| && cols[i].key !in ignore
    ensures cols[i].name in Project(row, cols, ignore, dialect, useDirty)
    ensures Project(row, cols, ignore, dialect, useDirty)[cols[i].name] == GetColumnAttribute(row, cols[i].key, useDirty, dialect)
  {
    if i < |cols| - 1 {
      ProjectAt(row, cols[..|cols| - 1], ignore, dialect, useDirty, i);
    }
  }

  /** A column whose key is ignored contributes nothing: with `va_id` ignored
      (as registration arranges) and named after its key, it never reaches the payload. */
  lemma IgnoredColumnNotProjected(row: LiveRow, ignore: set<string>, dialect: Option<Dialect>, useDirty: bool, name: string)
    requires RowWellFormed(row)
    requires forall i :: 0 <= i < |row.columns| && row.columns[i].name == name ==> row.columns[i].key in ignore
    ensures name !in ToDict(row, ignore, dialect, useDirty)
  {
  }

  /** What build_row_dict returns: an archive row not yet inserted (no `va_id`),
      with `user_id` present only when one was given. */
  datatype NewEntry = NewEntry(
    version: int,
    ident: Payload,
    userId: Option<Value>,
    deleted: bool,
    updatedAt: int,
    data: Payload)

  /** build_row_dict: the version is computed against the same identity that
      the row stores; every version column is copied from the live row; the
      payload is the projection without the ignored columns; `now` stands for
      the clock. */
  function BuildRowDict(log: seq<Entry>, cols: set<string>, ignore: set<string>, row: LiveRow, dialect: Option<Dialect>,
                        deleted: bool, userId: Value, useDirty: bool, now: int): (r: NewEntry)
    requires RowWellFormed(row) && cols <= row.attrs.Keys
    ensures r.version == NextVersion(log, r.ident)
    ensures r.version == 0 <==> LatestVersion(log, cols, row, useDirty).None? || LatestVersion(log, cols, row, useDirty).value == -1
    ensures r.ident.Keys == cols
    ensures forall c :: c in cols ==> r.ident[c] == GetColumnAttribute(row, c, useDirty, None)
    ensures r.userId.Some? <==> userId != VNull
    ensures r.userId.Some? ==> r.userId.value == userId
    ensures r.deleted == deleted && r.updatedAt == now
    ensures r.data == ToDict(row, ignore, dialect, useDirty)
  {
    var ident := RowIdentity(row, cols, useDirty);
    NewEntry(
      NextVersion(log, ident),
      ident,
      if userId != VNull then Some(userId) else None,
      deleted,
      now,
      ToDict(row, ignore, dialect, useDirty))
  }

  /** The archive row the store records for a built row: the store assigns
      `va_id`, and an absent `user_id` is stored as NULL. */
  function Insert(n: NewEntry, vaId: int): (e: Entry)
    ensures e.vaId == vaId && e.version == n.version && e.ident == n.ident && e.data == n.data
    ensures e.userId == n.userId.GetOr(VNull)
  {
    Entry(vaId, n.version, n.ident, n.userId.GetOr(VNull), n.deleted, n.updatedAt, n.data)
  }

  // ---------------------------------------------------------------------------
  // Log invariants
  // ---------------------------------------------------------------------------

  /** `va_id` strictly increases along the log. */
  ghost predicate IdsAscending(log: seq<Entry>) {
    forall i, j :: 0 <= i < j < |log| ==> log[i].vaId < log[j].vaId
  }

  /** Every archive row carries exactly the version columns. */
  ghost predicate HasIdentity(log: seq<Entry>, cols: set<string>) {
    forall i :: 0 <= i < |log| ==> log[i].ident.Keys == cols
  }

  /** Each row's version is the number of earlier rows of the same identity. */
  ghost predicate GapFree(log: seq<Entry>) {
    forall i :: 0 <= i < |log| ==> log[i].version == |Matching(log[..i], log[i].ident)|
  }

  ghost predicate ValidLog(log: seq<Entry>, cols: set<string>) {
    IdsAscending(log) && HasIdentity(log, cols) && GapFree(log)
  }

  /** Over the version columns, matching an identity is equality with it. */
  lemma MatchesIsEquality(e: Entry, key: Payload, cols: set<string>)
    requires e.ident.Keys == cols && key.Keys == cols
    ensures Matches(e, key) <==> e.ident == key
  {
  }

  lemma ValidLogPrefix(log: seq<Entry>, cols: set<string>, n: nat)
    requires ValidLog(log, cols) && n <= |log|
    ensures ValidLog(log[..n], cols)
  {
    forall i | 0 <= i < n
      ensures log[..n][i].version == |Matching(log[..n][..i], log[..n][i].ident)|
    {
      assert log[..n][..i] == log[..i];
    }
  }

  /** In a valid log, the rows of one identity carry versions 0, 1, ..., n-1 in log order. */
  lemma {:induction false} VersionsAreConsecutive(log: seq<Entry>, cols: set<string>, key: Payload)
    requires ValidLog(log, cols) && key.Keys == cols
    ensures forall j :: 0 <= j < |Matching(log, key)| ==> Matching(log, key)[j].version == j
  {
    if log != [] {
      var front := log[..|log| - 1];
      var last := log[|log| - 1];
      ValidLogPrefix(log, cols, |log| - 1);
      VersionsAreConsecutive(front, cols, key);
      if Matches(last, key) {
        MatchesIsEquality(last, key, cols);
        assert last.version == |Matching(front, key)|;
      }
    }
  }

  /** When an identity's rows carry versions 0, 1, ..., n-1, its maximum version is n-1 (None for n = 0). */
  lemma MaxVersionOfConsecutive(log: seq<Entry>, key: Payload)
    requires forall j :: 0 <= j < |Matching(log, key)| ==> Matching(log, key)[j].version == j
    ensures MaxVersion(log, key) == if |Matching(log, key)| == 0 then None else Some(|Matching(log, key)| - 1)
  {
    var h := Matching(log, key);
    var pos := MatchingPositions(log, key);
    MaxVersionIsMaximum(log, key);
    if h != [] {
      assert log[pos[|h| - 1]] == h[|h| - 1];
      var m := MaxVersion(log, key).value;
      var j :| 0 <= j < |log| && Matches(log[j], key) && log[j].version == m;
      assert j in pos;
      var k :| 0 <= k < |pos| && pos[k] == j;
      assert h[k] == log[j];
    }
  }

  /** In a valid log, the largest recorded version of an identity is one less than its row count. */
  lemma MaxVersionCountsHistory(log: seq<Entry>, cols: set<string>, key: Payload)
    requires ValidLog(log, cols) && key.Keys == cols
    ensures MaxVersion(log, key) == if |Matching(log, key)| == 0 then None else Some(|Matching(log, key)| - 1)
  {
    VersionsAreConsecutive(log, cols, key);
    MaxVersionOfConsecutive(log, key);
  }

  /** In a valid log, the next version of an identity is the number of rows it already has. */
  lemma NextVersionIsHistoryLength(log: seq<Entry>, cols: set<string>, key: Payload)
    requires ValidLog(log, cols) && key.Keys == cols
    ensures NextVersion(log, key) == |Matching(log, key)|
  {
    MaxVersionCountsHistory(log, cols, key);
  }

  /** Appending a row whose version is the next version of its identity, with
      a fresh larger `va_id`, keeps the log valid. */
  lemma AppendKeepsLogValid(log: seq<Entry>, cols: set<string>, e: Entry)
    requires ValidLog(log, cols)
    requires e.ident.Keys == cols && e.version == NextVersion(log, e.ident)
    requires forall j :: 0 <= j < |log| ==> log[j].vaId < e.vaId
    ensures ValidLog(log + [e], cols)
  {
    var log' := log + [e];
    NextVersionIsHistoryLength(log, cols, e.ident);
    forall i | 0 <= i < |log'|
      ensures log'[i].version == |Matching(log'[..i], log'[i].ident)|
    {
      if i < |log| {
        assert log'[..i] == log[..i];
        assert log'[i] == log[i];
      } else {
        assert log'[..i] == log;
      }
    }
  }

  /** Appending a row built by build_row_dict against the current log keeps
      the log valid: the new row's version is its identity's row count, so
      every identity's versions stay 0..n-1, and other identities are unaffected. */
  lemma AppendBuiltRowKeepsLogValid(log: seq<Entry>, cols: set<string>, ignore: set<string>, row: LiveRow,
                                    dialect: Option<Dialect>, deleted: bool, userId: Value, useDirty: bool,
                                    now: int, vaId: int)
    requires ValidLog(log, cols)
    requires RowWellFormed(row) && cols <= row.attrs.Keys
    requires forall j :: 0 <= j < |log| ==> log[j].vaId < vaId
    ensures ValidLog(log + [Insert(BuildRowDict(log, cols, ignore, row, dialect, deleted, userId, useDirty, now), vaId)], cols)
  {
    var n := BuildRowDict(log, cols, ignore, row, dialect, deleted, userId, useDirty, now);
    AppendKeepsLogValid(log, cols, Insert(n, vaId));
  }

  /** A row's version equals its position among the rows of its identity, and
      so the history of an identity after n appended writes is versions 0..n-1. */
  lemma HistoryAfterAppend(log: seq<Entry>, cols: set<string>, e: Entry, key: Payload)
    requires ValidLog(log + [e], cols) && key.Keys == cols && e.ident == key
    ensures Matching(log + [e], key) == Matching(log, key) + [e]
    ensures e.version == |Matching(log, key)|
  {
    assert (log + [e])[..|log|] == log;
  }
}
