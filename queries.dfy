/**
  The read-only query layer over the archive log: the identity filter, the
  version list of an identity, one version by `va_version` or `va_id`, every
  version with its payload, and the diff of a version against the one before
  it. Rows come back in log order, which is `va_id` order.
 */
module Queries {
  import opened Types
  import opened Utils
  import opened Models

  // ---------------------------------------------------------------------------
  // Identity filter
  // ---------------------------------------------------------------------------

  /** create_log_select_expression: the filter on every version column, as the
      identity it selects. A missing version column is a LogIdentifyError;
      attributes that are not version columns are ignored. The filter is the
      conjunction of the per-column equalities (see the as-written variant). */
  function CreateLogSelectExpression(cols: set<string>, attrs: Payload): (r: Result<Payload, Error>)
    ensures !(cols <= attrs.Keys) ==> r == Err(LogIdentifyError)
    ensures cols <= attrs.Keys && cols == {} ==> r == Err(IndexError)
    ensures cols <= attrs.Keys && cols != {} ==>
      r.Ok? && r.value.Keys == cols && forall c :: c in cols ==> r.value[c] == attrs[c]
  {
    if !(cols <= attrs.Keys) then Err(LogIdentifyError)
    else if cols == {} then Err(IndexError)
    else Ok(map c | c in cols :: attrs[c])
  }

  /** The filter as written: after the missing-column check, more than one
      version column reaches `operator.and_` with a single tuple argument,
      which raises TypeError. */
  function CreateLogSelectExpressionAsWritten(cols: set<string>, attrs: Payload): (r: Result<Payload, Error>)
    ensures r.Ok? ==> |cols| == 1
  {
    if !(cols <= attrs.Keys) then Err(LogIdentifyError)
    else if cols == {} then Err(IndexError)
    else if |cols| > 1 then Err(TypeError)
    else Ok(map c | c in cols :: attrs[c])
  }

  /** As written, every fully supplied composite identity is refused, while the
      corrected filter accepts it. */
  lemma CompositeIdentityRejectedAsWritten(cols: set<string>, attrs: Payload)
    requires cols <= attrs.Keys && |cols| >= 2
    ensures CreateLogSelectExpressionAsWritten(cols, attrs) == Err(TypeError)
    ensures CreateLogSelectExpression(cols, attrs).Ok?
  {
  }

  /** A concrete composite identity: two version columns, both given. */
  lemma CompositeIdentityExample()
    ensures CreateLogSelectExpressionAsWritten({"product_id", "region"},
              map["product_id" := VInt(10), "region" := VStr("eu")]) == Err(TypeError)
  {
    var cols := {"product_id", "region"};
    assert "product_id" in cols && "region" in cols && "product_id" != "region";
    assert |cols| == 2;
  }

  /** With a single version column both variants agree. */
  lemma SingleColumnVariantsAgree(col: string, attrs: Payload)
    ensures CreateLogSelectExpressionAsWritten({col}, attrs) == CreateLogSelectExpression({col}, attrs)
  {
  }

  /** A row passes the corrected filter exactly when it equals the supplied
      attributes on every version column. */
  lemma SelectMatchesConjunction(cols: set<string>, attrs: Payload, e: Entry)
    requires CreateLogSelectExpression(cols, attrs).Ok?
    ensures Matches(e, CreateLogSelectExpression(cols, attrs).value) <==>
      forall c :: c in cols ==> c in e.ident && e.ident[c] == attrs[c]
  {
  }

  /** Two attribute maps that agree on the version columns give the same filter. */
  lemma SelectIgnoresOtherAttributes(cols: set<string>, a: Payload, b: Payload)
    requires cols <= a.Keys && cols <= b.Keys
    requires forall c :: c in cols ==> a[c] == b[c]
    ensures CreateLogSelectExpression(cols, a) == CreateLogSelectExpression(cols, b)
  {
    assert (map c | c in cols :: a[c]) == (map c | c in cols :: b[c]);
  }

  // ---------------------------------------------------------------------------
  // Listing
  // ---------------------------------------------------------------------------

  /** One element of va_list_by_pk: the log id, the actor and the version. */
  datatype ListItem = ListItem(vaId: int, userId: Value, version: int)

  function Summaries(h: seq<Entry>): (r: seq<ListItem>)
    ensures |r| == |h|
    ensures forall j :: 0 <= j < |h| ==> r[j] == ListItem(h[j].vaId, h[j].userId, h[j].version)
  {
    seq(|h|, j requires 0 <= j < |h| => ListItem(h[j].vaId, h[j].userId, h[j].version))
  }

  /** va_list_by_pk: the log id, actor and version of every row of the identity, in log order. */
  function VaListByPk(log: seq<Entry>, cols: set<string>, attrs: Payload): (r: Result<seq<ListItem>, Error>)
    ensures CreateLogSelectExpression(cols, attrs).Err? ==> r == Err(CreateLogSelectExpression(cols, attrs).error)
    ensures CreateLogSelectExpression(cols, attrs).Ok? ==>
      r == Ok(Summaries(Matching(log, CreateLogSelectExpression(cols, attrs).value)))
  {
    match CreateLogSelectExpression(cols, attrs)
    case Err(e) => Err(e)
    case Ok(key) => Ok(Summaries(Matching(log, key)))
  }

  /** Listing without any identity attribute fails. */
  lemma ListWithoutIdentityFails(log: seq<Entry>, cols: set<string>)
    requires cols != {}
    ensures VaListByPk(log, cols, map[]) == Err(LogIdentifyError)
  {
  }

  /** In a valid log the listed versions of an identity are 0, 1, ..., n-1 in order. */
  lemma ListedVersionsAreConsecutive(log: seq<Entry>, cols: set<string>, attrs: Payload)
    requires ValidLog(log, cols) && cols != {} && cols <= attrs.Keys
    ensures VaListByPk(log, cols, attrs).Ok?
    ensures forall j :: 0 <= j < |VaListByPk(log, cols, attrs).value| ==> VaListByPk(log, cols, attrs).value[j].version == j
  {
    var key := CreateLogSelectExpression(cols, attrs).value;
    VersionsAreConsecutive(log, cols, key);
    assert VaListByPk(log, cols, attrs).value == Summaries(Matching(log, key));
  }

  /** get_row_identifier: the present value of each version column of a live row. */
  function GetRowIdentifier(row: LiveRow, cols: set<string>): (id: Payload)
    requires cols <= row.attrs.Keys
    ensures id.Keys == cols
    ensures forall c :: c in cols ==> id[c] == row.attrs[c].current
  {
    map c | c in cols :: row.attrs[c].current
  }

  /** A row's own identifier always passes the identity check. */
  lemma RowIdentifierSelects(row: LiveRow, cols: set<string>)
    requires cols <= row.attrs.Keys && cols != {}
    ensures CreateLogSelectExpression(cols, GetRowIdentifier(row, cols)) == Ok(GetRowIdentifier(row, cols))
  {
    var id := GetRowIdentifier(row, cols);
    assert (map c | c in cols :: id[c]) == id;
  }

  /** One element of va_get_all_by_pk: log id, version, actor and the full payload. */
  datatype HistoryItem = HistoryItem(vaId: int, version: int, userId: Value, record: Payload)

  function HistoryItems(h: seq<Entry>): (r: seq<HistoryItem>)
    ensures |r| == |h|
    ensures forall j :: 0 <= j < |h| ==> r[j] == HistoryItem(h[j].vaId, h[j].version, h[j].userId, h[j].data)
  {
    seq(|h|, j requires 0 <= j < |h| => HistoryItem(h[j].vaId, h[j].version, h[j].userId, h[j].data))
  }

  /** va_get_all_by_pk: every row of the identity with its payload, in log order. */
  function VaGetAllByPk(log: seq<Entry>, cols: set<string>, attrs: Payload): (r: Result<seq<HistoryItem>, Error>)
    ensures CreateLogSelectExpression(cols, attrs).Err? ==> r == Err(CreateLogSelectExpression(cols, attrs).error)
    ensures CreateLogSelectExpression(cols, attrs).Ok? ==>
      r == Ok(HistoryItems(Matching(log, CreateLogSelectExpression(cols, attrs).value)))
  {
    match CreateLogSelectExpression(cols, attrs)
    case Err(e) => Err(e)
    case Ok(key) => Ok(HistoryItems(Matching(log, key)))
  }

  /** In a valid log, the full history lists versions 0..n-1, each with that row's payload. */
  lemma HistoryIsConsecutive(log: seq<Entry>, cols: set<string>, attrs: Payload)
    requires ValidLog(log, cols) && cols != {} && cols <= attrs.Keys
    ensures VaGetAllByPk(log, cols, attrs).Ok?
    ensures |VaGetAllByPk(log, cols, attrs).value| == |VaListByPk(log, cols, attrs).value|
    ensures forall j :: 0 <= j < |VaGetAllByPk(log, cols, attrs).value| ==>
      VaGetAllByPk(log, cols, attrs).value[j].version == j &&
      VaGetAllByPk(log, cols, attrs).value[j].vaId == VaListByPk(log, cols, attrs).value[j].vaId
  {
    var key := CreateLogSelectExpression(cols, attrs).value;
    VersionsAreConsecutive(log, cols, key);
    assert VaGetAllByPk(log, cols, attrs).value == HistoryItems(Matching(log, key));
    assert VaListByPk(log, cols, attrs).value == Summaries(Matching(log, key));
  }

  // ---------------------------------------------------------------------------
  // Single version
  // ---------------------------------------------------------------------------

  /** Which row a caller asks for: by version number or by log id. */
  datatype Selector = ByVersion(version: int) | ById(vaId: int)

  /** `va_version` wins over `va_id`; giving neither is a LogIdentifyError. */
  function SelectorOf(version: Option<int>, vaId: Option<int>): (r: Result<Selector, Error>)
    ensures r.Err? <==> version.None? && vaId.None?
    ensures r.Err? ==> r.error == LogIdentifyError
    ensures version.Some? ==> r == Ok(ByVersion(version.value))
    ensures version.None? && vaId.Some? ==> r == Ok(ById(vaId.value))
  {
    if version.Some? then Ok(ByVersion(version.value))
    else if vaId.Some? then Ok(ById(vaId.value))
    else Err(LogIdentifyError)
  }

  /** The filter a selector applies. By version it does not look at the identity. */
  predicate Selects(e: Entry, sel: Selector) {
    match sel
    case ByVersion(v) => e.version == v
    case ById(i) => e.vaId == i
  }

  /** The position of the first row the selector picks, if any. */
  function FirstIndex(log: seq<Entry>, sel: Selector): (r: Option<nat>)
    ensures r.None? ==> forall j :: 0 <= j < |log| ==> !Selects(log[j], sel)
    ensures r.Some? ==> r.value < |log| && Selects(log[r.value], sel)
    ensures r.Some? ==> forall j :: 0 <= j < r.value ==> !Selects(log[j], sel)
  {
    if log == [] then None
    else if Selects(log[0], sel) then Some(0)
    else match FirstIndex(log[1..], sel)
      case None => None
      case Some(i) => Some(i + 1)
  }

  /** va_get: the payload of the first selected row with `va_id` set to that
      row's log id; LogIdentifyError when neither selector is given and
      HistoryItemNotFound when no row is selected. */
  function VaGet(log: seq<Entry>, version: Option<int>, vaId: Option<int>): (r: Result<Payload, Error>)
    ensures version.None? && vaId.None? ==> r == Err(LogIdentifyError)
    ensures SelectorOf(version, vaId).Ok? ==>
      (r == Err(HistoryItemNotFound) <==> forall j :: 0 <= j < |log| ==> !Selects(log[j], SelectorOf(version, vaId).value))
    ensures r.Ok? ==> exists i :: (0 <= i < |log| && Selects(log[i], SelectorOf(version, vaId).value) &&
      (forall j :: 0 <= j < i ==> !Selects(log[j], SelectorOf(version, vaId).value)) &&
      r.value == log[i].data["va_id" := VInt(log[i].vaId)])
  {
    match SelectorOf(version, vaId)
    case Err(e) => Err(e)
    case Ok(sel) =>
      match FirstIndex(log, sel)
      case None => Err(HistoryItemNotFound)
      case Some(i) => Ok(log[i].data["va_id" := VInt(log[i].vaId)])
  }

  /** Given both selectors, only `va_version` is used. */
  lemma VersionTakesPrecedence(log: seq<Entry>, v: int, id: int)
    ensures VaGet(log, Some(v), Some(id)) == VaGet(log, Some(v), None)
  {
  }

  /** In a log whose ids ascend, a row's log id finds exactly that row. */
  lemma FindByIdInAscendingLog(log: seq<Entry>, p: nat)
    requires IdsAscending(log) && p < |log|
    ensures FirstIndex(log, ById(log[p].vaId)) == Some(p)
  {
    assert Selects(log[p], ById(log[p].vaId));
  }

  /** Fetching by log id returns that row's payload with its log id added. */
  lemma VaGetById(log: seq<Entry>, p: nat)
    requires IdsAscending(log) && p < |log|
    ensures VaGet(log, None, Some(log[p].vaId)) == Ok(log[p].data["va_id" := VInt(log[p].vaId)])
  {
    FindByIdInAscendingLog(log, p);
  }

  /** Fetching by version is not scoped to an identity: with two identities at
      version 0, version 0 is the first one logged, whichever identity the
      caller meant. */
  lemma VersionLookupCrossesIdentities(a: Entry, b: Entry)
    requires a.version == 0 && b.version == 0 && a.ident != b.ident
    ensures VaGet([a, b], Some(0), None) == Ok(a.data["va_id" := VInt(a.vaId)])
  {
  }

  // ---------------------------------------------------------------------------
  // Diffs
  // ---------------------------------------------------------------------------

  /** The version-column values of an archive row (all_history_items). */
  function IdentityOf(e: Entry, cols: set<string>): (key: Payload)
    requires cols <= e.ident.Keys
    ensures key.Keys == cols && forall c :: c in cols ==> key[c] == e.ident[c]
  {
    map c | c in cols :: e.ident[c]
  }

  /** The listed rows with a smaller log id, in list order. */
  function Before(items: seq<ListItem>, vaId: int): (r: seq<ListItem>)
    ensures forall j :: 0 <= j < |r| ==> r[j].vaId < vaId
  {
    if items == [] then []
    else (if items[0].vaId < vaId then [items[0]] else []) + Before(items[1..], vaId)
  }

  /** va_diff: selects a row as va_get does, lists its identity, and compares
      it with the last listed row of smaller log id (with None when there is none). */
  function VaDiff(log: seq<Entry>, cols: set<string>, version: Option<int>, vaId: Option<int>): (r: Result<RowDiff, Error>)
    requires HasIdentity(log, cols)
    ensures version.None? && vaId.None? ==> r == Err(LogIdentifyError)
    ensures SelectorOf(version, vaId).Ok? ==>
      (r == Err(HistoryItemNotFound) <==> forall j :: 0 <= j < |log| ==> !Selects(log[j], SelectorOf(version, vaId).value))
  {
    match SelectorOf(version, vaId)
    case Err(e) => Err(e)
    case Ok(sel) =>
      match FirstIndex(log, sel)
      case None => Err(HistoryItemNotFound)
      case Some(i) =>
        var thisRow := log[i];
        match VaListByPk(log, cols, IdentityOf(thisRow, cols))
        case Err(e) => Err(e)
        case Ok(items) =>
          var prev := Before(items, thisRow.vaId);
          if prev == [] then Ok(CompareRows(None, thisRow))
          else
            match FirstIndex(log, ById(prev[|prev| - 1].vaId))
            case None => Err(IndexError)
            case Some(p) => Ok(CompareRows(Some(log[p]), thisRow))
  }

  /** Filtering an id-ascending list by "smaller than the i-th id" keeps exactly the first i items. */
  lemma {:induction false} BeforeAscending(items: seq<ListItem>, i: nat)
    requires i < |items|
    requires forall a, b :: 0 <= a < b < |items| ==> items[a].vaId < items[b].vaId
    ensures Before(items, items[i].vaId) == items[..i]
  {
    if i == 0 {
      BeforeNone(items, items[0].vaId);
    } else {
      BeforeAscending(items[1..], i - 1);
      assert items[1..][i - 1] == items[i];
      assert items[..i] == [items[0]] + items[1..][..i - 1];
    }
  }

  lemma {:induction false} BeforeNone(items: seq<ListItem>, vaId: int)
    requires forall j :: 0 <= j < |items| ==> items[j].vaId >= vaId
    ensures Before(items, vaId) == []
  {
    if items != [] {
      BeforeNone(items[1..], vaId);
    }
  }

  /** An identity over exactly the version columns selects itself. */
  lemma SelectOwnIdentity(cols: set<string>, key: Payload)
    requires key.Keys == cols && cols != {}
    ensures CreateLogSelectExpression(cols, key) == Ok(key)
  {
    assert (map c | c in cols :: key[c]) == key;
  }

  /** How va_diff finishes once the row is found by log id and its identity listed. */
  lemma VaDiffFound(log: seq<Entry>, cols: set<string>, p: nat, items: seq<ListItem>)
    requires HasIdentity(log, cols) && p < |log|
    requires FirstIndex(log, ById(log[p].vaId)) == Some(p)
    requires VaListByPk(log, cols, IdentityOf(log[p], cols)) == Ok(items)
    ensures Before(items, log[p].vaId) == [] ==>
      VaDiff(log, cols, None, Some(log[p].vaId)) == Ok(CompareRows(None, log[p]))
    ensures Before(items, log[p].vaId) != [] ==>
      var last := Before(items, log[p].vaId)[|Before(items, log[p].vaId)| - 1];
      FirstIndex(log, ById(last.vaId)).Some? ==>
        VaDiff(log, cols, None, Some(log[p].vaId)) ==
          Ok(CompareRows(Some(log[FirstIndex(log, ById(last.vaId)).value]), log[p]))
  {
  }

  /** The listed rows of an identity have strictly ascending log ids. */
  lemma ListedIdsAscend(log: seq<Entry>, key: Payload)
    requires IdsAscending(log)
    ensures forall a, b :: 0 <= a < b < |Summaries(Matching(log, key))| ==>
      Summaries(Matching(log, key))[a].vaId < Summaries(Matching(log, key))[b].vaId
  {
    var h := Matching(log, key);
    var pos := MatchingPositions(log, key);
    forall a, b | 0 <= a < b < |h|
      ensures h[a].vaId < h[b].vaId
    {
      assert log[pos[a]] == h[a] && log[pos[b]] == h[b];
    }
  }

  /** The diff of the i-th row of an identity's history: against the row before it, the first against None. */
  function DiffAt(h: seq<Entry>, i: nat): (d: RowDiff)
    requires i < |h|
    ensures d.newVersion == VInt(h[i].version) && d.newUserId == h[i].userId
    ensures i == 0 <==> d.prevVersion == VNull
    ensures i > 0 ==> d.prevVersion == VInt(h[i - 1].version) && d.prevUserId == h[i - 1].userId
  {
    CompareRows(if i == 0 then None else Some(h[i - 1]), h[i])
  }

  /** The last step of VaDiffPairsWithPredecessor, once the rows are located:
      the i-th row is found at p, its predecessor (if any) at q, and the
      earlier list entries are exactly the first i. */
  lemma VaDiffPairsAssemble(log: seq<Entry>, cols: set<string>, key: Payload, i: nat, p: nat, q: nat)
    requires HasIdentity(log, cols)
    requires i < |Matching(log, key)| && p < |log| && log[p] == Matching(log, key)[i]
    requires IdentityOf(log[p], cols) == key && CreateLogSelectExpression(cols, key) == Ok(key)
    requires FirstIndex(log, ById(log[p].vaId)) == Some(p)
    requires Before(Summaries(Matching(log, key)), log[p].vaId) == Summaries(Matching(log, key))[..i]
    requires i > 0 ==> q < |log| && log[q] == Matching(log, key)[i - 1] && FirstIndex(log, ById(log[q].vaId)) == Some(q)
    ensures VaDiff(log, cols, None, Some(Matching(log, key)[i].vaId)) == Ok(DiffAt(Matching(log, key), i))
  {
    var items := Summaries(Matching(log, key));
    VaDiffFound(log, cols, p, items);
    if i > 0 {
      assert items[..i][i - 1].vaId == log[q].vaId;
    }
  }

  /** In a log with ascending ids whose rows carry the version columns (so in
      every valid log), the diff of the i-th row of an identity, fetched by its
      log id, compares it with the (i-1)-th row of the same identity, and the
      first row with None: va_diff agrees with va_diff_all_by_pk. */
  lemma VaDiffPairsWithPredecessor(log: seq<Entry>, cols: set<string>, key: Payload, i: nat)
    requires IdsAscending(log) && HasIdentity(log, cols) && key.Keys == cols && cols != {}
    requires i < |Matching(log, key)|
    ensures VaDiff(log, cols, None, Some(Matching(log, key)[i].vaId)) == Ok(DiffAt(Matching(log, key), i))
  {
    var h := Matching(log, key);
    var pos := MatchingPositions(log, key);
    var p := pos[i];
    var q := if i > 0 then pos[i - 1] else 0;
    FindByIdInAscendingLog(log, p);
    assert log[p].ident == key by {
      MatchesIsEquality(log[p], key, cols);
    }
    assert IdentityOf(log[p], cols) == key;
    SelectOwnIdentity(cols, key);
    ListedIdsAscend(log, key);
    BeforeAscending(Summaries(h), i);
    if i > 0 {
      FindByIdInAscendingLog(log, q);
    }
    VaDiffPairsAssemble(log, cols, key, i, p, q);
  }

  /** va_diff_all_by_pk: one diff per row of the identity, in log order: the
      first against None, every other against the row before it. */
  method VaDiffAllByPk(log: seq<Entry>, cols: set<string>, attrs: Payload) returns (r: Result<seq<RowDiff>, Error>)
    ensures CreateLogSelectExpression(cols, attrs).Err? ==> r == Err(CreateLogSelectExpression(cols, attrs).error)
    ensures CreateLogSelectExpression(cols, attrs).Ok? ==>
      var h := Matching(log, CreateLogSelectExpression(cols, attrs).value);
      r.Ok? && |r.value| == |h| &&
      forall i :: 0 <= i < |h| ==> r.value[i] == DiffAt(h, i)
  {
    var select := CreateLogSelectExpression(cols, attrs);
    if select.Err? {
      return Err(select.error);
    }
    var allHistoryItems := Matching(log, select.value);
    var allChanges: seq<RowDiff> := [];
    var i := 0;
    while i < |allHistoryItems|
      invariant 0 <= i <= |allHistoryItems|
      invariant |allChanges| == i
      invariant forall j :: 0 <= j < i ==> allChanges[j] == DiffAt(allHistoryItems, j)
    {
      if i == 0 {
        allChanges := allChanges + [CompareRows(None, allHistoryItems[i])];
      } else {
        allChanges := allChanges + [CompareRows(Some(allHistoryItems[i - 1]), allHistoryItems[i])];
      }
      i := i + 1;
    }
    assert allHistoryItems == Matching(log, CreateLogSelectExpression(cols, attrs).value);
    return Ok(allChanges);
  }
}
