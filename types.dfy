/**
  Values, archive entries, schema descriptors and errors shared by the
  versioning engine. The archive table is a sequence of `Entry` values in
  insertion order; the live table is a map from a row's `id` to its record.
 */
module Types {

  datatype Option<+T> = None | Some(value: T) {
    function GetOr(default: T): T {
      match this
      case Some(v) => v
      case None => default
    }
  }

  datatype Result<+T, +E> = Ok(value: T) | Err(error: E)

  datatype Outcome<+E> = Pass | Fail(error: E)

  /** A column value. `VNull` is the store's NULL (Python's None); a tuple is
      what some drivers hand back for an attribute and is never empty. */
  datatype Value =
    | VNull
    | VBool(b: bool)
    | VInt(i: int)
    | VStr(s: string)
    | VTime(t: int)
    | VTuple(first: Value, rest: seq<Value>)

  /** A snapshot payload (`va_data`) or any other column-name to value mapping. */
  type Payload = map<string, Value>

  /** The reasons registration refuses a live/archive pair, in the order they are checked. */
  datatype CreationFailure =
    | NoVersionColumns
    | NotInstrumented
    | NoUniqueOnModel
    | MissingLogColumn(name: string)
    | TypeMismatch(name: string)
    | MissingUserId
    | NoUniqueOnLog

  datatype Error =
    | LogTableCreationError(reason: CreationFailure)
    | LogIdentifyError
    | HistoryItemNotFound
    | RestoreError(column: string)
    | KeyError(key: string)
    | IndexError
    | TypeError

  /** The Python type a column maps to; only `DateTimeType` changes behaviour (restore re-parses it). */
  datatype PyType = IntType | StrType | BoolType | DateTimeType | OtherType(name: string)

  /** A mapped attribute: its attribute key, its SQL column name, its Python
      type and its nullability (None when the attribute does not expose one). */
  datatype Column = Column(key: string, name: string, pyType: PyType, nullable: Option<bool>)

  /** One row of the append-only archive table. `ident` holds the version
      (identity) columns, `data` the snapshot payload. */
  datatype Entry = Entry(
    vaId: int,
    version: int,
    ident: Payload,
    userId: Value,
    deleted: bool,
    updatedAt: int,
    data: Payload)
}
