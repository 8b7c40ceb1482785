/** Document values shared by every part of the model. */
module Values {

  datatype Option<+T> = None | Some(value: T)

  datatype Result<+T, +E> = Ok(value: T) | Err(error: E)

  /** A BSON value. `Null` is Go's nil; `Atom` stands for every scalar the
      library only ever compares (numbers, dates, object ids, ...). */
  datatype Value =
    | Null
    | Text(s: string)
    | Atom(id: int)
    | Arr(items: seq<Value>)
    | Doc(fields: map<string, Value>)

  /** A top-level document: Go's bson.M. */
  type Document = map<string, Value>

  /** One audited field: the two-element array [before, after]. */
  datatype Change = Change(before: Value, after: Value)

  type Changes = map<string, Change>

  function Lookup(doc: Document, k: string): Option<Value> {
    if k in doc then Some(doc[k]) else None
  }

  /** The value of a field as an audit entry shows it: absence reads as nil. */
  function Shown(doc: Document, k: string): Value {
    if k in doc then doc[k] else Null
  }
}
