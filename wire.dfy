/** Values exchanged with clients as JSON, and the error outcomes that the
    Python code signals by raising (`KeyError` for an unknown session id,
    `IndexError` for a position outside the text). */
module Wire {

  /** The part of JSON the editor sends: strings, integers and lists. */
  datatype Json =
    | JStr(s: string)
    | JInt(i: int)
    | JList(items: seq<Json>)

  datatype Option<T> = None | Some(value: T)

  datatype Error =
    | KeyError(key: string)
    | IndexError

  datatype Result<T> = Ok(value: T) | Err(error: Error)
}
