/** Small wrappers shared by the three pages. */
module Common {

  /** An optional value: JavaScript `undefined` (or a missing field) is `None`. */
  datatype Option<+T> = None | Some(value: T) {

    /** The value, or `default` when absent. */
    function GetOr(default: T): T {
      match this
      case Some(v) => v
      case None => default
    }
  }

  /** What an awaited remote call produced: the resolved value, or a rejection. */
  datatype Outcome<+T> = Ok(value: T) | Err

  /** An in-flight or edit marker such as `addingId`: `null`, or the key it holds. */
  datatype Mark<+K> = Unmarked | Marked(key: K)

  /** Appending a non-empty list one element at a time: its head, then its tail. */
  lemma AppendHeadThenTail<T>(a: seq<T>, b: seq<T>)
    requires b != []
    ensures a + [b[0]] + b[1..] == a + b
  {
    assert b == [b[0]] + b[1..];
  }
}
