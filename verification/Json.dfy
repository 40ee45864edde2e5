/** The values cJSON parses into and prints from, and the outcome of a parse. */
module Json {

  /** A cJSON node read as a value: `type`, `valuedouble` / `valuestring`, and the child list.
      `valueint` is not stored: for a number it is the truncation of `valuedouble`, for any other value
      nothing reads it. */
  datatype Value =
    | Null
    | False
    | True
    | Number(d: real)
    | String(s: string)
    | Array(items: seq<Value>)
    | Object(members: seq<Member>)

  /** A node of an object's child list: its `string` (the key) and the node itself. */
  datatype Member = Member(name: string, value: Value)

  /** What a parsing function returns: the value and the unread text, a null pointer, or `Malformed`: the
      text holds one of the cuts of module `Cuts`, from where on the result of the C code is open. */
  datatype Parsed<+T> =
    | Done(value: T, rest: string)
    | Fail
    | Malformed
  {
    predicate IsFailure() { !Done? }

    function PropagateFailure<U>(): Parsed<U>
      requires IsFailure()
    {
      if Fail? then Fail else Malformed
    }

    function Extract(): (T, string)
      requires Done?
    {
      (value, rest)
    }
  }

  /** The parse succeeds with exactly this value and stops exactly at `rest`. */
  ghost predicate Reads<T>(r: Parsed<T>, value: T, rest: string) {
    r.Done? && r.value == value && r.rest == rest
  }
}
