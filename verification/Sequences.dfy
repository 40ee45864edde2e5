/** What the modules share about sequences. */
module Sequences {

  /** A sequence without its i-th element. */
  function Without<T>(s: seq<T>, i: int): seq<T>
    requires 0 <= i < |s|
  {
    s[..i] + s[i + 1..]
  }

  ghost predicate NoDuplicates<T>(s: seq<T>) { forall i, j | 0 <= i < j < |s| :: s[i] != s[j] }

  /** The parts with a comma between every two. */
  function Join(parts: seq<string>, comma: string): string {
    if parts == [] then "" else if |parts| == 1 then parts[0] else parts[0] + (comma + Join(parts[1..], comma))
  }
}
