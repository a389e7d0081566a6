/**
 * Values shared by every part of the model: optional results, the JSON
 * scalars a configuration holds, and configuration entries.
 */
module Common {

  datatype Option<T> = None | Some(value: T)

  /** The outcome of an operation that may raise an exception instead. */
  datatype Result<T> = Ok(value: T) | Failure(error: string)

  /**
   * A configuration value as decoded from JSON or set by the launcher:
   * Python's `None`, a string, a number or a boolean.
   */
  datatype Value = Null | Str(s: string) | Num(n: int) | Flag(b: bool)

  /** One configuration dictionary: parameter name to value. */
  type Entry = map<string, Value>

  /** Every entry of `stack` with `key` deleted. */
  function Evict(stack: seq<Entry>, key: string): (r: seq<Entry>)
    ensures |r| == |stack|
    ensures forall j :: 0 <= j < |r| ==> r[j] == stack[j] - {key}
  {
    seq(|stack|, j requires 0 <= j < |stack| => stack[j] - {key})
  }

  /** The position of the first element satisfying `p`, or the length when there is none. */
  function FirstWhere<T>(s: seq<T>, p: T -> bool): (n: nat)
    ensures n <= |s|
    ensures forall i :: 0 <= i < n ==> !p(s[i])
    ensures n < |s| ==> p(s[n])
  {
    if |s| == 0 then 0
    else if p(s[0]) then 0
    else 1 + FirstWhere(s[1..], p)
  }
}
