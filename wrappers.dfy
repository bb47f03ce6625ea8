/** Small shared definitions: the optional value and a sequence helper. */
module Wrappers {

  /** The optional value used wherever the source returns a nullable pointer or a `Lib::Option`. */
  datatype Option<+T> = None | Some(value: T)

  /** Position `j` of `s` left out, as popping the `j`-th cell of a linked list of literals does. */
  function RemoveAt<T>(s: seq<T>, j: nat): (r: seq<T>)
    requires j < |s|
    ensures |r| == |s| - 1
    ensures forall k :: 0 <= k < |r| ==> r[k] == if k < j then s[k] else s[k + 1]
  {
    s[..j] + s[j + 1..]
  }
}
