// Types and operations that several components share.

module Basics {

  type byte = b: int | 0 <= b < 256

  datatype Option<T> = None | Some(value: T)

  // x put in at place k
  function Inserted<T>(order: seq<T>, k: nat, x: T): (r: seq<T>)
    requires k <= |order|
    ensures |r| == |order| + 1
    ensures forall i :: 0 <= i < |r| ==> r[i] == if i < k then order[i] else if i == k then x else order[i - 1]
  {
    order[..k] + [x] + order[k..]
  }
}
