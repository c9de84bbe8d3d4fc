/** Small failure-carrying datatypes shared by the other modules. */
module Wrappers {
  datatype Option<+T> = None | Some(value: T)

  /** Leftmost position in [from, end) that satisfies p: the order in which a
      regular-expression search without the global flag tries start positions. */
  function FindFirst(p: int -> bool, from: nat, end: nat): (r: Option<nat>)
    decreases end - from
    ensures r.Some? ==> from <= r.value < end && p(r.value)
    ensures forall j :: from <= j < end && (r.None? || j < r.value) ==> !p(j)
  {
    if from >= end then None
    else if p(from) then Some(from)
    else FindFirst(p, from + 1, end)
  }
}
