/** Shared definitions. */
module Common {

  datatype Option<+T> = None | Some(value: T)

  /** The iterations of a loop from lo to hi, taken in any order. */
  function Range(lo: int, hi: int): (s: set<int>)
    ensures forall j :: j in s <==> lo <= j < hi
    ensures lo <= hi ==> |s| == hi - lo
    decreases hi - lo
  {
    if lo >= hi then {} else {lo} + Range(lo + 1, hi)
  }
}
