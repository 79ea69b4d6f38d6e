/** The optional value used for tracked positions and predecessors. */
module Options {
  datatype Option<T> = None | Some(value: T)
}

/** The result of comparing two values (Rust's `std::cmp::Ordering`). */
module Orderings {
  datatype Ordering = Less | Equal | Greater

  /** `a.partial_cmp(&b)` on two estimates, which are never NaN here. */
  function CompareNat(a: nat, b: nat): (o: Ordering)
    ensures o == Less <==> a < b
    ensures o == Equal <==> a == b
    ensures o == Greater <==> a > b
  {
    if a < b then Less else if a == b then Equal else Greater
  }
}
