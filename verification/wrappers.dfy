/** Failure-carrying datatypes shared by the ledger model: Rust's `Option<T>`
    and `Result<T, E>` as used by the ledger engine. */
module Wrappers {

  datatype Option<+T> = None | Some(value: T) {

    /** The wrapped value, or `default` when there is none (Rust's `unwrap_or`). */
    function GetOr(default: T): T {
      match this
      case Some(v) => v
      case None => default
    }
  }

  datatype Result<+T, +E> = Ok(value: T) | Err(error: E)

  /** Rust's three-way comparison result. */
  datatype Ordering = Less | Equal | Greater

  function CmpInt(a: int, b: int): (r: Ordering)
    ensures r == Less <==> a < b
    ensures r == Equal <==> a == b
  {
    if a < b then Less else if a == b then Equal else Greater
  }

  function Min(a: int, b: int): int {
    if a <= b then a else b
  }
}
