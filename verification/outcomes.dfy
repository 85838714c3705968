/** Failure-carrying values shared by every module of the model.

    The program signals failure in three ways, and the model keeps them apart:
    - an `io::Result` error that is returned to the caller (`Err`, with the
      `io::ErrorKind` the code chose),
    - a panic from `unwrap`, `expect`, an out-of-range index or an explicit
      `panic!` (`Panic`), which ends the thread,
    - success (`Ok`).
 */
module Outcomes {

  /** The `io::ErrorKind` values the program constructs itself, plus `Os` for
      an error whose kind the operating system or a library chose. */
  datatype ErrorKind = NotFound | InvalidData | Other | Os

  datatype Option<+T> = None | Some(value: T)

  datatype Outcome<+T> = Ok(value: T) | Err(kind: ErrorKind) | Panic {

    /** Keeps a failure, replacing the value type. */
    function Forward<U>(): (r: Outcome<U>)
      requires !Ok?
      ensures r.Err? == Err? && r.Panic? == Panic?
      ensures Err? ==> r.kind == kind
    {
      match this
      case Err(k) => Err(k)
      case Panic => Panic
    }
  }

  /** The range of Rust's `i32`. */
  const I32Min: int := -0x8000_0000
  const I32Max: int := 0x7fff_ffff

  predicate IsI32(x: int) {
    I32Min <= x <= I32Max
  }
}
