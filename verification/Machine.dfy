/**
  Machine integers and result types shared by every component.

  The integer types are subset types of `int`, so a plain `+` or `*` whose result is
  used where a `u64` is expected must be proved to stay in range: that proof is the
  absence of an overflow panic.  `usize` is 64 bits wide, as on the only target.
*/
module Machine {

  const U8_LIMIT: int := 0x100
  const U16_LIMIT: int := 0x1_0000
  const U32_LIMIT: int := 0x1_0000_0000
  const U64_LIMIT: int := 0x1_0000_0000_0000_0000

  type u8 = x: int | 0 <= x < 0x100
  type u16 = x: int | 0 <= x < 0x1_0000
  type u32 = x: int | 0 <= x < 0x1_0000_0000
  type u64 = x: int | 0 <= x < 0x1_0000_0000_0000_0000
  type usize = u64

  /** A byte slice: no object is longer than `isize::MAX`. */
  type Slice = s: seq<u8> | |s| < 0x8000_0000_0000_0000

  datatype Option<+T> = None | Some(value: T) {
    predicate IsFailure() { None? }

    function PropagateFailure<U>(): Option<U>
      requires None?
    { None }

    function Extract(): T
      requires Some?
    { value }

    function OkOr<E>(error: E): Result<T, E> {
      match this
      case Some(v) => Ok(v)
      case None => Err(error)
    }
  }

  datatype Result<+T, +E> = Ok(value: T) | Err(error: E) {
    predicate IsFailure() { Err? }

    function PropagateFailure<U>(): Result<U, E>
      requires Err?
    { Err(error) }

    function Extract(): T
      requires Ok?
    { value }
  }

  function CheckedAdd(a: u64, b: u64): Option<u64> {
    if a + b < U64_LIMIT then Some(a + b) else None
  }

  function CheckedMul(a: u64, b: u64): Option<u64> {
    if a * b < U64_LIMIT then assert 0 <= a * b; Some(a * b) else None
  }

  function Min(a: int, b: int): int {
    if a <= b then a else b
  }
}
