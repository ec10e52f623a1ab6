/** Machine-integer ranges and the result types shared by every component.

    The program works on i64, u64, i128 and u128 with checked arithmetic. Values are unbounded here, so every
    place where the program can report an overflow tests the range by name. */
module Numbers {

  const I64_MAX := 0x7FFF_FFFF_FFFF_FFFF
  const I64_MIN := -0x8000_0000_0000_0000
  const U64_MAX := 0xFFFF_FFFF_FFFF_FFFF
  const I128_MAX := 0x7FFF_FFFF_FFFF_FFFF_FFFF_FFFF_FFFF_FFFF
  const I128_MIN := -0x8000_0000_0000_0000_0000_0000_0000_0000
  const U128_MAX := 0xFFFF_FFFF_FFFF_FFFF_FFFF_FFFF_FFFF_FFFF

  predicate InI64(x: int) {
    I64_MIN <= x <= I64_MAX
  }

  predicate InU64(x: int) {
    0 <= x <= U64_MAX
  }

  predicate InI128(x: int) {
    I128_MIN <= x <= I128_MAX
  }

  predicate InU128(x: int) {
    0 <= x <= U128_MAX
  }

  function Min(a: int, b: int): int {
    if a < b then a else b
  }

  function Max(a: int, b: int): int {
    if a < b then b else a
  }

  function Abs(a: int): int {
    if a < 0 then -a else a
  }

  /** Checked i64 addition and subtraction. */
  function Add64(a: int, b: int): Option<int> {
    if InI64(a + b) then Some(a + b) else None
  }

  function Sub64(a: int, b: int): Option<int> {
    if InI64(a - b) then Some(a - b) else None
  }

  /** Integer division as the program's language does it: the quotient is truncated toward zero. */
  function TruncDiv(n: int, d: int): int
    requires d > 0
  {
    if n >= 0 then n / d else -((-n) / d)
  }

  datatype Option<+T> = None | Some(value: T)
  {
    predicate IsFailure() {
      None?
    }

    function PropagateFailure<U>(): Option<U>
      requires None?
    {
      None
    }

    function Extract(): T
      requires Some?
    {
      value
    }
  }

  datatype Result<+T, +E> = Ok(value: T) | Err(error: E)
  {
    predicate IsFailure() {
      Err?
    }

    function PropagateFailure<U>(): Result<U, E>
      requires Err?
    {
      Err(error)
    }

    function Extract(): T
      requires Ok?
    {
      value
    }
  }
}
