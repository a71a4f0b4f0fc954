/**
 The fixed-width signed integer arithmetic of Rust that the progress
 computation relies on: the `i32` and `i64` ranges, `/` (which truncates
 toward zero, unlike Dafny's Euclidean division), the wrapping `as i32`
 cast, and multiplication that fails on overflow.
 */
module RustInt {

  import opened Wrappers

  const I32Min: int := -0x8000_0000
  const I32Max: int := 0x7FFF_FFFF
  const I64Min: int := -0x8000_0000_0000_0000
  const I64Max: int := 0x7FFF_FFFF_FFFF_FFFF

  /** Number of distinct `i32` values; `as i32` wraps modulo this. */
  const I32Modulus: int := 0x1_0000_0000

  predicate IsI32(x: int) { I32Min <= x <= I32Max }

  predicate IsI64(x: int) { I64Min <= x <= I64Max }

  function Abs(x: int): nat { if x < 0 then -x else x }

  /**
   Rust's `/` on signed integers with a positive divisor: the quotient is
   truncated toward zero, so the remainder takes the sign of the dividend.
   */
  function Div(a: int, b: int): (q: int)
    requires b > 0
    ensures Abs(a - q * b) < b
    ensures a - q * b == 0 || (a - q * b < 0 <==> a < 0)
    ensures a >= 0 ==> q == a / b
  {
    if a >= 0 then a / b else -((-a) / b)
  }

  /** Rust's `x as i32` on an `i64`: keeps the low 32 bits, read as two's complement. */
  function AsI32(x: int): (r: int)
    requires IsI64(x)
    ensures IsI32(r)
    ensures (x - r) % I32Modulus == 0
    ensures IsI32(x) ==> r == x
  {
    (x - I32Min) % I32Modulus + I32Min
  }

  /**
   `a * b` on `i32`: an overflow panics (in a debug build), modelled as
   `None`; otherwise the mathematical product.
   */
  function MulI32(a: int, b: int): (r: Option<int>)
    requires IsI32(a) && IsI32(b)
    ensures r.Some? <==> IsI32(a * b)
    ensures r.Some? ==> r.value == a * b
  {
    if IsI32(a * b) then Some(a * b) else None
  }

  lemma MulMonotone(x: int, y: int, k: int)
    requires k >= 0
    ensures x <= y ==> x * k <= y * k
  {
  }
}
