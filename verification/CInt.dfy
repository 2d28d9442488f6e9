/** C integer arithmetic on mathematical integers: the widths the sources use,
    division that truncates toward zero, and the conversions between widths. */
module CInt {

  datatype Option<+T> = None | Some(value: T) {
    predicate IsFailure() {
      None?
    }

    function PropagateFailure<U>(): Option<U>
      requires None?
    {
      None
    }

    function Extract(): T
      requires Some?
    {
      value
    }
  }

  type byte = x: int | 0 <= x < 256

  const TWO30 := 0x4000_0000
  const TWO31 := 0x8000_0000
  const TWO32 := 0x1_0000_0000
  const TWO48 := 0x1_0000_0000_0000
  const TWO63 := 0x8000_0000_0000_0000

  predicate IsInt32(x: int) {
    -TWO31 <= x < TWO31
  }

  predicate IsUint32(x: int) {
    0 <= x < TWO32
  }

  predicate IsInt64(x: int) {
    -TWO63 <= x < TWO63
  }

  /** Conversion of an integer to `uint32_t`. */
  function ToUint32(x: int): (r: int)
    ensures IsUint32(r)
  {
    x % TWO32
  }

  /** Conversion of an integer to `int32_t` (two's complement). */
  function ToInt32(x: int): (r: int)
    ensures IsInt32(r)
  {
    if x % TWO32 < TWO31 then x % TWO32 else x % TWO32 - TWO32
  }

  function Abs(x: int): (r: nat)
  {
    if x < 0 then -x else x
  }

  function Sign(x: int): int
  {
    if x > 0 then 1 else if x < 0 then -1 else 0
  }

  /** C's `/`: the quotient rounded toward zero. */
  function TruncDiv(a: int, b: int): int
    requires b > 0
  {
    if a >= 0 then a / b else -((-a) / b)
  }

  /** C's `%`: the remainder that takes the sign of the dividend. */
  function TruncMod(a: int, b: int): int
    requires b > 0
  {
    a - TruncDiv(a, b) * b
  }

  lemma NoMultipleBetween(m: int, d: int)
    requires m > 0 && -m < m * d < m
    ensures d == 0
  {
  }

  lemma QuotientUnique(n: int, m: int, q: int, r: int)
    requires m > 0 && n == m * q + r && 0 <= r < m
    ensures n / m == q && n % m == r
  {
    var d := n / m - q;
    assert n == m * (n / m) + n % m;
    assert m * d == m * (n / m) - m * q;
    NoMultipleBetween(m, d);
  }
}
