/** Rust's fixed-width integers as the filter uses them, and the panics that
    checked (debug-build) arithmetic and slice indexing raise. */
module Rust {

  const U8_MAX: int := 0xFF
  const U32_MAX: int := 0xFFFF_FFFF

  type u8 = x: int | 0 <= x <= U8_MAX
  type u32 = x: int | 0 <= x <= U32_MAX

  /** Why a call aborted. */
  datatype Panic =
    | ArithmeticOverflow  // "attempt to add/subtract/multiply with overflow"
    | DivisionByZero      // "attempt to divide by zero"
    | IndexOutOfBounds    // "index out of bounds"

  /** The result of a call that may panic instead of returning. */
  datatype Outcome<T> = Returned(value: T) | Panicked(cause: Panic)

  /** `u8::abs_diff`. */
  function AbsDiff(a: u8, b: u8): (d: u8)
    ensures a <= b ==> a + d == b
    ensures b <= a ==> b + d == a
  {
    if a < b then b - a else a - b
  }
}

/** Small facts about products, quotients and remainders that the index
    arithmetic of the filter relies on. */
module Arith {

  lemma MulMonotone(a: nat, b: nat, c: nat)
    requires a <= b
    ensures a * c <= b * c
  {
  }

  /** Euclidean division of a non-negative number by a positive one is its
      floor quotient. */
  lemma {:induction false} FloorDiv(x: nat, n: nat)
    requires n > 0
    ensures 0 <= x / n && (x / n) * n <= x < (x / n + 1) * n
  {
    var q, r := x / n, x % n;
    assert x == q * n + r && 0 <= r < n;
    assert (q + 1) * n == q * n + n;
  }

  /** Row-major addressing: cell `q` of row `r` in rows of length `n`. */
  lemma {:induction false} RowMajor(r: nat, q: nat, n: nat)
    requires q < n
    ensures (r * n + q) / n == r && (r * n + q) % n == q
  {
    var k := r * n + q;
    assert k == r * n + q;
    var d, m := k / n, k % n;
    assert k == d * n + m && 0 <= m < n;
    if d < r {
      MulMonotone(d + 1, r, n);
      assert false;
    } else if d > r {
      MulMonotone(r + 1, d, n);
      assert false;
    }
  }

  /** Stepping from the start of row `r` to the start of row `r + 1` of a
      grid with `rows` rows of `w` cells. */
  lemma NextRowStart(r: nat, w: nat, rows: nat)
    requires r < rows
    ensures (r + 1) * w == r * w + w && r * w + w <= w * rows
  {
    MulMonotone(r + 1, rows, w);
  }

  /** A cell of a `rows x cols` grid lies before the end of the grid. */
  lemma CellBelowGrid(r: nat, q: nat, rows: nat, cols: nat)
    requires r < rows && q < cols
    ensures r * cols + q < rows * cols
  {
    MulMonotone(r + 1, rows, cols);
  }
}
