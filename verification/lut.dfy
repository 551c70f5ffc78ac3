/** The two lookup tables: what the intensity and spatial builders write, and
    where. The f32 weights themselves are abstracted by `Numerics`; only
    their integer arguments are modelled. */
module Lut {
  import opened Rust
  import Arith

  const INTENSITY_LUT_LEN: nat := 256
  const SPATIAL_LUT_LEN: nat := 255
  /** The builder's loop `for i in 0..255` stops one short of the table. */
  const INTENSITY_ENTRIES: nat := 255

  /** The floating-point parts of the filter, left uninterpreted:
      - `intensityWeight(sigma, q)` stands for `1/(2 pi sigma^2) * exp(-q)`,
      - `spatialWeight(sigma, d)` for `1/(2 pi sigma^2) * exp(-d / (2 sigma^2))`
        where `d` is the squared distance `hypot(i, j)^2 = i^2 + j^2`,
      - `times` and `plus` for f32 multiplication and addition, each of which
        rounds its result,
      - `roundToByte(sum, norm)` for `(sum / norm).round() as u8`. */
  datatype Numerics = Numerics(
    intensityWeight: (u8, int) -> real,
    spatialWeight: (u8, nat) -> real,
    times: (real, real) -> real,
    plus: (real, real) -> real,
    roundToByte: (real, real) -> u8)

  // ---------------------------------------------------------------- intensity

  /** `x.pow(2)`. */
  function Sq(x: int): nat { x * x }

  /** The exponent of intensity entry `d`: the i32 quotient
      `d^2 / (2 sigma^2)` of two non-negative numbers. */
  function IntensityExponent(sigma: u8, d: nat): int
    requires sigma != 0
  {
    Arith.MulMonotone(1, sigma, sigma);
    Sq(d) / (2 * Sq(sigma))
  }

  /** The exponent is the floor of the exact ratio `d^2 / (2 sigma^2)`. */
  lemma IntensityExponentIsFloor(sigma: u8, d: nat)
    requires sigma != 0
    ensures var q := IntensityExponent(sigma, d);
            0 <= q && q * (2 * Sq(sigma)) <= Sq(d) < (q + 1) * (2 * Sq(sigma))
  {
    Arith.MulMonotone(1, sigma, sigma);
    Arith.FloorDiv(Sq(d), 2 * Sq(sigma));
  }

  /** The integer division makes the exponent a step function: it is 0 on the
      whole plateau `d^2 < 2 sigma^2`, and only there. */
  lemma IntensityPlateau(sigma: u8, d: nat)
    requires sigma != 0
    ensures IntensityExponent(sigma, d) == 0 <==> Sq(d) < 2 * Sq(sigma)
  {
    var q := IntensityExponent(sigma, d);
    IntensityExponentIsFloor(sigma, d);
    if q != 0 {
      Arith.MulMonotone(1, q, 2 * Sq(sigma));
    }
  }

  lemma IntensityExponentMonotone(sigma: u8, d: nat, e: nat)
    requires sigma != 0 && d <= e
    ensures IntensityExponent(sigma, d) <= IntensityExponent(sigma, e)
  {
    var n := 2 * Sq(sigma);
    var a, b := IntensityExponent(sigma, d), IntensityExponent(sigma, e);
    IntensityExponentIsFloor(sigma, d);
    IntensityExponentIsFloor(sigma, e);
    Arith.MulMonotone(d, e, d);
    Arith.MulMonotone(d, e, e);
    if a > b {
      Arith.MulMonotone(b + 1, a, n);
      assert false;
    }
  }

  /** How `calculate_intensity_lut(sigma)` ends: `sigma.pow(2)` overflows the
      u8 from 16 on, and `sigma = 0` divides by zero. */
  function IntensityLutOutcome(sigma: u8): Outcome<()>
  {
    if Sq(sigma) > U8_MAX then Panicked(ArithmeticOverflow)
    else if sigma == 0 then Panicked(DivisionByZero)
    else Returned(())
  }

  lemma IntensityLutSucceeds(sigma: u8)
    ensures IntensityLutOutcome(sigma).Returned? <==> 1 <= sigma <= 15
  {
    if sigma >= 16 {
      Arith.MulMonotone(16, sigma, sigma);
      Arith.MulMonotone(16, sigma, 16);
    }
  }

  /** `after` is `before` with entries `0..255` rebuilt for `sigma`; the last
      entry keeps its old value. */
  ghost predicate IntensityLutRebuilt(num: Numerics, sigma: u8, before: seq<real>, after: seq<real>)
    requires sigma != 0
  {
    |before| == |after| == INTENSITY_LUT_LEN &&
    (forall d :: 0 <= d < INTENSITY_ENTRIES ==>
       after[d] == num.intensityWeight(sigma, IntensityExponent(sigma, d))) &&
    after[INTENSITY_ENTRIES] == before[INTENSITY_ENTRIES]
  }

  // ---------------------------------------------------------------- spatial

  /** The slot the spatial builder's counter has reached when it visits the
      offset `(i, j)`, both scanned over `[-h, h)` in row-major order. */
  function SpatialSlot(h: nat, i: int, j: int): (k: nat)
    requires -(h as int) <= i < h && -(h as int) <= j < h
    ensures k < Sq(2 * h)
  {
    Arith.CellBelowGrid(i + h, j + h, 2 * h, 2 * h);
    (i + h) * (2 * h) + (j + h)
  }

  /** The squared distance whose weight the builder stores in slot `k`. */
  function ScanDistance(h: nat, k: nat): nat
    requires k < Sq(2 * h)
  {
    Sq(k / (2 * h) - h) + Sq(k % (2 * h) - h)
  }

  /** The slot of offset `(i, j)` holds the weight of `i^2 + j^2`, and no other
      offset shares that slot. */
  lemma {:induction false} ScanDistanceAtSlot(h: nat, i: int, j: int)
    requires -(h as int) <= i < h && -(h as int) <= j < h
    ensures ScanDistance(h, SpatialSlot(h, i, j)) == Sq(i) + Sq(j)
    ensures forall i', j' :: -(h as int) <= i' < h && -(h as int) <= j' < h && SpatialSlot(h, i', j') == SpatialSlot(h, i, j)
              ==> i' == i && j' == j
  {
    Arith.RowMajor(i + h, j + h, 2 * h);
    forall i', j' | -(h as int) <= i' < h && -(h as int) <= j' < h && SpatialSlot(h, i', j') == SpatialSlot(h, i, j)
      ensures i' == i && j' == j
    {
      Arith.RowMajor(i' + h, j' + h, 2 * h);
    }
  }

  /** Every slot below `(2h)^2` is the slot of some offset in the scanned square. */
  lemma {:induction false} ScanCoversSlots(h: nat, k: nat)
    requires k < Sq(2 * h)
    ensures -(h as int) <= k / (2 * h) - h < h && -(h as int) <= k % (2 * h) - h < h
    ensures SpatialSlot(h, k / (2 * h) - h, k % (2 * h) - h) == k
  {
    var n := 2 * h;
    assert n > 0;
    Arith.FloorDiv(k, n);
    var r := k / n;
    assert k == r * n + k % n;
    if r >= n {
      Arith.MulMonotone(n, r, n);
      assert false;
    }
  }

  /** How `calculate_gauss_spatial_lut(sigma)` ends under half-kernel size `h`:
      `sigma * sigma` overflows the u8 from 16 on and `2 * (sigma * sigma)`
      from 12 on; a scan of more than 255 offsets runs off the table. */
  function SpatialLutOutcome(sigma: u8, h: nat): Outcome<()>
  {
    if 2 * Sq(sigma) > U8_MAX then Panicked(ArithmeticOverflow)
    else if Sq(2 * h) > SPATIAL_LUT_LEN then Panicked(IndexOutOfBounds)
    else Returned(())
  }

  /** How many leading slots the builder has written when it returns or panics. */
  function SpatialFillCount(sigma: u8, h: nat): (n: nat)
    ensures n <= SPATIAL_LUT_LEN && n <= Sq(2 * h)
    ensures SpatialLutOutcome(sigma, h).Returned? ==> n == Sq(2 * h)
    ensures SpatialLutOutcome(sigma, h) == Panicked(IndexOutOfBounds) ==> n == SPATIAL_LUT_LEN
    ensures SpatialLutOutcome(sigma, h) == Panicked(ArithmeticOverflow) ==> n == 0
  {
    if 2 * Sq(sigma) > U8_MAX then 0
    else if Sq(2 * h) > SPATIAL_LUT_LEN then SPATIAL_LUT_LEN
    else Sq(2 * h)
  }

  lemma SpatialLutSucceeds(sigma: u8, h: nat)
    ensures SpatialLutOutcome(sigma, h).Returned? <==> sigma <= 11 && h <= 7
  {
    assert 2 * Sq(sigma) <= U8_MAX <==> sigma <= 11 by {
      if sigma >= 12 {
        Arith.MulMonotone(12, sigma, sigma);
        Arith.MulMonotone(12, sigma, 12);
      } else {
        Arith.MulMonotone(sigma, 11, sigma);
        Arith.MulMonotone(sigma, 11, 11);
      }
    }
    assert Sq(2 * h) <= SPATIAL_LUT_LEN <==> h <= 7 by {
      if h >= 8 {
        Arith.MulMonotone(16, 2 * h, 2 * h);
        Arith.MulMonotone(16, 2 * h, 16);
      } else {
        Arith.MulMonotone(2 * h, 14, 2 * h);
        Arith.MulMonotone(2 * h, 14, 14);
      }
    }
  }

  /** `after` is `before` with the leading `SpatialFillCount` slots rebuilt
      from the offset scan; every later slot keeps its old value. */
  ghost predicate SpatialLutRebuilt(num: Numerics, sigma: u8, h: nat, before: seq<real>, after: seq<real>)
  {
    |before| == |after| == SPATIAL_LUT_LEN &&
    forall k :: 0 <= k < SPATIAL_LUT_LEN ==>
      after[k] == if k < SpatialFillCount(sigma, h) then num.spatialWeight(sigma, ScanDistance(h, k)) else before[k]
  }

  /** For an odd window `ks = 2h + 1` the builder fills `(ks - 1)^2` slots
      while the convolution reads `ks^2`: the last `2 ks - 1` slots read are
      never written by the builder. */
  lemma FillShortOfWindow(ks: nat)
    requires ks % 2 == 1
    ensures Sq(2 * (ks / 2)) + 2 * ks - 1 == ks * ks
  {
    var h := ks / 2;
    assert ks == 2 * h + 1;
    calc {
      ks * ks;
      (2 * h + 1) * (2 * h + 1);
      4 * (h * h) + 4 * h + 1;
      { assert Sq(2 * h) == 4 * (h * h); }
      Sq(2 * h) + 2 * ks - 1;
    }
  }

  /** The builder's slot order is not the convolution's: in a 3 x 3 window the
      convolution weighs cell (row 1, column 0), one step from the centre,
      with slot 3, which the builder filled with the weight of distance 0. */
  lemma MisalignedSlotExample()
    ensures SpatialSlot(1, 0, 0) == 1 * 3 + 0
    ensures ScanDistance(1, 1 * 3 + 0) == 0 != Sq(1 - 1) + Sq(0 - 1)
  {
  }

  /** The same for every window with `h >= 2`: the builder stores offset
      `(0, 0)` in slot `h * 2h + h`, not in `h * ks + h` where the kernel
      reads its centre cell, and that slot holds the weight of distance
      `1 + h^2`, the offset `(1, -h)`. */
  lemma {:induction false} CentreSlotMisread(h: nat)
    requires h >= 2
    ensures SpatialSlot(h, 0, 0) == h * (2 * h) + h != h * (2 * h + 1) + h
    ensures h * (2 * h + 1) + h < Sq(2 * h)
    ensures ScanDistance(h, h * (2 * h + 1) + h) == 1 + Sq(h)
  {
    var k := h * (2 * h + 1) + h;
    assert k == (h + 1) * (2 * h) + 0;
    Arith.RowMajor(h + 1, 0, 2 * h);
    Arith.MulMonotone(2, h, h);
    assert Sq(2 * h) == 4 * (h * h);
  }
}
