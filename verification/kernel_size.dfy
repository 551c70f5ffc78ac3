/** The parameter mapper: from the spatial sigma to an odd window size. */
module KernelSize {
  import opened Rust
  import Arith

  /** `(1.95 * spatial as f32).floor() as u8`: the scaled sigma, floored and
      saturated at 255 by the float-to-u8 cast. For every u8 argument the
      f32 product floors to the same integer as the exact product. */
  function ScaledSigma(spatial: u8): (k: u8)
    ensures k < U8_MAX ==> (k as real) <= 1.95 * (spatial as real) < (k + 1) as real
    ensures k == U8_MAX <==> 1.95 * (spatial as real) >= U8_MAX as real
  {
    var scaled := 195 * spatial / 100;
    if scaled < U8_MAX then scaled else U8_MAX
  }

  /** `calculate_kernel_size`: an even scaled sigma is lowered by one, and
      the result is raised to at least 3. Lowering 0 underflows the u8. */
  function CalculateKernelSize(spatial: u8): (r: Outcome<u8>)
    ensures r.Panicked? <==> spatial == 0
    ensures r.Panicked? ==> r.cause == ArithmeticOverflow
    ensures r.Returned? ==> r.value % 2 == 1 && 3 <= r.value
    // the largest odd size not above the scaled sigma, or 3 when that is smaller
    ensures r.Returned? && ScaledSigma(spatial) < 3 ==> r.value == 3
    ensures r.Returned? && ScaledSigma(spatial) >= 3 ==>
              r.value <= ScaledSigma(spatial) < r.value + 2
  {
    var k := ScaledSigma(spatial);
    if k % 2 == 0 && k == 0 then
      Panicked(ArithmeticOverflow)
    else
      var odd := if k % 2 == 0 then k - 1 else k;
      Returned(if odd < 3 then 3 else odd)
  }

  lemma ScaledSigmaMonotone(a: u8, b: u8)
    requires a <= b
    ensures ScaledSigma(a) <= ScaledSigma(b)
  {
    assert 195 * a <= 195 * b;
    assert 195 * a / 100 <= 195 * b / 100;
  }

  /** A larger spatial sigma never gives a smaller window. */
  lemma {:induction false} KernelSizeMonotone(a: u8, b: u8)
    requires 0 < a <= b
    ensures CalculateKernelSize(a).value <= CalculateKernelSize(b).value
  {
    ScaledSigmaMonotone(a, b);
  }

  /** The window builds a spatial table of `(2 * half)^2 <= 255` entries
      exactly when the spatial sigma is at most 8 (sizes 3 to 15). */
  lemma {:induction false} SpatialTableFits(spatial: u8)
    requires spatial != 0
    ensures var h := CalculateKernelSize(spatial).value / 2;
            (2 * h) * (2 * h) <= 255 <==> spatial <= 8
    ensures spatial <= 8 ==> CalculateKernelSize(spatial).value <= 15
  {
    var ks := CalculateKernelSize(spatial).value;
    var h := ks / 2;
    if spatial <= 8 {
      KernelSizeMonotone(spatial, 8);
      assert CalculateKernelSize(8).value == 15;
      assert h <= 7;
      Arith.MulMonotone(2 * h, 14, 2 * h);
      Arith.MulMonotone(2 * h, 14, 14);
    } else {
      KernelSizeMonotone(9, spatial);
      assert CalculateKernelSize(9).value == 17;
      assert h >= 8;
      Arith.MulMonotone(16, 2 * h, 2 * h);
      Arith.MulMonotone(16, 2 * h, 16);
    }
  }

  /** The unit test's expectation: sigma 3 gives a 5 x 5 window. */
  lemma KernelSizeOfSigmaThree()
    ensures CalculateKernelSize(3) == Returned(5)
  {
  }
}
