/** `BilateralFilter`: the filter instance, its configuration and its run. */
module Filter {
  import opened Rust
  import opened Lut
  import opened KernelSize
  import opened Convolution
  import Arith

  class BilateralFilter {
    var kernelSize: u8
    var halfKernelSize: u8

    const intensityLut: array<real>
    const spatialLut: array<real>

    const imageWidth: u32
    const imageHeight: u32
    /** The host writes the image here (through the exported pointer) before a run. */
    const inputData: array<u8>
    /** The host reads the filtered image from here after a run. */
    const outputData: array<u8>

    /** The float numerics every weight and every output byte go through. */
    const num: Numerics

    ghost predicate Valid()
      reads this
    {
      intensityLut.Length == INTENSITY_LUT_LEN &&
      spatialLut.Length == SPATIAL_LUT_LEN &&
      imageWidth * imageHeight <= U32_MAX &&
      inputData.Length == imageWidth * imageHeight &&
      outputData.Length == imageWidth * imageHeight &&
      inputData != outputData && intensityLut != spatialLut &&
      halfKernelSize == kernelSize / 2
    }

    /** The window size is odd and at least 3: true after construction and
        after every `SetSigma`. */
    ghost predicate OddKernel()
      reads this
    {
      kernelSize % 2 == 1 && 3 <= kernelSize
    }

    /** Everything `Kernel` and `Run` read. */
    ghost function Current(): (s: Snapshot)
      reads this, intensityLut, spatialLut, inputData
      requires Valid()
      ensures Wellformed(s) && ImageShaped(s)
    {
      Snapshot(kernelSize, imageWidth, imageHeight,
               intensityLut[..], spatialLut[..], inputData[..], num)
    }

    /** The filter `new` builds: zero-filled buffers and tables, a 3 x 3
        window, for an image whose pixel count fits a u32. */
    constructor(imageWidth: u32, imageHeight: u32, num: Numerics)
      requires imageWidth * imageHeight <= U32_MAX
      ensures Valid() && OddKernel()
      ensures this.imageWidth == imageWidth && this.imageHeight == imageHeight && this.num == num
      ensures kernelSize == 3 && halfKernelSize == 1
      ensures fresh(intensityLut) && fresh(spatialLut) && fresh(inputData) && fresh(outputData)
      ensures forall d :: 0 <= d < intensityLut.Length ==> intensityLut[d] == 0.0
      ensures forall k :: 0 <= k < spatialLut.Length ==> spatialLut[k] == 0.0
      ensures forall p :: 0 <= p < inputData.Length ==> inputData[p] == 0
      ensures forall p :: 0 <= p < outputData.Length ==> outputData[p] == 0
    {
      var n := imageWidth * imageHeight;
      this.kernelSize := 3;
      this.halfKernelSize := 1;
      this.intensityLut := new real[INTENSITY_LUT_LEN](_ => 0.0);
      this.spatialLut := new real[SPATIAL_LUT_LEN](_ => 0.0);
      this.imageWidth := imageWidth;
      this.imageHeight := imageHeight;
      this.inputData := new u8[n](_ => 0);
      this.outputData := new u8[n](_ => 0);
      this.num := num;
    }

    /** `new` as the host calls it: the u32 product `width * height` panics
        when it overflows, and otherwise a fresh, zero-filled filter with a
        3 x 3 window is returned. */
    static method New(imageWidth: u32, imageHeight: u32, num: Numerics) returns (r: Outcome<BilateralFilter>)
      ensures r.Panicked? <==> imageWidth * imageHeight > U32_MAX
      ensures r.Panicked? ==> r.cause == ArithmeticOverflow
      ensures r.Returned? ==>
                fresh(r.value) && fresh(r.value.intensityLut) && fresh(r.value.spatialLut) &&
                fresh(r.value.inputData) && fresh(r.value.outputData) &&
                r.value.Valid() && r.value.OddKernel() &&
                r.value.kernelSize == 3 && r.value.halfKernelSize == 1 && r.value.num == num &&
                r.value.imageWidth == imageWidth && r.value.imageHeight == imageHeight
      ensures r.Returned? ==> forall d :: 0 <= d < r.value.intensityLut.Length ==> r.value.intensityLut[d] == 0.0
      ensures r.Returned? ==> forall k :: 0 <= k < r.value.spatialLut.Length ==> r.value.spatialLut[k] == 0.0
      ensures r.Returned? ==> forall p :: 0 <= p < r.value.inputData.Length ==> r.value.inputData[p] == 0
      ensures r.Returned? ==> forall p :: 0 <= p < r.value.outputData.Length ==> r.value.outputData[p] == 0
    {
      if imageWidth * imageHeight > U32_MAX {
        return Panicked(ArithmeticOverflow);
      }
      var filter := new BilateralFilter(imageWidth, imageHeight, num);
      r := Returned(filter);
    }

    /** `set_kernel_size`: both window fields change together. */
    method SetKernelSize(value: u8)
      requires Valid()
      modifies this
      ensures Valid()
      ensures kernelSize == value && 2 * halfKernelSize <= value <= 2 * halfKernelSize + 1
    {
      kernelSize := value;
      halfKernelSize := value / 2;
    }

    /** `calculate_intensity_lut`: rebuilds entries `0 .. 255` of the intensity
        table from `sigma`, or panics before writing anything. */
    method CalculateIntensityLut(sigma: u8) returns (r: Outcome<()>)
      requires Valid()
      modifies intensityLut
      ensures r == IntensityLutOutcome(sigma)
      ensures r.Returned? ==> IntensityLutRebuilt(num, sigma, old(intensityLut[..]), intensityLut[..])
      ensures r.Panicked? ==> intensityLut[..] == old(intensityLut[..])
    {
      if Sq(sigma) > U8_MAX {
        return Panicked(ArithmeticOverflow);
      }
      var intensitySquare := 2 * Sq(sigma);
      for i := 0 to INTENSITY_ENTRIES
        invariant intensitySquare == 0 ==> i == 0
        invariant forall d :: 0 <= d < i ==>
                    intensityLut[d] == num.intensityWeight(sigma, IntensityExponent(sigma, d))
        invariant forall d :: i <= d < INTENSITY_LUT_LEN ==> intensityLut[d] == old(intensityLut[d])
      {
        if intensitySquare == 0 {
          return Panicked(DivisionByZero);
        }
        intensityLut[i] := num.intensityWeight(sigma, Sq(i) / intensitySquare);
      }
      r := Returned(());
    }

    /** `calculate_gauss_spatial_lut`: scans the offsets `(i, j)` of
        `[-h, h) x [-h, h)` in row-major order and writes their weights into
        consecutive slots from 0, running off the table after slot 254. */
    method CalculateGaussSpatialLut(sigma: u8) returns (r: Outcome<()>)
      requires Valid()
      modifies spatialLut
      ensures r == SpatialLutOutcome(sigma, halfKernelSize)
      ensures SpatialLutRebuilt(num, sigma, halfKernelSize, old(spatialLut[..]), spatialLut[..])
    {
      if Sq(sigma) > U8_MAX || 2 * Sq(sigma) > U8_MAX {
        return Panicked(ArithmeticOverflow);
      }
      // `half_kernel_size as i8` is exact: the half size is at most 127
      var h: nat := halfKernelSize;
      var counter := 0;
      var i: int := -(h as int);
      while i < h
        invariant -(h as int) <= i <= h
        invariant counter == (i + h) * (2 * h)
        invariant counter <= SPATIAL_LUT_LEN && counter <= Sq(2 * h)
        invariant forall k :: 0 <= k < SPATIAL_LUT_LEN ==>
                    spatialLut[k] == if k < counter then num.spatialWeight(sigma, ScanDistance(h, k))
                                     else old(spatialLut[k])
      {
        var j: int := -(h as int);
        while j < h
          invariant -(h as int) <= j <= h
          invariant counter == (i + h) * (2 * h) + (j + h)
          invariant counter <= SPATIAL_LUT_LEN && counter <= Sq(2 * h)
          invariant forall k :: 0 <= k < SPATIAL_LUT_LEN ==>
                      spatialLut[k] == if k < counter then num.spatialWeight(sigma, ScanDistance(h, k))
                                       else old(spatialLut[k])
        {
          ScanDistanceAtSlot(h, i, j);
          assert SpatialSlot(h, i, j) == counter;
          if counter >= SPATIAL_LUT_LEN {
            return Panicked(IndexOutOfBounds);
          }
          spatialLut[counter] := num.spatialWeight(sigma, Sq(i) + Sq(j));
          counter := counter + 1;
          j := j + 1;
        }
        assert counter == (i + 1 + h) * (2 * h);
        i := i + 1;
      }
      r := Returned(());
    }

    /** `set_sigma`: maps the spatial sigma to a window size and applies it,
        then rebuilds the intensity table and, for the NEW half size, the
        spatial table. The first panic ends the call; what was already
        changed stays changed. */
    method SetSigma(spatial: u8, intensity: u8) returns (r: Outcome<()>)
      requires Valid()
      modifies this, intensityLut, spatialLut
      ensures Valid()
      ensures spatial == 0 ==>
                r == Panicked(ArithmeticOverflow) &&
                kernelSize == old(kernelSize) && halfKernelSize == old(halfKernelSize) &&
                intensityLut[..] == old(intensityLut[..]) && spatialLut[..] == old(spatialLut[..])
      ensures spatial != 0 ==> Returned(kernelSize) == CalculateKernelSize(spatial) && OddKernel()
      ensures spatial != 0 && IntensityLutOutcome(intensity).Panicked? ==>
                r == IntensityLutOutcome(intensity) &&
                intensityLut[..] == old(intensityLut[..]) && spatialLut[..] == old(spatialLut[..])
      ensures spatial != 0 && IntensityLutOutcome(intensity).Returned? ==>
                IntensityLutRebuilt(num, intensity, old(intensityLut[..]), intensityLut[..]) &&
                r == SpatialLutOutcome(spatial, halfKernelSize) &&
                SpatialLutRebuilt(num, spatial, halfKernelSize, old(spatialLut[..]), spatialLut[..])
      ensures old(OddKernel()) ==> OddKernel()
      ensures r.Returned? <==> 1 <= spatial <= 8 && 1 <= intensity <= 15
      ensures r.Returned? ==> kernelSize <= 15
    {
      var ks := CalculateKernelSize(spatial);
      if ks.Panicked? {
        return Panicked(ks.cause);
      }
      SetKernelSize(ks.value);
      IntensityLutSucceeds(intensity);
      r := CalculateIntensityLut(intensity);
      if r.Panicked? {
        return;
      }
      SpatialTableFits(spatial);
      SpatialLutSucceeds(spatial, halfKernelSize);
      r := CalculateGaussSpatialLut(spatial);
    }

    /** The inner loop of `kernel`: one window row of `ks` cells from input
        index `position`, weighted with spatial slots `slot0 ..`, added onto
        the running sums. It panics exactly when the row's last cell or last
        slot is out of range. */
    method KernelRow(position: u32, slot0: nat, centralPixel: u8, init: Accum) returns (r: Outcome<Accum>)
      requires Valid() && kernelSize > 0 && slot0 <= spatialLut.Length
      ensures r.Returned? <==> position + kernelSize <= inputData.Length && slot0 + kernelSize <= spatialLut.Length
      ensures r.Returned? ==> r.value == RowAcc(Current(), centralPixel, slot0, position, kernelSize, init)
    {
      ghost var s := Current();
      var ks: nat := kernelSize;
      var sumWeight, normalizeWeight := init.sum, init.norm;
      var counter: nat := slot0;
      var q: nat := 0;
      while q < ks
        invariant q <= ks
        invariant counter == slot0 + q
        invariant counter <= |s.spatialLut| && (q > 0 ==> position + q <= |s.input|)
        invariant Accum(sumWeight, normalizeWeight) == RowAcc(s, centralPixel, slot0, position, q, init)
      {
        if position + q > U32_MAX {
          return Panicked(ArithmeticOverflow);
        }
        if position + q >= inputData.Length {
          return Panicked(IndexOutOfBounds);
        }
        var nearbyPixel := inputData[position + q];
        if counter >= spatialLut.Length {
          return Panicked(IndexOutOfBounds);
        }
        var weight := num.times(spatialLut[counter], intensityLut[AbsDiff(nearbyPixel, centralPixel)]);
        RowAccStep(s, centralPixel, slot0, position, q, init, sumWeight, normalizeWeight, weight, nearbyPixel);
        sumWeight := num.plus(sumWeight, num.times(weight, nearbyPixel as real));
        normalizeWeight := num.plus(normalizeWeight, weight);
        counter := counter + 1;
        q := q + 1;
      }
      r := Returned(Accum(sumWeight, normalizeWeight));
    }

    /** `kernel(start_position, central_pixel)`: walks the `ks x ks` window
        whose top-left cell is `start_position`, weighting cell `(r, q)` with
        spatial slot `r * ks + q` and intensity entry `|n - central_pixel|`. */
    method Kernel(startPosition: u32, centralPixel: u8) returns (r: Outcome<u8>)
      requires Valid()
      ensures r.Returned? <==> KernelFits(Current(), startPosition)
      ensures r.Returned? ==> r.value == KernelValue(Current(), startPosition, centralPixel)
    {
      ghost var s := Current();
      var ks: nat, w: nat := kernelSize, imageWidth;
      var sumWeight, normalizeWeight := 0.0, 0.0;
      var counter: nat := 0;
      var position: u32 := startPosition;
      var row: nat := 0;
      while row < ks
        invariant row <= ks
        invariant position == startPosition + row * w
        invariant counter == row * ks
        invariant RowsReadable(s, startPosition, row)
        invariant Accum(sumWeight, normalizeWeight) == WindowAcc(s, startPosition, centralPixel, row)
      {
        var sums := KernelRow(position, counter, centralPixel, Accum(sumWeight, normalizeWeight));
        if sums.Panicked? {
          CellOutOfRange(s, startPosition, row, ks - 1);
          return Panicked(sums.cause);
        }
        NextRowReadable(s, startPosition, row);
        WindowAccNextRow(s, startPosition, centralPixel, row, counter, position);
        sumWeight, normalizeWeight := sums.value.sum, sums.value.norm;
        counter := counter + ks;
        if position + w > U32_MAX {
          RowStartOverflows(s, startPosition, row);
          return Panicked(ArithmeticOverflow);
        }
        position := position + w;
        row := row + 1;
      }
      r := Returned(num.roundToByte(sumWeight, normalizeWeight));
    }

    /** One step of `run`: the kernel of interior pixel `central`, whose
        window starts at `start`, written at that pixel of the output. */
    method RunPixel(central: nat, start: u32, ghost before: seq<u8>) returns (r: Outcome<()>)
      requires Valid() && central < inputData.Length
      requires IsInterior(imageWidth, imageHeight, halfKernelSize, central)
      requires start == KernelStart(imageWidth, halfKernelSize, central)
      requires RunProgress(Current(), before, outputData[..], central)
      modifies outputData
      ensures Current() == old(Current())
      ensures r.Returned? ==> RunProgress(Current(), before, outputData[..], central + 1)
      ensures r.Panicked? ==> !KernelFits(Current(), start)
      ensures r.Panicked? ==> !RunFits(Current()) && outputData[..] == old(outputData[..])
    {
      ghost var s := Current();
      var kr := Kernel(start, inputData[central]);
      if kr.Panicked? {
        PanicStopsRun(s, central);
        return Panicked(kr.cause);
      }
      ProgressWrite(s, before, outputData[..], central, kr.value);
      outputData[central] := kr.value;
      r := Returned(());
    }

    /** The inner loop of `run`: evaluates the kernel for the interior pixels
        `h .. w - h` of image row `row`, whose first pixel is `height`; the
        window of column `j` starts at `top_left + (j - h)`. A run that had
        reached the start of the row reaches its end, or stops at the pixel
        whose kernel panics. */
    method RunRow(row: nat, height: u32, topLeft: u32, ghost before: seq<u8>) returns (r: Outcome<()>, ghost reached: int)
      requires Valid()
      requires halfKernelSize <= row < imageHeight - halfKernelSize && halfKernelSize <= imageWidth
      requires height == row * imageWidth && topLeft == height - halfKernelSize * imageWidth
      requires RunProgress(Current(), before, outputData[..], height)
      modifies outputData
      ensures Current() == old(Current())
      ensures RunProgress(Current(), before, outputData[..], reached)
      ensures r.Returned? ==> reached == height + imageWidth
      ensures r.Panicked? ==> !RunFits(Current())
      // it stops at the interior pixel whose kernel panics
      ensures r.Panicked? ==> height <= reached < height + imageWidth
      ensures r.Panicked? ==>
                0 <= reached < inputData.Length &&
                IsInterior(imageWidth, imageHeight, halfKernelSize, reached) &&
                !KernelFits(Current(), KernelStart(imageWidth, halfKernelSize, reached))
    {
      ghost var s := Current();
      var h: nat, w: nat := halfKernelSize, imageWidth;
      var endWidth: u32 := w - h;
      ProgressPastRowEdge(s, before, outputData[..], row, height, 0, h);
      var col: nat := h;
      while col < endWidth
        invariant h <= col && (col <= endWidth || col == h)
        invariant RunProgress(s, before, outputData[..], height + col)
      {
        InteriorPixel(w, imageHeight, h, row, col, height, height + col);
        var pr := RunPixel(height + col, topLeft + (col - h), before);
        if pr.Panicked? {
          return pr, height + col;
        }
        col := col + 1;
      }
      ProgressPastRowEdge(s, before, outputData[..], row, height, col, w);
      r, reached := Returned(()), height + w;
    }

    /** `run`: evaluates the kernel for every interior pixel, row by row, and
        writes the result at that pixel of the output buffer. The row and
        column bounds `height - h` and `width - h` are u32 subtractions. */
    method Run() returns (r: Outcome<()>)
      requires Valid()
      modifies outputData
      ensures r.Returned? <==> RunFits(Current())
      ensures r.Returned? ==> outputData[..] == RunOutput(Current(), old(outputData[..]))
      ensures r.Panicked? ==> exists cut :: RunStoppedAt(Current(), old(outputData[..]), outputData[..], cut)
      ensures r.Panicked? && (imageHeight < halfKernelSize || imageWidth < halfKernelSize) ==>
                r.cause == ArithmeticOverflow
      // border pixels are never written, whether the run completes or not
      ensures forall k :: 0 <= k < outputData.Length && !IsInterior(imageWidth, imageHeight, halfKernelSize, k)
                ==> outputData[k] == old(outputData[k])
    {
      ghost var s := Current();
      ghost var before := outputData[..];
      var h: nat, w: nat := halfKernelSize, imageWidth;
      assert RunProgress(s, before, outputData[..], 0);
      ProgressKeepsBorder(s, before, outputData[..], 0);
      if imageHeight < h || w < h {
        // `image_height - h` or `image_width - h` underflows
        assert RunStoppedAt(s, before, outputData[..], 0);
        return Panicked(ArithmeticOverflow);
      }
      var endHeight: u32 := imageHeight - h;
      Arith.MulMonotone(h, imageHeight, w);
      var stride: u32 := h * w;
      var height: u32 := h * w;
      ProgressPastTopRows(s, before, outputData[..]);
      var row: nat := h;
      while row < endHeight
        invariant h <= row && (row <= endHeight || row == h)
        invariant height == row * w
        invariant RunProgress(s, before, outputData[..], height)
      {
        Arith.NextRowStart(row, w, imageHeight);
        Arith.MulMonotone(h, row, w);
        var topLeft: u32 := height - stride;
        var rr, reached := RunRow(row, height, topLeft, before);
        if rr.Panicked? {
          ProgressKeepsBorder(s, before, outputData[..], reached);
          assert RunStoppedAt(s, before, outputData[..], reached);
          return Panicked(rr.cause);
        }
        height := height + w;
        row := row + 1;
      }
      RunComplete(s, before, outputData[..], row);
      r := Returned(());
    }
  }
}
