/** The convolution engine as functions of a snapshot of the filter's state:
    which cells one kernel evaluation reads, which pixels a run writes, and
    when either of them panics. */
module Convolution {
  import opened Rust
  import opened Lut
  import Arith

  /** What `kernel` and `run` read: the window size, the image geometry, both
      tables, the input buffer and the float numerics. */
  datatype Snapshot = Snapshot(
    kernelSize: nat,
    width: nat,
    height: nat,
    intensityLut: seq<real>,
    spatialLut: seq<real>,
    input: seq<u8>,
    num: Numerics)

  /** The tables have their fixed lengths. */
  ghost predicate Wellformed(s: Snapshot)
  {
    |s.intensityLut| == INTENSITY_LUT_LEN &&
    |s.spatialLut| == SPATIAL_LUT_LEN
  }

  /** The input buffer holds `width x height` pixels, a count that fits a u32. */
  ghost predicate ImageShaped(s: Snapshot)
  {
    |s.input| == s.width * s.height && s.width * s.height <= U32_MAX
  }

  /** The running sums `sum_weight` and `normalize_weight`. */
  datatype Accum = Accum(sum: real, norm: real)

  // ------------------------------------------------------------ one kernel

  /** `kernel(start, _)` completes: its last spatial slot `ks^2 - 1` and its
      last input cell `start + (ks-1) w + (ks-1)` are in range, and the final
      `start_position += image_width` stays within u32. */
  ghost predicate KernelFits(s: Snapshot, start: int)
  {
    var ks, w := s.kernelSize, s.width;
    0 <= start &&
    (ks > 0 ==> ks * ks <= |s.spatialLut| && start + (ks - 1) * w + (ks - 1) < |s.input|) &&
    start + ks * w <= U32_MAX
  }

  /** The first `rows` rows of the window can be read. */
  ghost predicate RowsReadable(s: Snapshot, start: int, rows: nat)
  {
    var ks, w := s.kernelSize, s.width;
    0 <= start && rows <= ks &&
    (rows > 0 ==> rows * ks <= |s.spatialLut| && start + (rows - 1) * w + (ks - 1) < |s.input|)
  }

  lemma FitsReadable(s: Snapshot, start: int)
    requires KernelFits(s, start)
    ensures RowsReadable(s, start, s.kernelSize)
  {
  }

  lemma {:induction false} FewerRowsReadable(s: Snapshot, start: int, rows: nat)
    requires RowsReadable(s, start, rows) && rows > 0
    ensures RowsReadable(s, start, rows - 1)
  {
    Arith.MulMonotone(rows - 1, rows, s.kernelSize);
    if rows > 1 {
      Arith.MulMonotone(rows - 2, rows - 1, s.width);
    }
  }

  /** Cell `(row, q)` of the window lies past the input, or its slot past the
      spatial table: the kernel cannot complete. */
  lemma {:induction false} CellOutOfRange(s: Snapshot, start: int, row: nat, q: nat)
    requires 0 <= start && row < s.kernelSize && q < s.kernelSize
    requires start + row * s.width + q >= |s.input| || row * s.kernelSize + q >= |s.spatialLut|
    ensures !KernelFits(s, start)
  {
    var ks, w := s.kernelSize, s.width;
    Arith.MulMonotone(row, ks - 1, w);
    Arith.CellBelowGrid(row, q, ks, ks);
  }

  /** A window row read in full extends the readable rows by one. */
  lemma {:induction false} NextRowReadable(s: Snapshot, start: int, row: nat)
    requires RowsReadable(s, start, row) && row < s.kernelSize
    requires start + row * s.width + (s.kernelSize - 1) < |s.input|
    requires row * s.kernelSize + s.kernelSize <= |s.spatialLut|
    ensures RowsReadable(s, start, row + 1)
    ensures (row + 1) * s.width == row * s.width + s.width
    ensures (row + 1) * s.kernelSize == row * s.kernelSize + s.kernelSize
  {
  }

  /** Stepping the row start past u32 before the last row is done. */
  lemma {:induction false} RowStartOverflows(s: Snapshot, start: int, row: nat)
    requires row < s.kernelSize && start + row * s.width + s.width > U32_MAX
    ensures !KernelFits(s, start)
  {
    Arith.MulMonotone(row + 1, s.kernelSize, s.width);
  }

  /** The weight of the cell at input index `cell` read with spatial slot
      `slot`: the spatial weight times the intensity entry of `|n - c|`. */
  ghost function CellWeight(s: Snapshot, c: u8, slot: nat, cell: nat): real
    requires Wellformed(s) && slot < |s.spatialLut| && cell < |s.input|
  {
    s.num.times(s.spatialLut[slot], s.intensityLut[AbsDiff(s.input[cell], c)])
  }

  /** The first `q` cells of a window row added in order onto `init`; the
      row's cells start at input index `cell0` and its slots at `slot0`. */
  ghost function RowAcc(s: Snapshot, c: u8, slot0: nat, cell0: nat, q: nat, init: Accum): Accum
    requires Wellformed(s) && slot0 + q <= |s.spatialLut| && (q == 0 || cell0 + q <= |s.input|)
    decreases q
  {
    if q == 0 then init
    else
      var a := RowAcc(s, c, slot0, cell0, q - 1, init);
      var weight := CellWeight(s, c, slot0 + q - 1, cell0 + q - 1);
      var n := s.input[cell0 + q - 1];
      Accum(s.num.plus(a.sum, s.num.times(weight, n as real)), s.num.plus(a.norm, weight))
  }

  /** One more cell of a row: its weight and its weighted pixel are added on. */
  lemma RowAccStep(s: Snapshot, c: u8, slot0: nat, cell0: nat, q: nat, init: Accum,
                   sum: real, norm: real, weight: real, n: u8)
    requires Wellformed(s) && slot0 + q < |s.spatialLut| && cell0 + q < |s.input|
    requires RowAcc(s, c, slot0, cell0, q, init) == Accum(sum, norm)
    requires weight == CellWeight(s, c, slot0 + q, cell0 + q) && n == s.input[cell0 + q]
    ensures RowAcc(s, c, slot0, cell0, q + 1, init)
            == Accum(s.num.plus(sum, s.num.times(weight, n as real)), s.num.plus(norm, weight))
  {
  }

  /** All cells of the first `rows` window rows, in row-major order, from
      zero: row `r` reads slots `r * ks ..` and cells `start + r * w ..`. */
  ghost function WindowAcc(s: Snapshot, start: int, c: u8, rows: nat): Accum
    requires Wellformed(s) && RowsReadable(s, start, rows)
    decreases rows
  {
    if rows == 0 then Accum(0.0, 0.0)
    else
      FewerRowsReadable(s, start, rows);
      Arith.NextRowStart(rows - 1, s.kernelSize, rows);
      RowAcc(s, c, (rows - 1) * s.kernelSize, start + (rows - 1) * s.width, s.kernelSize,
             WindowAcc(s, start, c, rows - 1))
  }

  /** The last of `rows` window rows is added onto the rows before it. */
  lemma WindowAccLastRow(s: Snapshot, start: int, c: u8, rows: nat)
    requires Wellformed(s) && RowsReadable(s, start, rows) && rows > 0
    ensures RowsReadable(s, start, rows - 1)
    ensures 0 <= (rows - 1) * s.kernelSize && 0 <= (rows - 1) * s.width
    ensures (rows - 1) * s.kernelSize + s.kernelSize == rows * s.kernelSize <= |s.spatialLut|
    ensures start + (rows - 1) * s.width + s.kernelSize <= |s.input|
    ensures WindowAcc(s, start, c, rows)
            == RowAcc(s, c, (rows - 1) * s.kernelSize, start + (rows - 1) * s.width, s.kernelSize,
                      WindowAcc(s, start, c, rows - 1))
  {
    FewerRowsReadable(s, start, rows);
    Arith.NextRowStart(rows - 1, s.kernelSize, rows);
    Arith.MulMonotone(0, rows - 1, s.kernelSize);
    Arith.MulMonotone(0, rows - 1, s.width);
  }

  /** Row `row` of the window, whose slots start at `slot0 = row * ks` and
      whose cells start at `cell0 = start + row * w`, added onto the rows
      before it. */
  lemma WindowAccNextRow(s: Snapshot, start: int, c: u8, row: nat, slot0: nat, cell0: nat)
    requires Wellformed(s) && RowsReadable(s, start, row + 1) && RowsReadable(s, start, row)
    requires slot0 == row * s.kernelSize && cell0 == start + row * s.width
    requires slot0 + s.kernelSize <= |s.spatialLut| && cell0 + s.kernelSize <= |s.input|
    ensures WindowAcc(s, start, c, row + 1) == RowAcc(s, c, slot0, cell0, s.kernelSize, WindowAcc(s, start, c, row))
  {
    WindowAccLastRow(s, start, c, row + 1);
  }

  /** The byte `kernel(start, c)` returns. */
  ghost function KernelValue(s: Snapshot, start: int, c: u8): u8
    requires Wellformed(s) && KernelFits(s, start)
  {
    FitsReadable(s, start);
    var acc := WindowAcc(s, start, c, s.kernelSize);
    s.num.roundToByte(acc.sum, acc.norm)
  }

  /** Two states that agree on the cells and slots of one row, on the
      intensity table and on the numerics accumulate that row alike. */
  lemma {:induction false} RowAccReadsRow(s: Snapshot, t: Snapshot, c: u8, slot0: nat, cell0: nat, q: nat, init: Accum)
    requires Wellformed(s) && Wellformed(t) && t.intensityLut == s.intensityLut && t.num == s.num
    requires slot0 + q <= |s.spatialLut| && cell0 + q <= |s.input| && cell0 + q <= |t.input|
    requires forall p :: slot0 <= p < slot0 + q ==> t.spatialLut[p] == s.spatialLut[p]
    requires forall p :: cell0 <= p < cell0 + q ==> t.input[p] == s.input[p]
    ensures RowAcc(s, c, slot0, cell0, q, init) == RowAcc(t, c, slot0, cell0, q, init)
    decreases q
  {
    if q > 0 {
      RowAccReadsRow(s, t, c, slot0, cell0, q - 1, init);
    }
  }

  /** The cell `(r, q)` of the window that starts at `start`; it is no later
      than the last cell of the first `rows` rows. */
  function WindowCell(start: nat, w: nat, ks: nat, rows: nat, r: nat, q: nat): (cell: nat)
    requires r < rows && q < ks
    ensures cell <= start + (rows - 1) * w + (ks - 1)
  {
    Arith.MulMonotone(r, rows - 1, w);
    start + r * w + q
  }

  /** Two inputs agree on the cells of the first `rows` window rows. */
  ghost predicate SameWindowCells(s: Snapshot, t: Snapshot, start: nat, rows: nat)
    requires RowsReadable(s, start, rows) && RowsReadable(t, start, rows)
    requires t.width == s.width && t.kernelSize == s.kernelSize
  {
    forall r, q :: 0 <= r < rows && 0 <= q < s.kernelSize ==>
      var cell := WindowCell(start, s.width, s.kernelSize, rows, r, q);
      t.input[cell] == s.input[cell]
  }

  lemma {:induction false} SameWindowCellsSplit(s: Snapshot, t: Snapshot, start: nat, rows: nat)
    requires RowsReadable(s, start, rows) && RowsReadable(t, start, rows)
    requires t.width == s.width && t.kernelSize == s.kernelSize
    requires rows > 0 && SameWindowCells(s, t, start, rows)
    ensures RowsReadable(s, start, rows - 1) && RowsReadable(t, start, rows - 1)
    ensures SameWindowCells(s, t, start, rows - 1)
    ensures var cell0 := start + (rows - 1) * s.width;
            cell0 + s.kernelSize <= |s.input| && cell0 + s.kernelSize <= |t.input| &&
            forall p :: cell0 <= p < cell0 + s.kernelSize ==> t.input[p] == s.input[p]
  {
    var ks, w, r := s.kernelSize, s.width, rows - 1;
    FewerRowsReadable(s, start, rows);
    FewerRowsReadable(t, start, rows);
    forall r', q' | 0 <= r' < r && 0 <= q' < ks
      ensures var cell := WindowCell(start, w, ks, r, r', q'); t.input[cell] == s.input[cell]
    {
      assert WindowCell(start, w, ks, r, r', q') == WindowCell(start, w, ks, rows, r', q');
    }
    var cell0 := start + r * w;
    forall p | cell0 <= p < cell0 + ks
      ensures t.input[p] == s.input[p]
    {
      var cell := WindowCell(start, w, ks, rows, r, p - cell0);
      assert cell == p;
    }
  }

  /** The first `rows` window rows read nothing but spatial slots
      `0 .. rows * ks`, the intensity table and the input cells
      `start + r w + q` with `r < rows`, `q < ks`. */
  lemma {:induction false} WindowAccReadsWindow(s: Snapshot, t: Snapshot, start: nat, c: u8, rows: nat)
    requires Wellformed(s) && Wellformed(t) && RowsReadable(s, start, rows) && RowsReadable(t, start, rows)
    requires t.kernelSize == s.kernelSize && t.width == s.width && t.num == s.num
    requires t.intensityLut == s.intensityLut
    requires forall p :: 0 <= p < rows * s.kernelSize ==> t.spatialLut[p] == s.spatialLut[p]
    requires SameWindowCells(s, t, start, rows)
    ensures WindowAcc(s, start, c, rows) == WindowAcc(t, start, c, rows)
    decreases rows
  {
    if rows > 0 {
      SameWindowCellsSplit(s, t, start, rows);
      WindowAccLastRow(s, start, c, rows);
      WindowAccReadsWindow(s, t, start, c, rows - 1);
      WindowAccNextRowAlike(s, t, start, c, rows - 1, (rows - 1) * s.kernelSize, start + (rows - 1) * s.width);
    }
  }

  /** Two window sums that agree on their first `row` rows still agree once
      row `row`, which both states hold alike, is added; its slots start at
      `slot0` and its cells at `cell0`. */
  lemma WindowAccNextRowAlike(s: Snapshot, t: Snapshot, start: nat, c: u8, row: nat, slot0: nat, cell0: nat)
    requires Wellformed(s) && Wellformed(t)
    requires RowsReadable(s, start, row + 1) && RowsReadable(t, start, row + 1)
    requires RowsReadable(s, start, row) && RowsReadable(t, start, row)
    requires t.kernelSize == s.kernelSize && t.width == s.width && t.num == s.num
    requires t.intensityLut == s.intensityLut
    requires slot0 == row * s.kernelSize && cell0 == start + row * s.width
    requires slot0 + s.kernelSize <= |s.spatialLut| && cell0 + s.kernelSize <= |s.input| && cell0 + s.kernelSize <= |t.input|
    requires forall p :: slot0 <= p < slot0 + s.kernelSize ==> t.spatialLut[p] == s.spatialLut[p]
    requires forall p :: cell0 <= p < cell0 + s.kernelSize ==> t.input[p] == s.input[p]
    requires WindowAcc(s, start, c, row) == WindowAcc(t, start, c, row)
    ensures WindowAcc(s, start, c, row + 1) == WindowAcc(t, start, c, row + 1)
  {
    WindowAccNextRow(s, start, c, row, slot0, cell0);
    WindowAccNextRow(t, start, c, row, slot0, cell0);
    RowAccReadsRow(s, t, c, slot0, cell0, s.kernelSize, WindowAcc(s, start, c, row));
  }

  /** `kernel(start, c)` reads nothing but spatial slots `0 .. ks^2`, the
      intensity table and the `ks x ks` window cells `start + r w + q`. */
  lemma KernelReadsOnlyWindow(s: Snapshot, t: Snapshot, start: nat, c: u8)
    requires Wellformed(s) && Wellformed(t) && KernelFits(s, start) && KernelFits(t, start)
    requires t.kernelSize == s.kernelSize && t.width == s.width && t.num == s.num
    requires t.intensityLut == s.intensityLut
    requires forall p :: 0 <= p < s.kernelSize * s.kernelSize ==> t.spatialLut[p] == s.spatialLut[p]
    requires SameWindowCells(s, t, start, s.kernelSize)
    ensures KernelValue(s, start, c) == KernelValue(t, start, c)
  {
    WindowAccReadsWindow(s, t, start, c, s.kernelSize);
  }

  // ------------------------------------------------------------ the run

  /** Pixel `k` lies at least `h` rows and columns away from every edge. */
  predicate IsInterior(w: nat, height: nat, h: nat, k: nat)
  {
    w > 0 && h <= k / w < height - h && h <= k % w < w - h
  }

  /** `top_left_kernel_index + (j - half_kernel_size)` for pixel `k`: the
      index `h` rows above and `h` columns left of `k`. */
  function KernelStart(w: nat, h: nat, k: nat): int
  {
    k - h * w - h
  }

  /** For an interior pixel the window of rows and columns `[-h, h]` around it
      lies inside the image without wrapping, and is centred on the pixel. */
  lemma {:induction false} WindowInImage(w: nat, height: nat, h: nat, k: nat, r: nat, q: nat)
    requires IsInterior(w, height, h, k) && r <= 2 * h && q <= 2 * h
    ensures KernelStart(w, h, k) + r * w + q == (k / w - h + r) * w + (k % w - h + q)
    ensures 0 <= k / w - h + r < height && 0 <= k % w - h + q < w
    ensures 0 <= KernelStart(w, h, k) + r * w + q < w * height
    ensures KernelStart(w, h, k) + h * w + h == k
  {
    var row, col := k / w, k % w;
    assert k == row * w + col;
    assert (row - h + r) * w == row * w - h * w + r * w;
    Arith.CellBelowGrid(row - h + r, col - h + q, height, w);
  }

  /** `run` completes: its row and column ranges do not underflow and the
      kernel of every interior pixel completes. */
  ghost predicate RunFits(s: Snapshot)
  {
    var h := s.kernelSize / 2;
    h <= s.height && h <= s.width &&
    forall k :: 0 <= k < |s.input| && IsInterior(s.width, s.height, h, k) ==>
      KernelFits(s, KernelStart(s.width, h, k))
  }

  /** The output buffer after a completed run that started from `out`. */
  ghost function RunOutput(s: Snapshot, out: seq<u8>): (r: seq<u8>)
    requires Wellformed(s) && RunFits(s) && |out| == |s.input|
  {
    var h := s.kernelSize / 2;
    seq(|out|, k requires 0 <= k < |out| =>
      if IsInterior(s.width, s.height, h, k) then KernelValue(s, KernelStart(s.width, h, k), s.input[k])
      else out[k])
  }

  /** Running twice gives what running once gives: the interior depends only on
      the input and the tables, and the border is left as it was. */
  lemma RunOutputIdempotent(s: Snapshot, out: seq<u8>)
    requires Wellformed(s) && RunFits(s) && |out| == |s.input|
    ensures RunOutput(s, RunOutput(s, out)) == RunOutput(s, out)
  {
  }

  /** No interior pixel lies after `(height - h - 1, w - h - 1)`. */
  lemma {:induction false} InteriorBeforeLast(w: nat, height: nat, h: nat, k: nat)
    requires IsInterior(w, height, h, k)
    ensures k <= (height - h - 1) * w + (w - h - 1)
  {
    var row, col := k / w, k % w;
    assert k == row * w + col;
    Arith.MulMonotone(row, height - h - 1, w);
  }

  lemma {:induction false} LastIsInterior(w: nat, height: nat, h: nat, last: nat)
    requires 2 * h + 1 <= height && 2 * h + 1 <= w
    requires last == (height - h - 1) * w + (w - h - 1)
    ensures IsInterior(w, height, h, last) && last < w * height
  {
    Arith.RowMajor(height - h - 1, w - h - 1, w);
    Arith.CellBelowGrid(height - h - 1, w - h - 1, height, w);
  }

  lemma {:induction false} LastWindowEnd(w: nat, height: nat, h: nat, last: nat)
    requires 2 * h + 1 <= height && 2 * h + 1 <= w
    requires last == (height - h - 1) * w + (w - h - 1)
    ensures KernelStart(w, h, last) + (2 * h + 1) * w == w * height + w - (2 * h + 1)
  {
    assert (height - h - 1) * w == height * w - h * w - w;
    assert (2 * h + 1) * w == 2 * h * w + w;
  }

  /** The last interior pixel, `(height - h - 1, w - h - 1)`, has the last
      window of the run: every interior window starts no later, and its final
      row step reaches `w * height + w - ks`. */
  lemma {:induction false} LastInteriorPixel(w: nat, height: nat, h: nat) returns (last: nat)
    requires 2 * h + 1 <= height && 2 * h + 1 <= w
    ensures IsInterior(w, height, h, last) && last < w * height
    ensures KernelStart(w, h, last) + (2 * h + 1) * w == w * height + w - (2 * h + 1)
    ensures forall k: nat :: IsInterior(w, height, h, k) ==> KernelStart(w, h, k) <= KernelStart(w, h, last)
  {
    Arith.MulMonotone(0, height - h - 1, w);
    last := (height - h - 1) * w + (w - h - 1);
    LastIsInterior(w, height, h, last);
    LastWindowEnd(w, height, h, last);
    forall k: nat | IsInterior(w, height, h, k)
      ensures KernelStart(w, h, k) <= KernelStart(w, h, last)
    {
      InteriorBeforeLast(w, height, h, k);
    }
  }

  /** The window of an interior pixel whose start is no later than `bound`
      fits when `ks^2` slots fit the table and `bound + ks w` fits a u32. */
  lemma {:induction false} InteriorKernelFits(s: Snapshot, k: nat, bound: int)
    requires Wellformed(s) && ImageShaped(s) && s.kernelSize % 2 == 1
    requires IsInterior(s.width, s.height, s.kernelSize / 2, k)
    requires KernelStart(s.width, s.kernelSize / 2, k) <= bound
    requires s.kernelSize * s.kernelSize <= SPATIAL_LUT_LEN && bound + s.kernelSize * s.width <= U32_MAX
    ensures KernelFits(s, KernelStart(s.width, s.kernelSize / 2, k))
  {
    var h := s.kernelSize / 2;
    WindowInImage(s.width, s.height, h, k, 2 * h, 2 * h);
    WindowInImage(s.width, s.height, h, k, 0, 0);
  }

  /** For an odd window `ks = 2h + 1`, a run completes exactly when the image
      has at least `h` rows and columns and, if any pixel is interior, the
      window's `ks^2` slots fit the 255-slot table and the last kernel's final
      row step `w * height + w - ks` stays within u32. */
  lemma {:induction false} RunFitsExactly(s: Snapshot)
    requires Wellformed(s) && ImageShaped(s) && s.kernelSize % 2 == 1
    ensures var ks, h, w := s.kernelSize, s.kernelSize / 2, s.width;
            RunFits(s) <==>
              h <= s.height && h <= w &&
              (s.height < ks || w < ks ||
               (ks * ks <= SPATIAL_LUT_LEN && w * s.height + w - ks <= U32_MAX))
  {
    var ks, h, w, height := s.kernelSize, s.kernelSize / 2, s.width, s.height;
    if h <= height && h <= w {
      if ks <= height && ks <= w {
        var last := LastInteriorPixel(w, height, h);
        if ks * ks <= SPATIAL_LUT_LEN && w * height + w - ks <= U32_MAX {
          forall k | 0 <= k < |s.input| && IsInterior(w, height, h, k)
            ensures KernelFits(s, KernelStart(w, h, k))
          {
            InteriorKernelFits(s, k, KernelStart(w, h, last));
          }
        } else {
          assert !KernelFits(s, KernelStart(w, h, last));
        }
      }
    }
  }

  /** For the window sizes a completed `set_sigma` leaves behind (odd, 3 to 15) the
      spatial table is never overrun, and a run completes exactly when the
      image is at least `h` pixels high and wide and not within one row of
      the u32 limit. */
  lemma ConfiguredRunFits(s: Snapshot)
    requires Wellformed(s) && ImageShaped(s) && s.kernelSize % 2 == 1 && 3 <= s.kernelSize <= 15
    ensures var ks, h, w := s.kernelSize, s.kernelSize / 2, s.width;
            RunFits(s) <==>
              h <= s.height && h <= w &&
              (s.height < ks || w < ks || w * s.height + w - ks <= U32_MAX)
  {
    Arith.MulMonotone(s.kernelSize, 15, s.kernelSize);
    Arith.MulMonotone(s.kernelSize, 15, 15);
    RunFitsExactly(s);
  }

  /** The output of a run interrupted at pixel `cut`: every interior pixel
      before `cut` holds its kernel value, every other pixel is unchanged. */
  ghost predicate RunProgress(s: Snapshot, before: seq<u8>, after: seq<u8>, cut: int)
    requires Wellformed(s)
  {
    var h := s.kernelSize / 2;
    |before| == |after| == |s.input| &&
    forall k :: 0 <= k < |after| ==>
      if IsInterior(s.width, s.height, h, k) && k < cut then
        KernelFits(s, KernelStart(s.width, h, k)) &&
        after[k] == KernelValue(s, KernelStart(s.width, h, k), s.input[k])
      else after[k] == before[k]
  }

  /** How an interrupted run ends: at pixel 0, when `height - h` or
      `width - h` underflows, or at the first interior pixel whose kernel
      cannot complete, with every interior pixel before it written. */
  ghost predicate RunStoppedAt(s: Snapshot, before: seq<u8>, after: seq<u8>, cut: int)
    requires Wellformed(s)
  {
    var h := s.kernelSize / 2;
    RunProgress(s, before, after, cut) &&
    ((cut == 0 && (s.height < h || s.width < h)) ||
     (0 <= cut < |s.input| && IsInterior(s.width, s.height, h, cut) &&
      !KernelFits(s, KernelStart(s.width, h, cut))))
  }

  /** Pixels `row * w + lo .. row * w + hi` of one row are border pixels when
      they all lie in the first or in the last `h` columns. */
  lemma {:induction false} RowEdgeIsBorder(w: nat, height: nat, h: nat, row: nat, lo: nat, hi: nat)
    requires lo <= hi <= w && (hi <= h || w - h <= lo)
    ensures forall k :: row * w + lo <= k < row * w + hi ==> !IsInterior(w, height, h, k)
  {
    forall k | row * w + lo <= k < row * w + hi
      ensures !IsInterior(w, height, h, k)
    {
      Arith.RowMajor(row, k - row * w, w);
    }
  }

  /** Pixels of rows `0 .. row` lie before `row * w`; the interior lies in rows
      `h .. height - h`. */
  lemma {:induction false} InteriorRows(w: nat, height: nat, h: nat, row: nat, k: nat)
    requires IsInterior(w, height, h, k)
    ensures k < row * w ==> k / w < row
    ensures k / w < row ==> k < row * w
  {
    var r := k / w;
    assert k == r * w + k % w;
    if k < row * w && r >= row {
      Arith.MulMonotone(row, r, w);
    }
    if r < row {
      Arith.MulMonotone(r + 1, row, w);
    }
  }

  /** Pixel `k = first + col` of the row that starts at `first = row * w`,
      with `h <= row < height - h` and `h <= col < w - h`, is interior, and its
      window starts at `top_left + (col - h)` where `top_left = first - h w`. */
  lemma {:induction false} InteriorPixel(w: nat, height: nat, h: nat, row: nat, col: nat, first: nat, k: nat)
    requires h <= row < height - h && h <= col < w - h
    requires first == row * w && k == first + col
    ensures IsInterior(w, height, h, k)
    ensures h * w <= first && KernelStart(w, h, k) == (first - h * w) + (col - h)
    ensures 0 <= KernelStart(w, h, k) <= k < w * height
  {
    Arith.MulMonotone(h, row, w);
    Arith.RowMajor(row, col, w);
    Arith.CellBelowGrid(row, col, height, w);
  }

  /** Writing the kernel value of interior pixel `cut` moves the run on by one. */
  lemma ProgressWrite(s: Snapshot, before: seq<u8>, after: seq<u8>, cut: nat, v: u8)
    requires Wellformed(s) && RunProgress(s, before, after, cut) && cut < |after|
    requires IsInterior(s.width, s.height, s.kernelSize / 2, cut)
    requires KernelFits(s, KernelStart(s.width, s.kernelSize / 2, cut))
    requires v == KernelValue(s, KernelStart(s.width, s.kernelSize / 2, cut), s.input[cut])
    ensures RunProgress(s, before, after[cut := v], cut + 1)
  {
  }

  /** Border pixels are passed over without a write. */
  lemma ProgressPastBorder(s: Snapshot, before: seq<u8>, after: seq<u8>, cut: nat, cut': nat)
    requires Wellformed(s) && RunProgress(s, before, after, cut) && cut <= cut'
    requires forall k :: cut <= k < cut' ==> !IsInterior(s.width, s.height, s.kernelSize / 2, k)
    ensures RunProgress(s, before, after, cut')
  {
  }

  /** The first and the last `h` pixels of the row that starts at
      `first = row * w` are passed over. */
  lemma ProgressPastRowEdge(s: Snapshot, before: seq<u8>, after: seq<u8>, row: nat, first: nat, lo: nat, hi: nat)
    requires Wellformed(s) && first == row * s.width && RunProgress(s, before, after, first + lo)
    requires var h := s.kernelSize / 2; lo <= hi <= s.width && (hi <= h || s.width - h <= lo)
    ensures RunProgress(s, before, after, first + hi)
  {
    RowEdgeIsBorder(s.width, s.height, s.kernelSize / 2, row, lo, hi);
    ProgressPastBorder(s, before, after, first + lo, first + hi);
  }

  /** The first `h` rows hold no interior pixel. */
  lemma ProgressPastTopRows(s: Snapshot, before: seq<u8>, after: seq<u8>)
    requires Wellformed(s) && RunProgress(s, before, after, 0)
    ensures RunProgress(s, before, after, s.kernelSize / 2 * s.width)
  {
    var h, w := s.kernelSize / 2, s.width;
    forall k | 0 <= k < h * w
      ensures !IsInterior(w, s.height, h, k)
    {
      if IsInterior(w, s.height, h, k) {
        InteriorRows(w, s.height, h, h, k);
      }
    }
    ProgressPastBorder(s, before, after, 0, h * w);
  }

  /** A kernel that cannot complete at an interior pixel stops the run. */
  lemma PanicStopsRun(s: Snapshot, k: nat)
    requires k < |s.input| && IsInterior(s.width, s.height, s.kernelSize / 2, k)
    requires !KernelFits(s, KernelStart(s.width, s.kernelSize / 2, k))
    ensures !RunFits(s)
  {
  }

  /** However far a run got, its border pixels are as they were. */
  lemma ProgressKeepsBorder(s: Snapshot, before: seq<u8>, after: seq<u8>, cut: int)
    requires Wellformed(s) && RunProgress(s, before, after, cut)
    ensures forall k :: 0 <= k < |after| && !IsInterior(s.width, s.height, s.kernelSize / 2, k) ==> after[k] == before[k]
  {
  }

  /** A run that has passed every interior pixel has produced `RunOutput`. */
  lemma RunProgressComplete(s: Snapshot, before: seq<u8>, after: seq<u8>, cut: int)
    requires Wellformed(s) && RunProgress(s, before, after, cut)
    requires s.kernelSize / 2 <= s.height && s.kernelSize / 2 <= s.width
    requires forall k :: 0 <= k < |s.input| && IsInterior(s.width, s.height, s.kernelSize / 2, k) ==> k < cut
    ensures RunFits(s) && after == RunOutput(s, before)
  {
    var out := RunOutput(s, before);
    assert forall k :: 0 <= k < |after| ==> after[k] == out[k];
  }

  /** A run that has passed row `height - h - 1` is complete. */
  lemma RunComplete(s: Snapshot, before: seq<u8>, after: seq<u8>, row: nat)
    requires Wellformed(s) && RunProgress(s, before, after, row * s.width)
    requires s.kernelSize / 2 <= s.height && s.kernelSize / 2 <= s.width
    requires s.height - s.kernelSize / 2 <= row
    ensures RunFits(s) && after == RunOutput(s, before)
  {
    forall k | 0 <= k < |s.input| && IsInterior(s.width, s.height, s.kernelSize / 2, k)
      ensures k < row * s.width
    {
      InteriorRows(s.width, s.height, s.kernelSize / 2, row, k);
    }
    RunProgressComplete(s, before, after, row * s.width);
  }
}
