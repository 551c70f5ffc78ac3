# Bilateral filter: a Dafny model

This project models `BilateralFilter` from `src/lib.rs`. It is an
edge-preserving image smoother compiled to WebAssembly. The host allocates a
filter for a `width x height` 8-bit grey image and writes the pixels into the
input buffer. It then calls `set_sigma(spatial, intensity)` and `run()`, and
reads the smoothed image back from the output buffer.

The model follows the source's integer semantics in a checked (debug) build.
Every u8 or u32 overflow, division by zero and out-of-range index is a panic.
It is modelled as `Outcome.Panicked(cause)`, next to `Outcome.Returned(value)`.

- `rust.dfy`: `Rust` holds the u8 and u32 ranges, `Panic`, `Outcome` and
  `abs_diff`. `Arith` holds the product, quotient and row-major facts that the
  index arithmetic needs.
- `kernel_size.dfy`: `KernelSize` maps the spatial sigma to an odd window
  size (`calculate_kernel_size`).
- `lut.dfy`: `Lut` describes the two lookup tables.
  - What the intensity builder writes: entries `0..255`, exponent
    `d^2 / (2 sigma^2)` in integer division.
  - What the spatial builder writes: offsets `[-h, h) x [-h, h)` in row-major
    order into consecutive slots, running off the 255-slot table when
    `(2h)^2 > 255`.
  - When each builder panics.
- `convolution.dfy`: `Convolution` gives functions of a snapshot of the
  filter's state.
  - Which cells and slots one kernel evaluation reads, in which order, and
    when it panics.
  - Which pixels a run writes (the interior, at least `h` away from every
    edge), and what a completed or interrupted run leaves in the output.
- `filter.dfy`: `Filter.BilateralFilter` is a class whose fields are the
  struct's fields, and `set_kernel_size`, the two table builders,
  `set_sigma`, `kernel` and `run` are its methods. The builders, `kernel` and
  `run` keep their loops, proved against the `Lut` and `Convolution`
  functions.

The floating-point parts are left uninterpreted in a `Numerics` value:

- the two Gaussian weights;
- f32 multiplication and addition, each of which rounds;
- the final `(sum / norm).round() as u8`.

Every proof holds for any choice of them. The integer arguments of the
weights are modelled exactly, as is the order in which the kernel adds its
terms: which spatial slot and which intensity entry each cell is weighted
with.

Two behaviours of the source are modelled as written and stated as lemmas:

- The spatial builder fills `(ks - 1)^2` slots, but the kernel reads `ks^2`
  slots (`Lut.FillShortOfWindow`).
- The builder's slot order differs from the kernel's (`Lut.MisalignedSlotExample`
  for a 3 x 3 window, `Lut.CentreSlotMisread` for every larger one).

## Model

| member | source | states |
|---|---|---|
| Rust.AbsDiff | src/lib.rs:102 | `abs_diff` is the distance between the two bytes, whichever is larger |
| KernelSize.ScaledSigma | src/lib.rs:122 | the scaled sigma is the floor of `1.95 * spatial`, saturated at 255 by the float-to-u8 cast |
| KernelSize.CalculateKernelSize | src/lib.rs:121-135 | panics (u8 underflow) exactly for `spatial = 0`; otherwise the result is odd and at least 3. It is 3 when the scaled sigma is below 3, and otherwise the largest odd number not above the scaled sigma |
| KernelSize.ScaledSigmaMonotone | src/lib.rs:122 | the scaled sigma never decreases as the spatial sigma grows |
| KernelSize.KernelSizeMonotone | src/lib.rs:121-135 | a larger spatial sigma never gives a smaller window |
| KernelSize.SpatialTableFits | src/lib.rs:121-135 | the `(2h)^2` offsets of the window fit the 255-slot spatial table exactly when `spatial <= 8`, and then the window is at most 15 |
| KernelSize.KernelSizeOfSigmaThree | src/lib.rs:194-200 | sigma 3 gives a window of 5, as the unit test expects |
| Lut.IntensityExponentIsFloor | src/lib.rs:140-144 | the i32 quotient `d^2 / (2 sigma^2)` is the floor of the exact ratio |
| Lut.IntensityPlateau | src/lib.rs:144 | the exponent is 0 exactly on the plateau `d^2 < 2 sigma^2` |
| Lut.IntensityExponentMonotone | src/lib.rs:144 | a larger intensity difference never gets a smaller exponent |
| Lut.IntensityLutSucceeds | src/lib.rs:137-146 | the intensity builder completes exactly for `1 <= sigma <= 15` (`sigma.pow(2)` overflows the u8 from 16; 0 divides by zero) |
| Lut.SpatialSlot | src/lib.rs:153-163 | the counter slot of offset `(i, j)` lies below `(2h)^2` |
| Lut.ScanDistanceAtSlot | src/lib.rs:158-161 | the slot of offset `(i, j)` holds the weight of `i^2 + j^2` (`hypot(i, j)^2`), and no other offset shares that slot |
| Lut.ScanCoversSlots | src/lib.rs:158-161 | every slot below `(2h)^2` is the slot of an offset in the scanned square |
| Lut.SpatialFillCount | src/lib.rs:148-163 | the spatial builder writes `(2h)^2` slots when it returns, all 255 when it runs off the table, none when `2 * (sigma * sigma)` overflows |
| Lut.SpatialLutSucceeds | src/lib.rs:148-163 | the spatial builder completes exactly for `sigma <= 11` and `h <= 7` |
| Lut.FillShortOfWindow | src/lib.rs:158-163 | for a window `ks = 2h + 1` the builder fills `2 ks - 1` fewer slots than the `ks^2` the kernel reads |
| Lut.MisalignedSlotExample | src/lib.rs:153-163 | in a 3 x 3 window the kernel weighs cell (1, 0) with slot 3, which the builder filled with the weight of distance 0 |
| Lut.CentreSlotMisread | src/lib.rs:153-163 | for every half size `h >= 2` the builder stores offset `(0, 0)` away from the slot `h * ks + h` the kernel reads for its centre cell, and that slot holds the weight of distance `1 + h^2` |
| Convolution.CellOutOfRange | src/lib.rs:97-102 | a window cell past the input, or a slot past the spatial table, means the kernel panics |
| Convolution.NextRowReadable | src/lib.rs:97-107 | a window row read in full extends the readable rows by one |
| Convolution.RowStartOverflows | src/lib.rs:109 | a row step `start_position += image_width` past u32 before the last row means the kernel panics |
| Convolution.RowAccStep | src/lib.rs:102-106 | one more cell adds `weight * n` to the sum and `weight` to the norm, with `weight = spatial[slot] * intensity[abs_diff(n, c)]` |
| Convolution.WindowAccLastRow | src/lib.rs:97-110 | the window sums are the last row's cells added onto the sums of the rows before it |
| Convolution.WindowAccNextRow | src/lib.rs:97-110 | row `row` of the window reads slots from `row * ks` and cells from `start + row * w` |
| Convolution.RowAccReadsRow | src/lib.rs:99-107 | one row's sums depend only on that row's cells and slots, the intensity table and the numerics |
| Convolution.WindowAccNextRowAlike | src/lib.rs:99-107 | two states that agree on a row keep equal window sums when that row is added |
| Convolution.WindowAccReadsWindow | src/lib.rs:97-110 | the first `rows` window rows read only their own cells and slots |
| Convolution.KernelReadsOnlyWindow | src/lib.rs:90-114 | `kernel(start, c)` depends only on spatial slots `0 .. ks^2`, the intensity table and the `ks x ks` window cells |
| Convolution.WindowInImage | src/lib.rs:77-82 | the window of an interior pixel lies inside the image without wrapping, and is centred on the pixel |
| Convolution.RunOutputIdempotent | src/lib.rs:62-88 | a second run with the same input and tables leaves the output buffer as the first run left it: the interior depends only on the input, and the border is kept |
| Convolution.InteriorBeforeLast | src/lib.rs:75-82 | no interior pixel comes after `(height - h - 1, w - h - 1)` |
| Convolution.LastIsInterior | src/lib.rs:75-82 | pixel `(height - h - 1, w - h - 1)` is interior when the image is at least `ks` high and wide |
| Convolution.LastWindowEnd | src/lib.rs:77-82 | the last pixel's window ends with the row step to `w * height + w - ks` |
| Convolution.LastInteriorPixel | src/lib.rs:75-110 | the last interior pixel has the latest window start of the run |
| Convolution.InteriorKernelFits | src/lib.rs:82-110 | an interior window no later than a bound fits when `ks^2 <= 255` and the bound's last row step fits a u32 |
| Convolution.RunFitsExactly | src/lib.rs:62-110 | for an odd window, `run` completes exactly when the image is at least `h` high and wide and, if any pixel is interior, `ks^2 <= 255` and `w * height + w - ks` fits a u32 |
| Convolution.ConfiguredRunFits | src/lib.rs:62-110 | for the windows a completed `set_sigma` leaves (odd, 3 to 15) only the image size decides whether `run` completes |
| Convolution.RowEdgeIsBorder | src/lib.rs:79 | the first and last `h` pixels of a row are border pixels |
| Convolution.InteriorRows | src/lib.rs:75 | an interior pixel lies before row `row` exactly when its row index is below `row` |
| Convolution.InteriorPixel | src/lib.rs:77-82 | pixel `height + j` of an inner row is interior, and its window starts at `top_left + (j - h)`, inside the image |
| Convolution.ProgressWrite | src/lib.rs:82 | writing an interior pixel's kernel value advances the run by one pixel |
| Convolution.ProgressPastBorder | src/lib.rs:79 | border pixels are passed over without a write |
| Convolution.ProgressPastRowEdge | src/lib.rs:79 | the skipped columns at either end of a row leave the output as it was |
| Convolution.ProgressPastTopRows | src/lib.rs:71-75 | the first `h` rows are skipped without a write |
| Convolution.PanicStopsRun | src/lib.rs:82 | a kernel that panics at an interior pixel makes `run` panic |
| Convolution.ProgressKeepsBorder | src/lib.rs:62-88 | however far a run got, the border pixels are as they were |
| Convolution.RunProgressComplete | src/lib.rs:75-86 | a run that has passed every interior pixel has written the whole `RunOutput` |
| Convolution.RunComplete | src/lib.rs:75-86 | a run that has passed row `height - h - 1` is complete |
| Filter.BilateralFilter.constructor | src/lib.rs:36-53 | the new filter has zero-filled buffers and tables of `width * height` pixels and a 3 x 3 window |
| Filter.BilateralFilter.New | src/lib.rs:36-53 | `new` panics exactly when `width * height` overflows a u32. Otherwise it returns a fresh filter with fresh, zero-filled buffers and tables and a 3 x 3 window |
| Filter.BilateralFilter.SetKernelSize | src/lib.rs:116-119 | the window size is set and the half size is its floor half |
| Filter.BilateralFilter.CalculateIntensityLut | src/lib.rs:137-146 | it panics or returns as `IntensityLutOutcome` says. On return entries `0..255` hold the weight of their exponent and entry 255 is unchanged; on a panic nothing is written |
| Filter.BilateralFilter.CalculateGaussSpatialLut | src/lib.rs:148-164 | it panics or returns as `SpatialLutOutcome` says. The leading `SpatialFillCount` slots hold the weights of their scanned offsets and later slots are unchanged, whether it returns or panics |
| Filter.BilateralFilter.SetSigma | src/lib.rs:55-60 | the window becomes `calculate_kernel_size(spatial)`, then both tables are rebuilt, and the first panic stops the call. It completes exactly for `1 <= spatial <= 8` and `1 <= intensity <= 15`, and then keeps the window odd and at most 15 |
| Filter.BilateralFilter.KernelRow | src/lib.rs:99-107 | one window row completes exactly when its last cell and last slot are in range, and yields the row's running sums |
| Filter.BilateralFilter.Kernel | src/lib.rs:90-114 | `kernel` completes exactly when its window fits (`KernelFits`), and then returns `KernelValue` |
| Filter.BilateralFilter.RunPixel | src/lib.rs:82 | one interior pixel is written with its kernel value. Or its kernel panics, the run cannot complete, and nothing is written |
| Filter.BilateralFilter.RunRow | src/lib.rs:79-83 | a run that reached a row's start reaches its end. Otherwise it stops at an interior pixel of the row whose kernel panics, with every interior pixel before it written |
| Filter.BilateralFilter.Run | src/lib.rs:62-88 | `run` completes exactly when `RunFits` holds, and then the output is `RunOutput`. A panic (`RunStoppedAt`) comes either from the u32 underflow of `height - h` or `width - h` (an arithmetic overflow), before any write, or from the first interior pixel whose kernel panics, once every interior pixel before it holds its kernel value. Border pixels are never written |

## Left out

- The exact f32 values are not modelled: `PI`, `exp`, `hypot`, `powi`, the
  rounding of f32 products and sums, NaN from an all-zero norm, and the
  saturating `as u8`. They sit behind `Numerics`. So the float expectations
  of the unit tests (src/lib.rs:218, 229, 243) are not stated.
- Release-build wrapping arithmetic is not modelled; the model follows the
  debug build's overflow panics.
- `input_data_ptr` and `output_data_ptr` (src/lib.rs:28-34) hand raw pointers
  to the host. The model gives the host the buffers as arrays instead, and
  the host's writes are direct writes to `inputData`.
- `utils::set_panic_hook`, the `wee_alloc` allocator and `tests/index.js`
  are not part of this model: they are host glue, not filter logic.
- Filter.BilateralFilter.Kernel: it says when `kernel` panics, but not which
  panic (index out of bounds or overflow) comes first.
- Filter.BilateralFilter.Run: it says when and where `run` panics and what
  it has written by then, but not which panic the kernel raises.
- The inner loops of `kernel` and `run` are separate methods (`KernelRow`,
  `RunRow`, `RunPixel`). They are not inlined, but their statements and
  their order are the source's.
