# smm_conv2d: im2col + GEMM 2-D convolution, modelled in Dafny

`smm_conv2d` computes a 2-D convolution in two device launches:

1. The **column builder** copies, for every (sample, input channel, kernel tap) worker and every
   output position, the input element under that tap into a flat column buffer. At a padded
   position it writes 0.
2. The **GEMM kernel** computes, for every (sample, output channel, output position), the dot
   product of a column-buffer row with a kernel-weight row, and adds the bias when there is one.

Before any buffer exists, it rejects any padding mode other than zero fill and any group count
other than 1. It derives the output extents and handles an unbatched (C, H, W) input as one
sample. It sizes the phase-1 work-groups by capping the device limit with GROUP_SIZE_GUESS and
the kernel area, then rounds the launch up to a multiple of the group size.

The model works on unbounded integers and sequential loop nests:

- Each launch is a `method` whose loops walk the same 3-D index space as the `parallel_for`.
  Each worker is a method of its own.
- The column buffer and the output buffer are `array<int>`.
- What each phase must leave behind is a pure function: `Im2Col` for phase 1, `Gemm` for
  phase 2.
- Both are related to an independent reference, `DirectConv2d`. It is the direct zero-padded,
  strided, dilated convolution, written as a triple sum over (input channel, kernel row,
  kernel column).

Modules, one per file:

| file | module | what it holds |
|---|---|---|
| wrappers.dfy | Wrappers | `Option`, `Result` |
| layout.dfy | Layout | row-major `ToLinear`/`FromLinear`, `Product`, zero-padded 4-D read `At4` |
| sums.dfy | Sums | finite sums over `nat -> int` and their re-indexing lemmas |
| geometry.dfy | ConvGeometry | the call's sizes and the GEMM kernel's row starts, the output-size formula, `uint` offset arithmetic |
| work_split.dfy | WorkSplit | work-group capping and launch rounding |
| column_builder.dfy | ColumnBuilder | phase 1: column layout, worker, launch |
| gemm_kernel.dfy | GemmKernel | phase 2: output layout, dot product, worker, launch |
| direct_conv.dfy | DirectConv | the reference convolution and the composition proof |
| smm_conv2d.dfy | SmmConv2d, SmmConv2dExample | argument checks, output shape, the whole call; a worked example |

## Model

| member | source | states |
|---|---|---|
| SmmConv2d.SmmConv2dCall | src/ai3/csrc/smm_conv2d_sycl.hpp:10-174 | A padding mode other than Zeros fails with PaddingModeNotZeros, checked first. Otherwise groups != 1 fails with GroupsNotOne. Otherwise the call returns the output shape and the buffer the GEMM launch leaves after the column-builder launch. Without offset wrap-around, that buffer is the direct convolution plus bias. |
| SmmConv2d.GeometryOf | src/ai3/csrc/smm_conv2d_sycl.hpp:20-43 | The derived sizes satisfy the output-size formula on both axes. num_samples is the batch extent for batched input and 1 otherwise. |
| SmmConv2d.OutputShapeProduct | src/ai3/csrc/smm_conv2d_sycl.hpp:34-43 | The output tensor, [N, out_c, out_h, out_w] batched or [out_c, out_h, out_w] unbatched, holds exactly as many cells as the GEMM launch stores. |
| SmmConv2d.BuffersFit | src/ai3/csrc/smm_conv2d_sycl.hpp:61-66 | Input and kernel data have the lengths the geometry's shapes give, with unbatched input read as shape [1, C, H, W]. The bias has one entry per output channel. |
| SmmConv2d.Conv2dResult | src/ai3/csrc/smm_conv2d_sycl.hpp:34-43 | The result shape is [N, out_c, out_h, out_w] for batched input and [out_c, out_h, out_w] otherwise. Its data length is the product of that shape. |
| SmmConv2d.UnbatchedIsOneSample | src/ai3/csrc/smm_conv2d_sycl.hpp:40-43 | An unbatched input gives the same data as the same elements with a leading batch axis of extent 1. Its output shape is that of the batch of one without the leading 1. |
| SmmConv2d.Conv2dResultIsDirectConv | src/ai3/csrc/smm_conv2d_sycl.hpp:89-169 | When no padded offset wraps around, a successful call's data is the direct zero-padded convolution plus bias. |
| ConvGeometry.OutputSize | src/ai3/csrc/smm_conv2d_sycl.hpp:29-32 | An output position o is below the extent iff its window, o*stride + dilation*(k-1), fits inside the padded input. |
| ConvGeometry.Wrap32 | src/ai3/csrc/smm_conv2d_sycl.hpp:104-107 | The `uint` value of an offset lies below 2^32. It is the offset itself when that is in [0, 2^32), and offset + 2^32 when the offset is negative down to -2^32. |
| ConvGeometry.PaddedOffset | src/ai3/csrc/smm_conv2d_sycl.hpp:104-107 | h_offset and w_offset of a worker: out * stride - pad + k * dilation taken as a `uint`, so below 2^32. A negative exact offset becomes offset + 2^32; PaddedOffsetExact says when this matters. |
| ConvGeometry.OffsetWithinPadding | src/ai3/csrc/smm_conv2d_sycl.hpp:104-107 | Every exact offset that an output window reaches lies in [-pad, in + pad). |
| ConvGeometry.WrappedOffsetInBounds | src/ai3/csrc/smm_conv2d_sycl.hpp:111-112 | For an offset within pad of the input and in + pad <= 2^32, the `uint` test `offset < in` holds iff 0 <= offset < in, so the `>= 0` test adds nothing. |
| ConvGeometry.PaddedOffsetExact | src/ai3/csrc/smm_conv2d_sycl.hpp:104-112 | For a consistent geometry without wrap-around, a worker's `uint` offset is below the input extent iff the exact offset is inside the input, and then the two are equal. |
| ConvGeometry.OutIdInArea | src/ai3/csrc/smm_conv2d_sycl.hpp:150-155 | out_id = out_h * output_width + out_w of an in-range (out_h, out_w) is below output_area, so the worker's guard lets every output position through. |
| WorkSplit.CappedWorkGroupSize | src/ai3/csrc/smm_conv2d_sycl.hpp:126-129 | The result is the minimum of the device limit and GROUP_SIZE_GUESS: at most both, and equal to one. |
| WorkSplit.Phase1WorkGroup | src/ai3/csrc/smm_conv2d_sycl.hpp:72-81 | each_kernel is min(max_work_group_size, GROUP_SIZE_GUESS, kernel_area) and at least 1. total_kernel is a multiple of each_kernel with kernel_area <= total_kernel < kernel_area + each_kernel. |
| WorkSplit.RoundUpBounds | src/ai3/csrc/smm_conv2d_sycl.hpp:80-81 | ((n + e - 1) / e) * e is a multiple of e in [n, n + e). |
| WorkSplit.LeastMultiple | src/ai3/csrc/smm_conv2d_sycl.hpp:80-81 | A multiple of e in [n, n + e) is no larger than any multiple of e that is at least n, so total_kernel is the least such multiple. |
| Layout.ToLinear | src/ai3/csrc/smm_conv2d_sycl.hpp:108-115 | Definition of the assumed `to_linear`: the row-major (Horner) offset of the indices over the extents, the last index varying fastest and the first extent unused. LinearBound, LinearInjective, FromLinear and FromToLinear state its properties. |
| Layout.LinearBound | src/ai3/csrc/smm_conv2d_sycl.hpp:108-110 | A row-major index of an in-bounds coordinate tuple is below the product of the extents. |
| Layout.LinearInjective | src/ai3/csrc/smm_conv2d_sycl.hpp:108-110 | Two in-bounds coordinate tuples with the same row-major index are equal. |
| Layout.FromLinear | src/ai3/csrc/smm_conv2d_sycl.hpp:108-110 | Every index below the product of the extents is the row-major index of an in-bounds tuple. |
| Layout.FromToLinear | src/ai3/csrc/smm_conv2d_sycl.hpp:108-110 | Decoding the row-major index of an in-bounds tuple gives back that tuple. |
| ColumnBuilder.ColumnCountIsProduct | src/ai3/csrc/smm_conv2d_sycl.hpp:61 | The column buffer's size, num_samples * col_height * col_width, is the product of the extents (samples, out_h, out_w, in_c, kernel_area) that the writer linearizes over. |
| ColumnBuilder.ColIndex | src/ai3/csrc/smm_conv2d_sycl.hpp:108-110 | Definition of col_index: `to_linear` of (samp, out_h, out_w, in_c, ker) over (output_height, output_width, input_channels, kernel_area). ColumnLayoutAgreement gives its closed form, ColumnWriteInBuffer and ColumnWritesDistinct its range and injectivity. |
| ColumnBuilder.CellOf | src/ai3/csrc/smm_conv2d_sycl.hpp:108-110 | Every column cell is the index of one in-range (samp, out_h, out_w, in_c, ker). |
| ColumnBuilder.ColumnValue | src/ai3/csrc/smm_conv2d_sycl.hpp:98-118 | Definition of what worker (samp, in_c, ker) writes for (out_h, out_w): ker_w = ker % kernel_width, ker_h = ker / kernel_width, both `uint` offsets, then the input element at (samp, in_c, h_offset, w_offset) when both offsets are below the input extents and 0 otherwise. The source's `>= 0` tests always hold for `uint`. ColumnValueIsPaddedInput relates it to the zero-padded input. |
| ColumnBuilder.Im2Col | src/ai3/csrc/smm_conv2d_sycl.hpp:89-121 | The column buffer phase 1 must leave: num_samples * col_height * col_width cells, cell j holding ColumnValue of the (samp, out_h, out_w, in_c, ker) that j decodes to. BuildColumns proves the launch leaves exactly this buffer. |
| ColumnBuilder.Im2ColAt | src/ai3/csrc/smm_conv2d_sycl.hpp:99-118 | The cell written for (samp, out_h, out_w, in_c, ker) is inside the buffer. It holds the input at the `uint` offsets when both are below the input extents, and 0 otherwise. |
| ColumnBuilder.ColumnWritesDistinct | src/ai3/csrc/smm_conv2d_sycl.hpp:108-110 | Two in-range writer iterations that hit the same column cell are the same iteration, so no cell is written twice. |
| ColumnBuilder.ColumnCellsCovered | src/ai3/csrc/smm_conv2d_sycl.hpp:108-110 | Every cell of the column buffer is written by some in-range iteration. |
| ColumnBuilder.ColumnWriteInBuffer | src/ai3/csrc/smm_conv2d_sycl.hpp:108-110 | No in-range iteration writes outside [0, num_samples*col_height*col_width). |
| ColumnBuilder.ColumnLayoutAgreement | src/ai3/csrc/smm_conv2d_sycl.hpp:108-110 | The writer's index for (samp, out_h, out_w, in_c, ker) is the reader's `Geometry.ColBase(samp, out_id) + Geometry.ColH(in_c, ker)`, that is col_base + col_h, with out_id = out_h*output_width + out_w and col_h = in_c*kernel_area + ker. |
| ColumnBuilder.ColumnCell | src/ai3/csrc/smm_conv2d_sycl.hpp:103-118 | The value one worker computes for one output position, from its ker_h and ker_w, is ColumnValue: the input element under the tap at the `uint` offsets, or 0 when either offset is not below its extent. |
| ColumnBuilder.ColumnWorker | src/ai3/csrc/smm_conv2d_sycl.hpp:94-120 | A worker with ker >= kernel_area changes nothing. Any other worker sets exactly its own cells to their phase-1 values and leaves every other cell as it was. |
| ColumnBuilder.BuildColumns | src/ai3/csrc/smm_conv2d_sycl.hpp:89-121 | After the launch over (num_samples, input_channels, total_kernel) with total_kernel >= kernel_area, the column buffer is `Im2Col` of the input. |
| GemmKernel.OutIndex | src/ai3/csrc/smm_conv2d_sycl.hpp:167-168 | Definition of the store index: `to_linear` of (samp, out_c, out_id) over (output_channels, output_area). OutCellOfIndex bounds and inverts it. OutputIndexAgreement equates it with the output tensor's row-major index. |
| GemmKernel.OutCellOf | src/ai3/csrc/smm_conv2d_sycl.hpp:167-168 | Every output cell is the stored index of one in-range (samp, out_c, out_id). |
| GemmKernel.OutCellOfIndex | src/ai3/csrc/smm_conv2d_sycl.hpp:167-168 | The index stored for an in-range (samp, out_c, out_id) is inside the output and decodes back to that triple. |
| GemmKernel.OutputCellStoredOnce | src/ai3/csrc/smm_conv2d_sycl.hpp:150-168 | Each output cell is stored by some in-range worker, and any in-range worker that stores it is that one. |
| ConvGeometry.Geometry.ColBase | src/ai3/csrc/smm_conv2d_sycl.hpp:157-158 | Definition of col_base = samp * col_width * col_height + out_id * col_height. ColumnRowInBuffer bounds its row, and ColumnLayoutAgreement shows phase 1 wrote that row. |
| ConvGeometry.Geometry.KerBase | src/ai3/csrc/smm_conv2d_sycl.hpp:159 | Definition of ker_base = out_c * col_height. KernelRowInBuffer bounds its row, and KernelLayout shows it starts at weight (out_c, 0, 0, 0). |
| GemmKernel.ColumnRowInBuffer | src/ai3/csrc/smm_conv2d_sycl.hpp:157-161 | The column row read for in-range (samp, out_id), col_base plus col_height entries, lies inside the column buffer. |
| GemmKernel.KernelRowInBuffer | src/ai3/csrc/smm_conv2d_sycl.hpp:159-162 | The kernel row read for in-range out_c, ker_base plus col_height entries, lies inside the kernel. |
| GemmKernel.Dot | src/ai3/csrc/smm_conv2d_sycl.hpp:156-163 | Specification of the accumulation: the sum over col_h < n of cols[col_base + col_h] * kernel[ker_base + col_h]. DotRow proves the loop computes it. |
| GemmKernel.GemmCell | src/ai3/csrc/smm_conv2d_sycl.hpp:150-166 | What worker (samp, out_c, out_id) stores: Dot over col_height entries of its column row and kernel row, plus bias[out_c] only when a bias is present. GemmOfColumnsIsDirectConv relates it to the direct convolution. |
| GemmKernel.Gemm | src/ai3/csrc/smm_conv2d_sycl.hpp:146-169 | The output buffer phase 2 must leave: num_samples * output_channels * output_area cells, cell j holding GemmCell of the (samp, out_c, out_id) that j decodes to. GemmLaunch proves the launch leaves exactly this buffer. |
| GemmKernel.DotRow | src/ai3/csrc/smm_conv2d_sycl.hpp:156-163 | The accumulated `res` is the sum over col_h < col_height of cols[col_base + col_h] * kernel[ker_base + col_h]. |
| GemmKernel.GemmWorker | src/ai3/csrc/smm_conv2d_sycl.hpp:150-168 | A worker with out_id >= output_area or out_c >= output_channels stores nothing. Any other stores the dot product, plus bias[out_c] only when a bias is present, at its own output index and nowhere else. |
| GemmKernel.GemmLaunch | src/ai3/csrc/smm_conv2d_sycl.hpp:146-169 | After the launch over (num_samples, total_output_channels, total_output_area), with totals at least the extents, the output buffer is `Gemm` of the column buffer. |
| ConvGeometry.TapDecode | src/ai3/csrc/smm_conv2d_sycl.hpp:99-100 | Tap ker = kh*kernel_width + kw is below kernel_area, and ker / kernel_width = kh and ker % kernel_width = kw. |
| DirectConv.ColumnValueIsPaddedInput | src/ai3/csrc/smm_conv2d_sycl.hpp:104-118 | Without wrap-around (NoWrap: in + pad <= 2^32 on both axes) and for a consistent geometry, what the column builder writes for tap (kh, kw) is the zero-padded input at the exact offsets. Zero fill happens exactly out of bounds. |
| DirectConv.KernelLayout | src/ai3/csrc/smm_conv2d_sycl.hpp:159-162 | The row-major index of weight (out_c, c, kh, kw) is ker_base + col_h, with col_h = c*kernel_area + kh*kernel_width + kw. |
| DirectConv.ColumnEntry | src/ai3/csrc/smm_conv2d_sycl.hpp:157-161 | Entry col_h = c*kernel_area + ker of the column row for (samp, out_h*output_width + out_w) is in the buffer and holds the column builder's value for that tap. |
| DirectConv.KernelEntry | src/ai3/csrc/smm_conv2d_sycl.hpp:159-162 | Entry col_h of kernel row out_c is the weight (out_c, c, kh, kw). |
| DirectConv.TapAgreement | src/ai3/csrc/smm_conv2d_sycl.hpp:161-162 | Without wrap-around (NoWrap: in + pad <= 2^32 on both axes) and for a consistent geometry, term col_h of the GEMM product is the direct convolution's term for (c, kh, kw): padded input times weight. |
| DirectConv.RowAgreement | src/ai3/csrc/smm_conv2d_sycl.hpp:160-163 | Without wrap-around (NoWrap: in + pad <= 2^32 on both axes) and for a consistent geometry, the GEMM sum over the kernel_width taps of one kernel row of one input channel is that row of the direct sum. |
| DirectConv.ChannelAgreement | src/ai3/csrc/smm_conv2d_sycl.hpp:160-163 | Without wrap-around (NoWrap: in + pad <= 2^32 on both axes) and for a consistent geometry, the GEMM sum over one input channel's kernel_area taps is the direct sum over that channel's kernel rows and columns. |
| DirectConv.GemmOfColumnsIsDirectConv | src/ai3/csrc/smm_conv2d_sycl.hpp:156-166 | Without wrap-around (NoWrap: in + pad <= 2^32 on both axes) and for a consistent geometry, the GEMM cell for (samp, out_c, out_h*output_width + out_w) over the column buffer is the direct convolution's cell, bias included. |
| DirectConv.OutputIndexAgreement | src/ai3/csrc/smm_conv2d_sycl.hpp:167-168 | The output index (samp, out_c, out_id) the GEMM stores to is the row-major index of (samp, out_c, out_h, out_w) in the output tensor. |
| DirectConv.OutputCellAgreement | src/ai3/csrc/smm_conv2d_sycl.hpp:167-168 | Without wrap-around (NoWrap: in + pad <= 2^32 on both axes) and for a consistent geometry, each cell of the composed pipeline's output equals the same cell of the direct convolution. |
| DirectConv.SmmConv2dIsDirectConv | src/ai3/csrc/smm_conv2d_sycl.hpp:89-169 | Without wrap-around (NoWrap: in + pad <= 2^32 on both axes) and for a consistent geometry, column builder followed by GEMM equals the direct zero-padded, strided, dilated convolution plus the optional bias, over the whole output. |
| SmmConv2dExample.TopLeftPatch | src/ai3/csrc/smm_conv2d_sycl.hpp:146-169 | Take a [1, 1, 4, 4] input holding 1..16, a [1, 1, 3, 3] kernel of ones, no padding, unit stride and dilation, and no bias. The result has shape [1, 1, 2, 2], and its first cell is the top-left patch sum, 54. |
| Sums.SumNested | src/ai3/csrc/smm_conv2d_sycl.hpp:160-163 | A sum over a*b indices is the sum over a rows of b-index sums. This is how the combined col_h axis splits into (channel, tap) and then (kernel row, kernel column). |

## Left out

- SYCL runtime: the queue, device selection, buffers and accessors, `queue.submit` and `wait_and_throw`. Each launch is a sequential loop nest, and the wait is the point where one method returns before the next starts.
- Concurrency and `nd_range` work-group scheduling are not modelled. The write-once lemmas (`ColumnWritesDistinct`, `OutputCellStoredOnce`) capture what parallel execution relies on: disjoint writes.
- Floating-point `dtype`: values are unbounded integers, so sums are exact and their order does not matter.
- The device's `max_work_group_size` is a parameter of `SmmConv2dCall`. Its conversion from `size_t` to `uint` is not modelled. It and GROUP_SIZE_GUESS are assumed to be at least 1, which the division in the rounding needs.
- `proportionate_2d_work_split` in ai3.hpp is not part of this model. It is a function-typed parameter, and the only assumption about it is that its launch extents cover every output channel and output position (`SplitCovers`). Its tile sizes are not used.
- `output_size_for_2d` in ai3.hpp is not part of this model. It is taken to be floor((in + 2 pad - dilation (k - 1) - 1) / stride) + 1 with ceiling mode off, and 0 when not even one window fits. A non-positive extent therefore gives an empty output rather than an error.
- `to_linear` in ai3.hpp is not part of this model. It is taken to be row-major linearization over the given extents.
- The `Tensor` accessors in ai3.hpp are not part of this model. A 2-D convolution input is taken as batched iff it has four axes.
- `errs::bail_if` is modelled as the `Failure` results of `SmmConv2dCall`.
- SmmConv2d.SmmConv2dCall: the call requires arguments the source silently relies on (`WellFormed`). These are a kernel whose input-channel extent matches the input, a bias with exactly one entry per output channel, two-entry padding, stride and dilation, non-zero strides and a non-empty kernel window. The source has no error path for any of these. A kernel with fewer input channels than the input, a shorter bias or shorter padding, stride or dilation lists make it read out of bounds, and a zero stride or an empty kernel window makes it divide by zero. Two excluded inputs are accepted by the source and read only in bounds. With a kernel that has more input channels than the input, it computes with misaligned kernel rows. With a bias longer than the output-channel count, it ignores the extra entries. The model excludes both because a 2-D convolution layer always builds its kernel and bias with exactly these extents.
- Index arithmetic (column index, col_base, ker_base, output index) is exact. The model does not capture its 32-bit `uint` overflow for buffers of 2^32 or more elements.
- The padded offsets do wrap at 2^32, as in the source (`PaddedOffset`). The equality with the direct convolution (`SmmConv2dIsDirectConv`) holds under `NoWrap`: input extent + padding <= 2^32 on each axis. Outside that range a wrapped negative offset could land inside the input.
- The PyTorch-facing wrapper (`src/ai3/__init__.py`) and the benchmark launcher (`runners/alexnet.py`) forward to this code and have no logic of their own.
