/**
 * The sizes `smm_conv2d` derives before any buffer exists: input, kernel and
 * output extents, padding, stride and dilation per axis, and the derived
 * column-buffer dimensions. Also the 32-bit unsigned arithmetic of the
 * kernel's padded offsets.
 */
module ConvGeometry {
  import opened Layout

  /** 2^32: the source computes every size and offset in `uint`. */
  const WORD: nat := 0x1_0000_0000

  /** The value a `uint` expression takes when its exact value is `x`. */
  function Wrap32(x: int): (r: nat)
    ensures r < WORD
    ensures 0 <= x < WORD ==> r == x
    ensures -(WORD as int) <= x < 0 ==> r == x + WORD
  {
    x % WORD
  }

  /** Window placement `o` (with the stride) fits inside the zero-padded extent. */
  predicate WindowFits(o: nat, inSize: nat, kSize: nat, pad: nat, dilation: nat, stride: nat)
  {
    o * stride + dilation * (kSize - 1) < inSize + 2 * pad
  }

  lemma AtMostQuotient(o: nat, n: nat, s: nat)
    requires s > 0
    ensures o <= n / s <==> o * s <= n
  {
    if o <= n / s {
      MulMonotone(o, n / s, s);
    } else {
      MulMonotone(n / s + 1, o, s);
    }
  }

  /**
   * Output extent of one spatial axis: floor((in + 2 pad - dilation (k - 1) - 1) / stride) + 1,
   * with ceiling mode off, and 0 when not even one window fits.
   */
  function OutputSize(inSize: nat, kSize: nat, pad: nat, dilation: nat, stride: nat): (r: nat)
    requires stride >= 1 && kSize >= 1
    ensures forall o: nat :: o < r <==> WindowFits(o, inSize, kSize, pad, dilation, stride)
  {
    var span := inSize + 2 * pad - dilation * (kSize - 1);
    if span < 1 then 0
    else
      assert forall o: nat :: o <= (span - 1) / stride <==> o * stride <= span - 1 by {
        forall o: nat ensures o <= (span - 1) / stride <==> o * stride <= span - 1 {
          AtMostQuotient(o, span - 1, stride);
        }
      }
      (span - 1) / stride + 1
  }

  /** The sizes of one convolution call. */
  datatype Geometry = Geometry(
    numSamples: nat,
    inChannels: nat, inHeight: nat, inWidth: nat,
    outChannels: nat, kernelHeight: nat, kernelWidth: nat,
    padH: nat, padW: nat,
    strideH: nat, strideW: nat,
    dilationH: nat, dilationW: nat,
    outHeight: nat, outWidth: nat)
  {
    function KernelArea(): (area: nat) { kernelHeight * kernelWidth }

    /** Rows of the column matrix: one per (input channel, kernel tap). */
    function ColHeight(): (h: nat) { inChannels * KernelArea() }

    /** Number of output positions of one output channel. */
    function OutputArea(): (area: nat) { outHeight * outWidth }

    /** Columns of the column matrix: one per output position (the source names both sizes). */
    function ColWidth(): (w: nat) { OutputArea() }

    /** Flat output position `out_id` of output row outH, column outW. */
    function OutId(outH: nat, outW: nat): (id: nat) { outH * outWidth + outW }

    /** Flat kernel tap `ker` of kernel row kh, column kw. */
    function Ker(kh: nat, kw: nat): (ker: nat) { kh * kernelWidth + kw }

    /** Row `col_h` of the column matrix for input channel inC and kernel tap ker. */
    function ColH(inC: nat, ker: nat): (h: nat) { inC * KernelArea() + ker }

    /** Start col_base of the column row that the GEMM worker for sample samp and output position out_id reads. */
    function ColBase(samp: nat, outId: nat): (base: nat) { samp * ColWidth() * ColHeight() + outId * ColHeight() }

    /** Start ker_base of the kernel-weight row of output channel out_c. */
    function KerBase(outC: nat): (base: nat) { outC * ColHeight() }

    /** Size of the column buffer the host allocates. */
    function ColumnCount(): (n: nat) { numSamples * ColHeight() * ColWidth() }

    function InputShape(): (shape: seq<nat>) { [numSamples, inChannels, inHeight, inWidth] }

    function KernelShape(): (shape: seq<nat>) { [outChannels, inChannels, kernelHeight, kernelWidth] }

    /** The output extents are those of the size formula, for a stride and kernel that allow it. */
    predicate Consistent()
    {
      && strideH >= 1 && strideW >= 1
      && kernelHeight >= 1 && kernelWidth >= 1
      && outHeight == OutputSize(inHeight, kernelHeight, padH, dilationH, strideH)
      && outWidth == OutputSize(inWidth, kernelWidth, padW, dilationW, strideW)
    }

    /**
     * No padded offset leaves the range in which `uint` wrap-around sends
     * every negative offset past the input's edge.
     */
    predicate NoWrap()
    {
      inHeight + padH <= WORD && inWidth + padW <= WORD
    }
  }

  /** (kh, kw) is kernel tap kh * kernel_width + kw, and the tap decodes back to (kh, kw). */
  lemma TapDecode(kh: nat, kw: nat, kHeight: nat, kWidth: nat)
    requires kh < kHeight && kw < kWidth
    ensures kh * kWidth + kw < kHeight * kWidth
    ensures (kh * kWidth + kw) / kWidth == kh && (kh * kWidth + kw) % kWidth == kw
  {
    var ker := kh * kWidth + kw;
    MulMonotone(kh + 1, kHeight, kWidth);
    DivModUnique(kh, kw, ker / kWidth, ker % kWidth, kWidth);
  }

  /** The flat output position of an in-range (out_h, out_w) is below the output area. */
  lemma OutIdInArea(g: Geometry, outH: nat, outW: nat)
    requires outH < g.outHeight && outW < g.outWidth
    ensures g.OutId(outH, outW) < g.OutputArea()
  {
    MulMonotone(outH + 1, g.outHeight, g.outWidth);
    assert g.OutId(outH, outW) < (outH + 1) * g.outWidth;
  }

  /** Every offset a window of the output reaches lies within `pad` of the input on either side. */
  lemma OffsetWithinPadding(o: nat, k: nat, inSize: nat, kSize: nat, pad: nat, dilation: nat, stride: nat)
    requires stride >= 1 && kSize >= 1
    requires o < OutputSize(inSize, kSize, pad, dilation, stride) && k < kSize
    ensures -(pad as int) <= o * stride - pad + k * dilation < inSize + pad
  {
    assert WindowFits(o, inSize, kSize, pad, dilation, stride);
    MulMonotone(k, kSize - 1, dilation);
  }

  /**
   * Zero fill happens exactly out of bounds: for an offset within `pad` of
   * the input, its `uint` value is below the extent iff the exact offset is
   * inside the input, and then the two agree.
   */
  lemma WrappedOffsetInBounds(x: int, inSize: nat, pad: nat)
    requires -(pad as int) <= x < inSize + pad && inSize + pad <= WORD
    ensures Wrap32(x) < inSize <==> 0 <= x < inSize
    ensures 0 <= x < inSize ==> Wrap32(x) == x
  {
  }

  /** The offset a column-builder worker computes, as the kernel's `uint` arithmetic yields it. */
  function PaddedOffset(o: nat, k: nat, pad: nat, dilation: nat, stride: nat): (r: nat)
    ensures r < WORD
  {
    Wrap32(o * stride - pad + k * dilation)
  }

  /**
   * For the extents of a consistent, non-wrapping geometry, a worker's
   * `uint` offset is inside the input exactly when the exact offset is,
   * and equals it there.
   */
  lemma PaddedOffsetExact(o: nat, k: nat, inSize: nat, kSize: nat, pad: nat, dilation: nat, stride: nat)
    requires stride >= 1 && kSize >= 1 && inSize + pad <= WORD
    requires o < OutputSize(inSize, kSize, pad, dilation, stride) && k < kSize
    ensures var x := o * stride - pad + k * dilation;
      && (PaddedOffset(o, k, pad, dilation, stride) < inSize <==> 0 <= x < inSize)
      && (0 <= x < inSize ==> PaddedOffset(o, k, pad, dilation, stride) == x)
  {
    OffsetWithinPadding(o, k, inSize, kSize, pad, dilation, stride);
    WrappedOffsetInBounds(o * stride - pad + k * dilation, inSize, pad);
  }
}
