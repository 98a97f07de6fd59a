/**
 * The reference the two phases must agree with: the direct zero-padded,
 * strided, dilated 2-D convolution, as a triple sum over (input channel,
 * kernel row, kernel column), and the proof that the column builder
 * followed by the GEMM kernel computes it.
 */
module DirectConv {
  import opened Wrappers
  import opened Layout
  import opened Sums
  import opened ConvGeometry
  import opened ColumnBuilder
  import opened GemmKernel

  predicate Fits(input: seq<int>, kernel: seq<int>, bias: Option<seq<int>>, g: Geometry)
  {
    |input| == Product(g.InputShape()) && |kernel| == Product(g.KernelShape()) && BiasFits(bias, g)
  }

  /** Input under tap (kh, kw) of channel c for output (outH, outW), times that tap's weight; 0 outside the input. */
  function Tap(input: seq<int>, kernel: seq<int>, g: Geometry,
               samp: nat, outC: nat, outH: nat, outW: nat, c: nat, kh: nat, kw: nat): (v: int)
    requires |input| == Product(g.InputShape()) && |kernel| == Product(g.KernelShape())
  {
    At4(input, g.InputShape(), samp, c,
        outH * g.strideH - g.padH + kh * g.dilationH,
        outW * g.strideW - g.padW + kw * g.dilationW)
    * At4(kernel, g.KernelShape(), outC, c, kh, kw)
  }

  function TapRow(input: seq<int>, kernel: seq<int>, g: Geometry,
                  samp: nat, outC: nat, outH: nat, outW: nat, c: nat, kh: nat): (row: nat -> int)
    requires |input| == Product(g.InputShape()) && |kernel| == Product(g.KernelShape())
  {
    (kw: nat) => Tap(input, kernel, g, samp, outC, outH, outW, c, kh, kw)
  }

  function TapPlane(input: seq<int>, kernel: seq<int>, g: Geometry,
                    samp: nat, outC: nat, outH: nat, outW: nat, c: nat): (plane: nat -> int)
    requires |input| == Product(g.InputShape()) && |kernel| == Product(g.KernelShape())
  {
    (kh: nat) => Sum(g.kernelWidth, TapRow(input, kernel, g, samp, outC, outH, outW, c, kh))
  }

  function TapVolume(input: seq<int>, kernel: seq<int>, g: Geometry,
                     samp: nat, outC: nat, outH: nat, outW: nat): (volume: nat -> int)
    requires |input| == Product(g.InputShape()) && |kernel| == Product(g.KernelShape())
  {
    (c: nat) => Sum(g.kernelHeight, TapPlane(input, kernel, g, samp, outC, outH, outW, c))
  }

  /**
   * Output (samp, outC, outH, outW) of the direct convolution:
   * sum over c < in_channels, kh < kernel_height, kw < kernel_width of the
   * zero-padded input times the weight, plus the bias of outC when present.
   */
  function DirectConvCell(input: seq<int>, kernel: seq<int>, bias: Option<seq<int>>, g: Geometry,
                          samp: nat, outC: nat, outH: nat, outW: nat): (v: int)
    requires Fits(input, kernel, bias, g) && outC < g.outChannels
  {
    Sum(g.inChannels, TapVolume(input, kernel, g, samp, outC, outH, outW)) + BiasTerm(bias, outC)
  }

  /** Extents of the convolution's output: (sample, out_c, out_h, out_w). */
  function OutputTensorShape(g: Geometry): (shape: seq<nat>)
  {
    [g.numSamples, g.outChannels, g.outHeight, g.outWidth]
  }

  lemma OutputCountIsProduct(g: Geometry)
    ensures Product(OutputTensorShape(g)) == OutputCount(g)
  {
    Product4(g.numSamples, g.outChannels, g.outHeight, g.outWidth);
  }

  /** The whole output of the direct convolution, row-major over (sample, out_c, out_h, out_w). */
  function DirectConv2d(input: seq<int>, kernel: seq<int>, bias: Option<seq<int>>, g: Geometry): (out: seq<int>)
    requires Fits(input, kernel, bias, g)
    ensures |out| == OutputCount(g)
  {
    OutputCountIsProduct(g);
    seq(OutputCount(g), j requires 0 <= j < OutputCount(g) =>
      var t := FromLinear(j, OutputTensorShape(g));
      DirectConvCell(input, kernel, bias, g, t[0], t[1], t[2], t[3]))
  }

  /** Element (samp, outC, outH, outW) of the direct convolution's output is that output cell. */
  lemma DirectConv2dAt(input: seq<int>, kernel: seq<int>, bias: Option<seq<int>>, g: Geometry,
                       samp: nat, outC: nat, outH: nat, outW: nat)
    requires Fits(input, kernel, bias, g)
    requires samp < g.numSamples && outC < g.outChannels && outH < g.outHeight && outW < g.outWidth
    ensures ToLinear([samp, outC, outH, outW], OutputTensorShape(g)) < OutputCount(g)
    ensures DirectConv2d(input, kernel, bias, g)[ToLinear([samp, outC, outH, outW], OutputTensorShape(g))]
         == DirectConvCell(input, kernel, bias, g, samp, outC, outH, outW)
  {
    OutputCountIsProduct(g);
    assert InBounds([samp, outC, outH, outW], OutputTensorShape(g));
    FromToLinear([samp, outC, outH, outW], OutputTensorShape(g));
  }

  /**
   * Zero fill happens exactly at out-of-bounds positions: what the column
   * builder writes for tap (kh, kw) is the zero-padded input at the exact
   * offsets.
   */
  lemma ColumnValueIsPaddedInput(input: seq<int>, g: Geometry,
                                 samp: nat, c: nat, kh: nat, kw: nat, outH: nat, outW: nat)
    requires g.Consistent() && g.NoWrap() && |input| == Product(g.InputShape())
    requires samp < g.numSamples && c < g.inChannels && kh < g.kernelHeight && kw < g.kernelWidth
    requires outH < g.outHeight && outW < g.outWidth
    ensures g.Ker(kh, kw) < g.KernelArea()
    ensures ColumnValue(input, g, samp, c, g.Ker(kh, kw), outH, outW)
         == At4(input, g.InputShape(), samp, c,
                outH * g.strideH - g.padH + kh * g.dilationH,
                outW * g.strideW - g.padW + kw * g.dilationW)
  {
    TapDecode(kh, kw, g.kernelHeight, g.kernelWidth);
    PaddedOffsetExact(outH, kh, g.inHeight, g.kernelHeight, g.padH, g.dilationH, g.strideH);
    PaddedOffsetExact(outW, kw, g.inWidth, g.kernelWidth, g.padW, g.dilationW, g.strideW);
  }

  /** Kernel weight (outC, c, kh, kw) sits at ker_base + col_h of the flat kernel. */
  lemma KernelLayout(g: Geometry, outC: nat, c: nat, kh: nat, kw: nat)
    ensures ToLinear([outC, c, kh, kw], g.KernelShape()) == g.KerBase(outC) + g.ColH(c, g.Ker(kh, kw))
  {
    var ic, khs, kws := g.inChannels, g.kernelHeight, g.kernelWidth;
    Linear4(outC, c, kh, kw, g.outChannels, ic, khs, kws);
    calc {
      ((outC * ic + c) * khs + kh) * kws + kw;
      (outC * ic + c) * (khs * kws) + (kh * kws + kw);
      outC * (ic * (khs * kws)) + c * (khs * kws) + (kh * kws + kw);
    }
  }

  /** Column entry (in_c, ker) of the row for output (outH, outW) holds the column builder's value for that tap. */
  lemma ColumnEntry(input: seq<int>, g: Geometry, samp: nat, outH: nat, outW: nat, c: nat, ker: nat)
    requires |input| == Product(g.InputShape())
    requires samp < g.numSamples && outH < g.outHeight && outW < g.outWidth
    requires c < g.inChannels && ker < g.KernelArea()
    ensures g.ColBase(samp, g.OutId(outH, outW)) + g.ColH(c, ker) < g.ColumnCount()
    ensures Im2Col(input, g)[g.ColBase(samp, g.OutId(outH, outW)) + g.ColH(c, ker)]
         == ColumnValue(input, g, samp, c, ker, outH, outW)
  {
    ColumnLayoutAgreement(g, samp, outH, outW, c, ker);
    Im2ColAt(input, g, samp, outH, outW, c, ker);
  }

  /** Entry (c, kh * kernel_width + kw) of kernel row outC is the weight (outC, c, kh, kw). */
  lemma KernelEntry(kernel: seq<int>, g: Geometry, outC: nat, c: nat, kh: nat, kw: nat)
    requires |kernel| == Product(g.KernelShape())
    requires outC < g.outChannels && c < g.inChannels && kh < g.kernelHeight && kw < g.kernelWidth
    ensures g.KerBase(outC) + g.ColH(c, g.Ker(kh, kw)) < |kernel|
    ensures kernel[g.KerBase(outC) + g.ColH(c, g.Ker(kh, kw))] == At4(kernel, g.KernelShape(), outC, c, kh, kw)
  {
    KernelLayout(g, outC, c, kh, kw);
    assert InBounds([outC, c, kh, kw], g.KernelShape());
    LinearBound([outC, c, kh, kw], g.KernelShape());
  }

  /** One term of the GEMM's dot product over the column buffer is one term of the direct sum. */
  lemma TapAgreement(input: seq<int>, kernel: seq<int>, bias: Option<seq<int>>, g: Geometry,
                     samp: nat, outC: nat, outH: nat, outW: nat, c: nat, kh: nat, kw: nat)
    requires g.Consistent() && g.NoWrap() && Fits(input, kernel, bias, g)
    requires samp < g.numSamples && outC < g.outChannels && outH < g.outHeight && outW < g.outWidth
    requires c < g.inChannels && kh < g.kernelHeight && kw < g.kernelWidth
    ensures var f := DotTerms(Im2Col(input, g), g.ColBase(samp, g.OutId(outH, outW)), kernel, g.KerBase(outC));
      && f(g.ColH(c, g.Ker(kh, kw))) == Tap(input, kernel, g, samp, outC, outH, outW, c, kh, kw)
      && Shift(Shift(f, g.ColH(c, 0)), g.Ker(kh, 0))(kw) == f(g.ColH(c, g.Ker(kh, kw)))
  {
    assert g.ColH(c, 0) + (g.Ker(kh, 0) + kw) == g.ColH(c, g.Ker(kh, kw));
    ColumnValueIsPaddedInput(input, g, samp, c, kh, kw, outH, outW);
    ColumnEntry(input, g, samp, outH, outW, c, g.Ker(kh, kw));
    KernelEntry(kernel, g, outC, c, kh, kw);
  }

  /** The GEMM sum over one kernel row of one input channel is that row of the direct sum. */
  lemma RowAgreement(input: seq<int>, kernel: seq<int>, bias: Option<seq<int>>, g: Geometry,
                     samp: nat, outC: nat, outH: nat, outW: nat, c: nat, kh: nat)
    requires g.Consistent() && g.NoWrap() && Fits(input, kernel, bias, g)
    requires samp < g.numSamples && outC < g.outChannels && outH < g.outHeight && outW < g.outWidth
    requires c < g.inChannels && kh < g.kernelHeight
    ensures RowSums(Shift(DotTerms(Im2Col(input, g), g.ColBase(samp, g.OutId(outH, outW)), kernel, g.KerBase(outC)),
                          g.ColH(c, 0)), g.kernelWidth)(kh)
         == TapPlane(input, kernel, g, samp, outC, outH, outW, c)(kh)
  {
    var f := DotTerms(Im2Col(input, g), g.ColBase(samp, g.OutId(outH, outW)), kernel, g.KerBase(outC));
    var row := Shift(Shift(f, g.ColH(c, 0)), g.Ker(kh, 0));
    var taps := TapRow(input, kernel, g, samp, outC, outH, outW, c, kh);
    forall kw: nat | kw < g.kernelWidth ensures row(kw) == taps(kw) {
      TapAgreement(input, kernel, bias, g, samp, outC, outH, outW, c, kh, kw);
    }
    SumExt(g.kernelWidth, row, taps);
  }

  /** The sum over one input channel's kernel taps, as the GEMM sees it, is that channel's plane of the direct sum. */
  lemma ChannelAgreement(input: seq<int>, kernel: seq<int>, bias: Option<seq<int>>, g: Geometry,
                         samp: nat, outC: nat, outH: nat, outW: nat, c: nat)
    requires g.Consistent() && g.NoWrap() && Fits(input, kernel, bias, g)
    requires samp < g.numSamples && outC < g.outChannels && outH < g.outHeight && outW < g.outWidth
    requires c < g.inChannels
    ensures RowSums(DotTerms(Im2Col(input, g), g.ColBase(samp, g.OutId(outH, outW)), kernel, g.KerBase(outC)),
                    g.KernelArea())(c)
         == TapVolume(input, kernel, g, samp, outC, outH, outW)(c)
  {
    var f := DotTerms(Im2Col(input, g), g.ColBase(samp, g.OutId(outH, outW)), kernel, g.KerBase(outC));
    var channel := Shift(f, g.ColH(c, 0));
    var plane := TapPlane(input, kernel, g, samp, outC, outH, outW, c);
    SumNested(g.kernelHeight, g.kernelWidth, channel);
    forall kh: nat | kh < g.kernelHeight ensures RowSums(channel, g.kernelWidth)(kh) == plane(kh) {
      RowAgreement(input, kernel, bias, g, samp, outC, outH, outW, c, kh);
    }
    SumExt(g.kernelHeight, RowSums(channel, g.kernelWidth), plane);
  }

  /**
   * The two phases compose to the direct convolution: the GEMM of the
   * column buffer for output (samp, outC, outH, outW) is the direct
   * zero-padded, strided, dilated sum plus the optional bias.
   */
  lemma {:induction false} GemmOfColumnsIsDirectConv(input: seq<int>, kernel: seq<int>, bias: Option<seq<int>>, g: Geometry,
                                                     samp: nat, outC: nat, outH: nat, outW: nat)
    requires g.Consistent() && g.NoWrap() && Fits(input, kernel, bias, g)
    requires samp < g.numSamples && outC < g.outChannels && outH < g.outHeight && outW < g.outWidth
    ensures g.OutId(outH, outW) < g.OutputArea()
    ensures GemmCell(Im2Col(input, g), kernel, bias, g, samp, outC, g.OutId(outH, outW))
         == DirectConvCell(input, kernel, bias, g, samp, outC, outH, outW)
  {
    OutIdInArea(g, outH, outW);
    var f := DotTerms(Im2Col(input, g), g.ColBase(samp, g.OutId(outH, outW)), kernel, g.KerBase(outC));
    SumNested(g.inChannels, g.KernelArea(), f);
    forall c: nat | c < g.inChannels
      ensures RowSums(f, g.KernelArea())(c) == TapVolume(input, kernel, g, samp, outC, outH, outW)(c)
    {
      ChannelAgreement(input, kernel, bias, g, samp, outC, outH, outW, c);
    }
    SumExt(g.inChannels, RowSums(f, g.KernelArea()), TapVolume(input, kernel, g, samp, outC, outH, outW));
  }

  /**
   * The (sample, out_c, out_h, out_w) index of the output tensor is the
   * (sample, out_c, out_id) index the GEMM kernel stores to.
   */
  lemma OutputIndexAgreement(g: Geometry, samp: nat, outC: nat, outH: nat, outW: nat)
    ensures ToLinear([samp, outC, outH, outW], OutputTensorShape(g)) == OutIndex(g, samp, outC, g.OutId(outH, outW))
  {
    var oc, oh, ow := g.outChannels, g.outHeight, g.outWidth;
    Linear4(samp, outC, outH, outW, g.numSamples, oc, oh, ow);
    Linear3(samp, outC, g.OutId(outH, outW), g.numSamples, oc, g.OutputArea());
    calc {
      ((samp * oc + outC) * oh + outH) * ow + outW;
      (samp * oc + outC) * (oh * ow) + (outH * ow + outW);
    }
  }

  /** One cell of the composed pipeline's output equals the same cell of the direct convolution. */
  lemma OutputCellAgreement(input: seq<int>, kernel: seq<int>, bias: Option<seq<int>>, g: Geometry, j: nat)
    requires g.Consistent() && g.NoWrap() && Fits(input, kernel, bias, g)
    requires j < OutputCount(g)
    ensures Gemm(Im2Col(input, g), kernel, bias, g)[j] == DirectConv2d(input, kernel, bias, g)[j]
  {
    OutputCountIsProduct(g);
    var t := FromLinear(j, OutputTensorShape(g));
    assert t == [t[0], t[1], t[2], t[3]];
    var samp, outC, outH, outW := t[0], t[1], t[2], t[3];
    DirectConv2dAt(input, kernel, bias, g, samp, outC, outH, outW);
    OutputIndexAgreement(g, samp, outC, outH, outW);
    GemmOfColumnsIsDirectConv(input, kernel, bias, g, samp, outC, outH, outW);
    OutCellOfIndex(g, samp, outC, g.OutId(outH, outW));
  }

  /**
   * The composed pipeline, cell by cell over the whole output: the GEMM of
   * the column buffer is the direct convolution.
   */
  lemma SmmConv2dIsDirectConv(input: seq<int>, kernel: seq<int>, bias: Option<seq<int>>, g: Geometry)
    requires g.Consistent() && g.NoWrap() && Fits(input, kernel, bias, g)
    ensures Gemm(Im2Col(input, g), kernel, bias, g) == DirectConv2d(input, kernel, bias, g)
  {
    forall j | 0 <= j < OutputCount(g)
      ensures Gemm(Im2Col(input, g), kernel, bias, g)[j] == DirectConv2d(input, kernel, bias, g)[j]
    {
      OutputCellAgreement(input, kernel, bias, g, j);
    }
  }
}
