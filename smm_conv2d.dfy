/**
 * The entry point `smm_conv2d`: the argument checks, the geometry and the
 * output shape for batched and unbatched input, and the two launches run
 * one after the other (column builder, then GEMM with bias).
 */
module SmmConv2d {
  import opened Wrappers
  import opened Layout
  import opened ConvGeometry
  import opened WorkSplit
  import opened ColumnBuilder
  import opened GemmKernel
  import opened DirectConv

  /** How the border of the input is padded; only zero fill is supported. */
  datatype PaddingMode = Zeros | Reflect | Replicate | Circular

  /** Why a call is rejected before any buffer is created. */
  datatype ConvError = PaddingModeNotZeros | GroupsNotOne

  /** A tensor: its extents and its elements in row-major order. */
  datatype Tensor = Tensor(shape: seq<nat>, data: seq<int>)

  /** A 2-D convolution input carries a leading batch axis exactly when it has four axes. */
  predicate Batched(input: Tensor)
  {
    |input.shape| == 4
  }

  /**
   * What a call needs of its arguments for the kernels to stay inside
   * their buffers: an input of shape (N, C, H, W) or (C, H, W), a kernel
   * of shape (out_c, C, kH, kW) with a non-empty window, two-axis
   * padding, stride and dilation with non-zero strides, and a bias with
   * one entry per output channel.
   */
  predicate WellFormed(input: Tensor, kernel: Tensor, bias: Option<Tensor>,
                       padding: seq<nat>, stride: seq<nat>, dilation: seq<nat>)
  {
    && (|input.shape| == 3 || |input.shape| == 4)
    && |input.data| == Product(input.shape)
    && |kernel.shape| == 4 && |kernel.data| == Product(kernel.shape)
    && kernel.shape[1] == input.shape[|input.shape| - 3]
    && kernel.shape[2] >= 1 && kernel.shape[3] >= 1
    && |padding| >= 2 && |stride| >= 2 && |dilation| >= 2
    && stride[0] >= 1 && stride[1] >= 1
    && (bias.Some? ==> |bias.value.data| == kernel.shape[0])
  }

  /** The sizes the call derives from its arguments; unbatched input counts as one sample. */
  function GeometryOf(input: Tensor, kernel: Tensor, bias: Option<Tensor>,
                      padding: seq<nat>, stride: seq<nat>, dilation: seq<nat>): (g: Geometry)
    requires WellFormed(input, kernel, bias, padding, stride, dilation)
    ensures g.Consistent()
    ensures g.numSamples == if Batched(input) then input.shape[0] else 1
  {
    var n := |input.shape|;
    var kh, kw := kernel.shape[2], kernel.shape[3];
    Geometry(
      if Batched(input) then input.shape[0] else 1,
      input.shape[n - 3], input.shape[n - 2], input.shape[n - 1],
      kernel.shape[0], kh, kw,
      padding[0], padding[1],
      stride[0], stride[1],
      dilation[0], dilation[1],
      OutputSize(input.shape[n - 2], kh, padding[0], dilation[0], stride[0]),
      OutputSize(input.shape[n - 1], kw, padding[1], dilation[1], stride[1]))
  }

  /** The elements of the bias, when there is one. */
  function BiasData(bias: Option<Tensor>): (b: Option<seq<int>>)
  {
    if bias.Some? then Some(bias.value.data) else None
  }

  /** The output's extents: with the batch axis for batched input, without it otherwise. */
  function OutputShape(input: Tensor, g: Geometry): (shape: seq<nat>)
  {
    if Batched(input) then OutputTensorShape(g)
    else [g.outChannels, g.outHeight, g.outWidth]
  }

  /** The output tensor holds exactly the cells the GEMM launch stores. */
  lemma OutputShapeProduct(input: Tensor, g: Geometry)
    requires Batched(input) || g.numSamples == 1
    ensures Product(OutputShape(input, g)) == OutputCount(g)
  {
    var ns, oc, oh, ow := g.numSamples, g.outChannels, g.outHeight, g.outWidth;
    assert ns * oc * (oh * ow) == ns * oc * oh * ow;
    if Batched(input) {
      Product4(ns, oc, oh, ow);
    } else {
      Product3(oc, oh, ow);
    }
  }

  /** The buffers the two launches use are as large as the geometry says. */
  lemma BuffersFit(input: Tensor, kernel: Tensor, bias: Option<Tensor>,
                   padding: seq<nat>, stride: seq<nat>, dilation: seq<nat>)
    requires WellFormed(input, kernel, bias, padding, stride, dilation)
    ensures var g := GeometryOf(input, kernel, bias, padding, stride, dilation);
      Fits(input.data, kernel.data, BiasData(bias), g)
  {
    var g := GeometryOf(input, kernel, bias, padding, stride, dilation);
    var s := input.shape;
    assert kernel.shape == g.KernelShape();
    assert |input.data| == Product(g.InputShape()) by {
      if Batched(input) {
        assert s == g.InputShape();
      } else {
        assert g.InputShape() == [1, s[0], s[1], s[2]] && s == [s[0], s[1], s[2]];
        Product3(s[0], s[1], s[2]);
        Product4(1, s[0], s[1], s[2]);
      }
    }
    assert BiasFits(BiasData(bias), g);
  }

  /**
   * What a successful call returns: the output shape, and the output buffer
   * the GEMM of the column buffer leaves behind.
   */
  function Conv2dResult(input: Tensor, kernel: Tensor, bias: Option<Tensor>,
                        padding: seq<nat>, stride: seq<nat>, dilation: seq<nat>): (out: Tensor)
    requires WellFormed(input, kernel, bias, padding, stride, dilation)
    ensures var g := GeometryOf(input, kernel, bias, padding, stride, dilation);
      && out.shape == (if Batched(input) then [g.numSamples, g.outChannels, g.outHeight, g.outWidth]
                       else [g.outChannels, g.outHeight, g.outWidth])
      && |out.data| == Product(out.shape)
  {
    var g := GeometryOf(input, kernel, bias, padding, stride, dilation);
    BuffersFit(input, kernel, bias, padding, stride, dilation);
    OutputShapeProduct(input, g);
    Tensor(OutputShape(input, g), Gemm(Im2Col(input.data, g), kernel.data, BiasData(bias), g))
  }

  /**
   * Unbatched input is processed as a batch of one: the result is that of
   * the same elements with a leading batch axis of extent 1, without that
   * axis in the output shape.
   */
  lemma UnbatchedIsOneSample(input: Tensor, kernel: Tensor, bias: Option<Tensor>,
                             padding: seq<nat>, stride: seq<nat>, dilation: seq<nat>)
    requires WellFormed(input, kernel, bias, padding, stride, dilation) && !Batched(input)
    ensures var one := Tensor([1] + input.shape, input.data);
      && WellFormed(one, kernel, bias, padding, stride, dilation)
      && Conv2dResult(one, kernel, bias, padding, stride, dilation).shape
         == [1] + Conv2dResult(input, kernel, bias, padding, stride, dilation).shape
      && Conv2dResult(one, kernel, bias, padding, stride, dilation).data
         == Conv2dResult(input, kernel, bias, padding, stride, dilation).data
  {
    var one := Tensor([1] + input.shape, input.data);
    var s := input.shape;
    assert one.shape == [1, s[0], s[1], s[2]] && s == [s[0], s[1], s[2]];
    Product3(s[0], s[1], s[2]);
    Product4(1, s[0], s[1], s[2]);
    assert WellFormed(one, kernel, bias, padding, stride, dilation);
    assert GeometryOf(one, kernel, bias, padding, stride, dilation)
        == GeometryOf(input, kernel, bias, padding, stride, dilation);
  }

  /**
   * When no padded offset wraps around, a successful call computes the
   * direct zero-padded, strided, dilated convolution plus the bias.
   */
  lemma Conv2dResultIsDirectConv(input: Tensor, kernel: Tensor, bias: Option<Tensor>,
                                 padding: seq<nat>, stride: seq<nat>, dilation: seq<nat>)
    requires WellFormed(input, kernel, bias, padding, stride, dilation)
    requires GeometryOf(input, kernel, bias, padding, stride, dilation).NoWrap()
    ensures var g := GeometryOf(input, kernel, bias, padding, stride, dilation);
      Fits(input.data, kernel.data, BiasData(bias), g) &&
      Conv2dResult(input, kernel, bias, padding, stride, dilation).data
        == DirectConv2d(input.data, kernel.data, BiasData(bias), g)
  {
    var g := GeometryOf(input, kernel, bias, padding, stride, dilation);
    BuffersFit(input, kernel, bias, padding, stride, dilation);
    SmmConv2dIsDirectConv(input.data, kernel.data, BiasData(bias), g);
  }

  /** The phase-2 split hands back launch extents that cover every output channel and position. */
  ghost predicate SplitCovers(split: (nat, nat, nat) -> Split)
  {
    forall outputChannels: nat, outputArea: nat, groupSize: nat ::
      Covers(split(outputChannels, outputArea, groupSize), outputChannels, outputArea)
  }

  /**
   * `smm_conv2d`: reject a padding mode other than zero fill, then a group
   * count other than 1; otherwise build the column buffer with the phase-1
   * launch, wait, and run the GEMM launch over the split's extents.
   * `maxWorkGroupSize` is the device limit, `groupSizeGuess` is
   * GROUP_SIZE_GUESS and `split` is the library's proportionate split.
   */
  method SmmConv2dCall(input: Tensor, kernel: Tensor, bias: Option<Tensor>,
                       padding: seq<nat>, stride: seq<nat>, dilation: seq<nat>,
                       paddingMode: PaddingMode, groups: int,
                       maxWorkGroupSize: nat, groupSizeGuess: nat, split: (nat, nat, nat) -> Split)
    returns (r: Result<Tensor, ConvError>)
    requires paddingMode == Zeros && groups == 1 ==>
      && WellFormed(input, kernel, bias, padding, stride, dilation)
      && maxWorkGroupSize >= 1 && groupSizeGuess >= 1 && SplitCovers(split)
    ensures paddingMode != Zeros ==> r == Failure(PaddingModeNotZeros)
    ensures paddingMode == Zeros && groups != 1 ==> r == Failure(GroupsNotOne)
    ensures paddingMode == Zeros && groups == 1 ==>
      r == Success(Conv2dResult(input, kernel, bias, padding, stride, dilation))
    ensures paddingMode == Zeros && groups == 1 && GeometryOf(input, kernel, bias, padding, stride, dilation).NoWrap() ==>
      && r.Success?
      && Fits(input.data, kernel.data, BiasData(bias), GeometryOf(input, kernel, bias, padding, stride, dilation))
      && r.value.data == DirectConv2d(input.data, kernel.data, BiasData(bias),
                                      GeometryOf(input, kernel, bias, padding, stride, dilation))
  {
    if paddingMode != Zeros {
      return Failure(PaddingModeNotZeros);
    }
    if groups != 1 {
      return Failure(GroupsNotOne);
    }
    var g := GeometryOf(input, kernel, bias, padding, stride, dilation);
    BuffersFit(input, kernel, bias, padding, stride, dilation);
    var cols := new int[g.ColumnCount()];
    var output := new int[OutputCount(g)];
    var eachKernel, totalKernel := Phase1WorkGroup(maxWorkGroupSize, groupSizeGuess, g.KernelArea());
    BuildColumns(input.data, g, totalKernel, cols);
    var outputWorkGroupSize := CappedWorkGroupSize(maxWorkGroupSize, groupSizeGuess);
    var s := split(g.outChannels, g.OutputArea(), outputWorkGroupSize);
    GemmLaunch(cols, kernel.data, BiasData(bias), g, s.totalOutputChannels, s.totalOutputArea, output);
    r := Success(Tensor(OutputShape(input, g), output[..]));
    if g.NoWrap() {
      Conv2dResultIsDirectConv(input, kernel, bias, padding, stride, dilation);
    }
  }
}

module SmmConv2dExample {
  import opened Wrappers
  import opened Layout
  import opened Sums
  import opened ConvGeometry
  import opened DirectConv
  import opened SmmConv2d

  /** A 4 x 4 single-channel input holding 1 .. 16 row-major. */
  function ExampleInput(): (t: Tensor)
  {
    Tensor([1, 1, 4, 4], seq(16, i => i + 1))
  }

  /** A 3 x 3 single-channel kernel of ones. */
  function ExampleKernel(): (t: Tensor)
  {
    Tensor([1, 1, 3, 3], seq(9, i => 1))
  }

  function ExampleGeometry(): (g: Geometry)
  {
    Geometry(1, 1, 4, 4, 1, 3, 3, 0, 0, 1, 1, 1, 1, 2, 2)
  }

  lemma ExampleWellFormed()
    ensures WellFormed(ExampleInput(), ExampleKernel(), None, [0, 0], [1, 1], [1, 1])
    ensures GeometryOf(ExampleInput(), ExampleKernel(), None, [0, 0], [1, 1], [1, 1]) == ExampleGeometry()
  {
    Product4(1, 1, 4, 4);
    Product4(1, 1, 3, 3);
  }

  /** Tap (kh, kw) of output (0, 0) reads input element kh * 4 + kw, which holds kh * 4 + kw + 1. */
  lemma ExampleTap(kh: nat, kw: nat)
    requires kh < 3 && kw < 3
    ensures Product(ExampleGeometry().InputShape()) == 16 && Product(ExampleGeometry().KernelShape()) == 9
    ensures Tap(ExampleInput().data, ExampleKernel().data, ExampleGeometry(), 0, 0, 0, 0, 0, kh, kw) == kh * 4 + kw + 1
  {
    var g := ExampleGeometry();
    var input, kernel := ExampleInput().data, ExampleKernel().data;
    Product4(1, 1, 4, 4);
    Product4(1, 1, 3, 3);
    assert g.InputShape() == [1, 1, 4, 4] && g.KernelShape() == [1, 1, 3, 3];
    assert 0 * g.strideH - g.padH + kh * g.dilationH == kh;
    assert 0 * g.strideW - g.padW + kw * g.dilationW == kw;
    assert At4(input, g.InputShape(), 0, 0, kh, kw) == kh * 4 + kw + 1 by {
      Linear4(0, 0, kh, kw, 1, 1, 4, 4);
      assert input[kh * 4 + kw] == kh * 4 + kw + 1;
    }
    assert At4(kernel, g.KernelShape(), 0, 0, kh, kw) == 1 by {
      Linear4(0, 0, kh, kw, 1, 1, 3, 3);
      assert kernel[kh * 3 + kw] == 1;
    }
  }

  /** Row kh of the 3 x 3 window over output (0, 0) sums to 12 kh + 6. */
  lemma ExampleRow(kh: nat)
    requires kh < 3
    ensures Product(ExampleGeometry().InputShape()) == 16 && Product(ExampleGeometry().KernelShape()) == 9
    ensures Sum(3, TapRow(ExampleInput().data, ExampleKernel().data, ExampleGeometry(), 0, 0, 0, 0, 0, kh)) == 12 * kh + 6
  {
    ExampleTap(kh, 0);
    ExampleTap(kh, 1);
    ExampleTap(kh, 2);
    var f := TapRow(ExampleInput().data, ExampleKernel().data, ExampleGeometry(), 0, 0, 0, 0, 0, kh);
    assert Sum(3, f) == f(0) + f(1) + f(2);
  }

  /** The direct convolution's cell (0, 0, 0, 0) of the example is the top-left patch sum. */
  lemma ExampleCell()
    ensures Fits(ExampleInput().data, ExampleKernel().data, None, ExampleGeometry())
    ensures DirectConvCell(ExampleInput().data, ExampleKernel().data, None, ExampleGeometry(), 0, 0, 0, 0) == 54
  {
    var input, kernel, g := ExampleInput(), ExampleKernel(), ExampleGeometry();
    Product4(1, 1, 4, 4);
    Product4(1, 1, 3, 3);
    ExampleRow(0);
    ExampleRow(1);
    ExampleRow(2);
    var plane := TapPlane(input.data, kernel.data, g, 0, 0, 0, 0, 0);
    assert Sum(3, plane) == plane(0) + plane(1) + plane(2) == 54;
    var volume := TapVolume(input.data, kernel.data, g, 0, 0, 0, 0);
    assert Sum(1, volume) == volume(0) == 54;
  }

  /** Cell 0 of the direct convolution of the example is cell (0, 0, 0, 0). */
  lemma ExampleFirstCell()
    ensures Fits(ExampleInput().data, ExampleKernel().data, None, ExampleGeometry())
    ensures |DirectConv2d(ExampleInput().data, ExampleKernel().data, None, ExampleGeometry())| == 4
    ensures DirectConv2d(ExampleInput().data, ExampleKernel().data, None, ExampleGeometry())[0] == 54
  {
    var g := ExampleGeometry();
    ExampleCell();
    assert ToLinear([0, 0, 0, 0], OutputTensorShape(g)) == 0 by {
      assert OutputTensorShape(g) == [1, 1, 2, 2];
      Linear4(0, 0, 0, 0, 1, 1, 2, 2);
    }
    DirectConv2dAt(ExampleInput().data, ExampleKernel().data, None, g, 0, 0, 0, 0);
  }

  /** The call on the example: no padding, unit stride and dilation, no bias. */
  function ExampleConv(): (t: Tensor)
  {
    ExampleWellFormed();
    Conv2dResult(ExampleInput(), ExampleKernel(), None, [0, 0], [1, 1], [1, 1])
  }

  /** The example's result has shape [1, 1, 2, 2] and is the direct convolution. */
  lemma ExampleResult()
    ensures Fits(ExampleInput().data, ExampleKernel().data, None, ExampleGeometry())
    ensures ExampleConv().shape == [1, 1, 2, 2]
    ensures ExampleConv().data == DirectConv2d(ExampleInput().data, ExampleKernel().data, None, ExampleGeometry())
  {
    ExampleWellFormed();
    Conv2dResultIsDirectConv(ExampleInput(), ExampleKernel(), None, [0, 0], [1, 1], [1, 1]);
  }

  /**
   * The worked example: the output has shape [1, 1, 2, 2] and its first
   * cell is the sum of the top-left 3 x 3 patch, 1+2+3+5+6+7+9+10+11 = 54.
   */
  lemma TopLeftPatch()
    ensures ExampleConv().shape == [1, 1, 2, 2]
    ensures |ExampleConv().data| == 4
    ensures ExampleConv().data[0] == 54
  {
    ExampleResult();
    ExampleFirstCell();
  }
}
