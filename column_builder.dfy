/**
 * Phase 1, the column builder: one worker per (sample, input channel,
 * kernel tap) copies, for every output position, the input element under
 * that tap (or 0 at a padded position) into the flat column buffer.
 */
module ColumnBuilder {
  import opened Layout
  import opened ConvGeometry

  /** Extents of the column buffer in the order of its linear index: (sample, out_h, out_w, in_c, ker). */
  function ColumnShape(g: Geometry): (shape: seq<nat>)
  {
    [g.numSamples, g.outHeight, g.outWidth, g.inChannels, g.KernelArea()]
  }

  /** The buffer the host allocates holds exactly one cell per column index. */
  lemma ColumnCountIsProduct(g: Geometry)
    ensures Product(ColumnShape(g)) == g.ColumnCount()
  {
    var ns, oh, ow, ic, ka := g.numSamples, g.outHeight, g.outWidth, g.inChannels, g.KernelArea();
    Product5(ns, oh, ow, ic, ka);
    calc {
      ns * oh * ow * ic * ka;
      ns * ((oh * ow) * (ic * ka));
      ns * (ic * ka) * (oh * ow);
    }
  }

  /** The column index a worker writes for (samp, out_h, out_w, in_c, ker). */
  function ColIndex(g: Geometry, samp: nat, outH: nat, outW: nat, inC: nat, ker: nat): (j: nat)
  {
    ToLinear([samp, outH, outW, inC, ker], ColumnShape(g))
  }

  /** The (samp, out_h, out_w, in_c, ker) coordinates of column cell j. */
  function CellOf(g: Geometry, j: nat): (t: seq<nat>)
    requires j < g.ColumnCount()
    ensures InBounds(t, ColumnShape(g))
    ensures ColIndex(g, t[0], t[1], t[2], t[3], t[4]) == j
  {
    ColumnCountIsProduct(g);
    var t := FromLinear(j, ColumnShape(g));
    assert t == [t[0], t[1], t[2], t[3], t[4]];
    t
  }

  /**
   * What the worker (samp, in_c, ker) writes for output position
   * (out_h, out_w): the input element under the tap when both `uint`
   * offsets are below the input extents, 0 otherwise. Phase 1 only
   * copies: the value is zero fill or an element of the input.
   */
  function ColumnValue(input: seq<int>, g: Geometry, samp: nat, inC: nat, ker: nat, outH: nat, outW: nat): (v: int)
    requires |input| == Product(g.InputShape())
    requires samp < g.numSamples && inC < g.inChannels && ker < g.KernelArea()
  {
    var kerW := ker % g.kernelWidth;
    var kerH := ker / g.kernelWidth;
    var h := PaddedOffset(outH, kerH, g.padH, g.dilationH, g.strideH);
    var w := PaddedOffset(outW, kerW, g.padW, g.dilationW, g.strideW);
    if h < g.inHeight && w < g.inWidth then At4(input, g.InputShape(), samp, inC, h, w) else 0
  }

  /** The whole column buffer phase 1 must leave behind. */
  function Im2Col(input: seq<int>, g: Geometry): (cols: seq<int>)
    requires |input| == Product(g.InputShape())
    ensures |cols| == g.ColumnCount()
  {
    seq(g.ColumnCount(), j requires 0 <= j < g.ColumnCount() =>
      var t := CellOf(g, j);
      ColumnValue(input, g, t[0], t[3], t[4], t[1], t[2]))
  }

  /** The cell a worker writes for (out_h, out_w) is in the buffer and holds that worker's value. */
  lemma Im2ColAt(input: seq<int>, g: Geometry, samp: nat, outH: nat, outW: nat, inC: nat, ker: nat)
    requires |input| == Product(g.InputShape())
    requires samp < g.numSamples && outH < g.outHeight && outW < g.outWidth
    requires inC < g.inChannels && ker < g.KernelArea()
    ensures ColIndex(g, samp, outH, outW, inC, ker) < g.ColumnCount()
    ensures CellOf(g, ColIndex(g, samp, outH, outW, inC, ker)) == [samp, outH, outW, inC, ker]
    ensures Im2Col(input, g)[ColIndex(g, samp, outH, outW, inC, ker)] == ColumnValue(input, g, samp, inC, ker, outH, outW)
  {
    ColumnCountIsProduct(g);
    assert InBounds([samp, outH, outW, inC, ker], ColumnShape(g));
    FromToLinear([samp, outH, outW, inC, ker], ColumnShape(g));
  }

  /** Two in-range worker iterations that write the same cell are the same iteration. */
  lemma ColumnWritesDistinct(g: Geometry,
                             s1: nat, h1: nat, w1: nat, c1: nat, k1: nat,
                             s2: nat, h2: nat, w2: nat, c2: nat, k2: nat)
    requires s1 < g.numSamples && h1 < g.outHeight && w1 < g.outWidth && c1 < g.inChannels && k1 < g.KernelArea()
    requires s2 < g.numSamples && h2 < g.outHeight && w2 < g.outWidth && c2 < g.inChannels && k2 < g.KernelArea()
    requires ColIndex(g, s1, h1, w1, c1, k1) == ColIndex(g, s2, h2, w2, c2, k2)
    ensures s1 == s2 && h1 == h2 && w1 == w2 && c1 == c2 && k1 == k2
  {
    var a, b := [s1, h1, w1, c1, k1], [s2, h2, w2, c2, k2];
    assert InBounds(a, ColumnShape(g)) && InBounds(b, ColumnShape(g));
    LinearInjective(a, b, ColumnShape(g));
    assert a[0] == b[0] && a[1] == b[1] && a[2] == b[2] && a[3] == b[3] && a[4] == b[4];
  }

  /**
   * Every cell of the column buffer is written by some in-range worker
   * iteration, and every in-range iteration writes inside the buffer.
   */
  lemma ColumnCellsCovered(g: Geometry, j: nat)
    requires j < g.ColumnCount()
    ensures exists samp: nat, outH: nat, outW: nat, inC: nat, ker: nat ::
      && samp < g.numSamples && outH < g.outHeight && outW < g.outWidth
      && inC < g.inChannels && ker < g.KernelArea()
      && ColIndex(g, samp, outH, outW, inC, ker) == j
  {
    var t := CellOf(g, j);
    assert t[0] < g.numSamples && t[1] < g.outHeight && t[2] < g.outWidth;
    assert t[3] < g.inChannels && t[4] < g.KernelArea();
  }

  lemma ColumnWriteInBuffer(g: Geometry, samp: nat, outH: nat, outW: nat, inC: nat, ker: nat)
    requires samp < g.numSamples && outH < g.outHeight && outW < g.outWidth
    requires inC < g.inChannels && ker < g.KernelArea()
    ensures ColIndex(g, samp, outH, outW, inC, ker) < g.ColumnCount()
  {
    ColumnCountIsProduct(g);
    assert InBounds([samp, outH, outW, inC, ker], ColumnShape(g));
    LinearBound([samp, outH, outW, inC, ker], ColumnShape(g));
  }

  /**
   * Writer and reader agree on the layout: the index the column builder
   * writes for (samp, out_h, out_w, in_c, ker) is the GEMM kernel's
   * col_base + col_h for out_id = out_h * output_width + out_w and
   * col_h = in_c * kernel_area + ker.
   */
  lemma ColumnLayoutAgreement(g: Geometry, samp: nat, outH: nat, outW: nat, inC: nat, ker: nat)
    ensures ColIndex(g, samp, outH, outW, inC, ker)
         == g.ColBase(samp, g.OutId(outH, outW)) + g.ColH(inC, ker)
  {
    var oh, ow, ic, ka := g.outHeight, g.outWidth, g.inChannels, g.KernelArea();
    Linear5(samp, outH, outW, inC, ker, g.numSamples, oh, ow, ic, ka);
    var outId := outH * ow + outW;
    calc {
      (((samp * oh + outH) * ow + outW) * ic + inC) * ka + ker;
      ((samp * oh + outH) * ow + outW) * (ic * ka) + (inC * ka + ker);
      { assert (samp * oh + outH) * ow + outW == samp * (oh * ow) + outId; }
      (samp * (oh * ow) + outId) * (ic * ka) + (inC * ka + ker);
      samp * (oh * ow) * (ic * ka) + outId * (ic * ka) + (inC * ka + ker);
    }
  }

  /** The worker (samp, in_c, ker) is the one that writes column cell j. */
  ghost predicate OwnedBy(g: Geometry, j: nat, samp: nat, inC: nat, ker: nat)
    requires j < g.ColumnCount()
  {
    var t := CellOf(g, j);
    t[0] == samp && t[3] == inC && t[4] == ker
  }

  /**
   * The value one worker computes for one output position: both padded
   * offsets in `uint` arithmetic, then the input element under the tap
   * when both are below the input extents, 0 otherwise.
   */
  method ColumnCell(input: seq<int>, g: Geometry, samp: nat, inC: nat, ker: nat, kerH: nat, kerW: nat,
                    outH: nat, outW: nat) returns (v: int)
    requires |input| == Product(g.InputShape())
    requires samp < g.numSamples && inC < g.inChannels && ker < g.KernelArea()
    requires kerH == ker / g.kernelWidth && kerW == ker % g.kernelWidth
    ensures v == ColumnValue(input, g, samp, inC, ker, outH, outW)
  {
    var hOffset := PaddedOffset(outH, kerH, g.padH, g.dilationH, g.strideH);
    var wOffset := PaddedOffset(outW, kerW, g.padW, g.dilationW, g.strideW);
    ghost var expected := ColumnValue(input, g, samp, inC, ker, outH, outW);
    assert expected == if hOffset < g.inHeight && wOffset < g.inWidth
                       then At4(input, g.InputShape(), samp, inC, hOffset, wOffset) else 0;
    if hOffset < g.inHeight && wOffset < g.inWidth {
      assert InBounds([samp, inC, hOffset, wOffset], g.InputShape());
      LinearBound([samp, inC, hOffset, wOffset], g.InputShape());
      v := input[ToLinear([samp, inC, hOffset, wOffset], g.InputShape())];
    } else {
      v := 0;
    }
  }

  /**
   * One column-builder worker. A worker past the kernel area (launch
   * rounding) writes nothing; any other writes exactly its own cells, with
   * the values of the column buffer phase 1 must produce.
   */
  method ColumnWorker(input: seq<int>, g: Geometry, samp: nat, inC: nat, ker: nat, cols: array<int>)
    requires |input| == Product(g.InputShape()) && cols.Length == g.ColumnCount()
    requires samp < g.numSamples && inC < g.inChannels
    modifies cols
    ensures ker >= g.KernelArea() ==> cols[..] == old(cols[..])
    ensures forall j :: 0 <= j < cols.Length ==>
      cols[j] == if OwnedBy(g, j, samp, inC, ker) then Im2Col(input, g)[j] else old(cols[j])
  {
    if ker >= g.KernelArea() {
      return;
    }
    var kerW := ker % g.kernelWidth;
    var kerH := ker / g.kernelWidth;
    ghost var spec := Im2Col(input, g);
    var outH := 0;
    while outH < g.outHeight
      invariant outH <= g.outHeight
      invariant forall j :: 0 <= j < cols.Length ==>
        cols[j] == if OwnedBy(g, j, samp, inC, ker) && CellOf(g, j)[1] < outH then spec[j] else old(cols[j])
    {
      var outW := 0;
      while outW < g.outWidth
        invariant outW <= g.outWidth
        invariant forall j :: 0 <= j < cols.Length ==>
          cols[j] == if OwnedBy(g, j, samp, inC, ker) && (CellOf(g, j)[1] < outH || (CellOf(g, j)[1] == outH && CellOf(g, j)[2] < outW))
                     then spec[j] else old(cols[j])
      {
        var v := ColumnCell(input, g, samp, inC, ker, kerH, kerW, outH, outW);
        var colIndex := ColIndex(g, samp, outH, outW, inC, ker);
        Im2ColAt(input, g, samp, outH, outW, inC, ker);
        cols[colIndex] := v;
        outW := outW + 1;
      }
      outH := outH + 1;
    }
  }

  /** Worker (samp, in_c, ker) comes before the worker (s, c, k) in the sequential launch order. */
  predicate Launched(t: seq<nat>, s: nat, c: nat, k: nat)
    requires |t| == 5
  {
    t[0] < s || (t[0] == s && (t[3] < c || (t[3] == c && t[4] < k)))
  }

  /**
   * The phase-1 launch over the (num_samples, input_channels, total_kernel)
   * grid, run as a sequential loop nest: when it returns the column buffer
   * is the one phase 2 expects.
   */
  method BuildColumns(input: seq<int>, g: Geometry, totalKernel: nat, cols: array<int>)
    requires |input| == Product(g.InputShape()) && cols.Length == g.ColumnCount()
    requires totalKernel >= g.KernelArea()
    modifies cols
    ensures cols[..] == Im2Col(input, g)
  {
    ghost var spec := Im2Col(input, g);
    var samp := 0;
    while samp < g.numSamples
      invariant samp <= g.numSamples
      invariant forall j :: 0 <= j < cols.Length ==>
        cols[j] == if Launched(CellOf(g, j), samp, 0, 0) then spec[j] else old(cols[j])
    {
      var inC := 0;
      while inC < g.inChannels
        invariant inC <= g.inChannels
        invariant forall j :: 0 <= j < cols.Length ==>
          cols[j] == if Launched(CellOf(g, j), samp, inC, 0) then spec[j] else old(cols[j])
      {
        var ker := 0;
        while ker < totalKernel
          invariant ker <= totalKernel
          invariant forall j :: 0 <= j < cols.Length ==>
            cols[j] == if Launched(CellOf(g, j), samp, inC, ker) then spec[j] else old(cols[j])
        {
          ColumnWorker(input, g, samp, inC, ker, cols);
          ker := ker + 1;
        }
        inC := inC + 1;
      }
      samp := samp + 1;
    }
    assert forall j :: 0 <= j < cols.Length ==> cols[j] == spec[j];
  }
}
