/**
 * Phase 2, the GEMM kernel: one worker per (sample, output channel, output
 * position) forms the dot product of a column-buffer row with a
 * kernel-weight row, adds the bias when there is one, and stores the
 * result in the output buffer.
 */
module GemmKernel {
  import opened Wrappers
  import opened Layout
  import opened Sums
  import opened ConvGeometry

  /** Extents of the output buffer as the GEMM kernel addresses it: (sample, out_c, out_id). */
  function OutputBufferShape(g: Geometry): (shape: seq<nat>)
  {
    [g.numSamples, g.outChannels, g.OutputArea()]
  }

  /** Size of the output buffer. */
  function OutputCount(g: Geometry): (n: nat)
  {
    g.numSamples * g.outChannels * g.OutputArea()
  }

  /** The output index a worker stores to for (samp, out_c, out_id). */
  function OutIndex(g: Geometry, samp: nat, outC: nat, outId: nat): (j: nat)
  {
    ToLinear([samp, outC, outId], OutputBufferShape(g))
  }

  /** The (samp, out_c, out_id) coordinates of output cell j. */
  function OutCellOf(g: Geometry, j: nat): (t: seq<nat>)
    requires j < OutputCount(g)
    ensures InBounds(t, OutputBufferShape(g))
    ensures OutIndex(g, t[0], t[1], t[2]) == j
  {
    Product3(g.numSamples, g.outChannels, g.OutputArea());
    var t := FromLinear(j, OutputBufferShape(g));
    assert t == [t[0], t[1], t[2]];
    t
  }

  /** The cell stored for (samp, out_c, out_id) is in the buffer and has those coordinates. */
  lemma OutCellOfIndex(g: Geometry, samp: nat, outC: nat, outId: nat)
    requires samp < g.numSamples && outC < g.outChannels && outId < g.OutputArea()
    ensures OutIndex(g, samp, outC, outId) < OutputCount(g)
    ensures OutCellOf(g, OutIndex(g, samp, outC, outId)) == [samp, outC, outId]
  {
    Product3(g.numSamples, g.outChannels, g.OutputArea());
    assert InBounds([samp, outC, outId], OutputBufferShape(g));
    FromToLinear([samp, outC, outId], OutputBufferShape(g));
  }

  /**
   * Every output cell is stored by exactly one in-range worker: some
   * worker stores it, and two in-range workers that store the same cell
   * are the same worker.
   */
  lemma OutputCellStoredOnce(g: Geometry, j: nat, s2: nat, c2: nat, i2: nat)
    requires j < OutputCount(g)
    requires s2 < g.numSamples && c2 < g.outChannels && i2 < g.OutputArea()
    ensures exists samp: nat, outC: nat, outId: nat ::
      samp < g.numSamples && outC < g.outChannels && outId < g.OutputArea() && OutIndex(g, samp, outC, outId) == j
    ensures OutIndex(g, s2, c2, i2) == j ==> OutCellOf(g, j) == [s2, c2, i2]
  {
    var t := OutCellOf(g, j);
    assert t[0] < g.numSamples && t[1] < g.outChannels && t[2] < g.OutputArea();
    OutCellOfIndex(g, s2, c2, i2);
  }

  /** Term t of a dot product between a column row and a kernel row. */
  function DotTerms(cols: seq<int>, colBase: nat, kernel: seq<int>, kerBase: nat): (term: nat -> int)
  {
    (t: nat) => if colBase + t < |cols| && kerBase + t < |kernel| then cols[colBase + t] * kernel[kerBase + t] else 0
  }

  /** sum over col_h < n of cols[colBase + col_h] * kernel[kerBase + col_h]. */
  function Dot(cols: seq<int>, colBase: nat, kernel: seq<int>, kerBase: nat, n: nat): (r: int)
    requires colBase + n <= |cols| && kerBase + n <= |kernel|
  {
    Sum(n, DotTerms(cols, colBase, kernel, kerBase))
  }

  /** The bias of output channel out_c when a bias is present; no term at all otherwise. */
  function BiasTerm(bias: Option<seq<int>>, outC: nat): (b: int)
    requires bias.Some? ==> outC < |bias.value|
  {
    if bias.Some? then bias.value[outC] else 0
  }

  predicate BiasFits(bias: Option<seq<int>>, g: Geometry)
  {
    bias.Some? ==> |bias.value| == g.outChannels
  }

  lemma ColumnRowInBuffer(g: Geometry, samp: nat, outId: nat)
    requires samp < g.numSamples && outId < g.ColWidth()
    ensures g.ColBase(samp, outId) + g.ColHeight() <= g.ColumnCount()
  {
    var cw, ch := g.ColWidth(), g.ColHeight();
    MulMonotone(samp + 1, g.numSamples, cw);
    MulMonotone(samp * cw + outId + 1, g.numSamples * cw, ch);
    assert g.ColBase(samp, outId) + ch == (samp * cw + outId + 1) * ch;
  }

  lemma KernelRowInBuffer(g: Geometry, outC: nat)
    requires outC < g.outChannels
    ensures g.KerBase(outC) + g.ColHeight() <= Product(g.KernelShape())
  {
    Product4(g.outChannels, g.inChannels, g.kernelHeight, g.kernelWidth);
    MulMonotone(outC + 1, g.outChannels, g.ColHeight());
  }

  /**
   * The value the worker (samp, out_c, out_id) stores: the dot product of
   * column row (samp, out_id) with kernel row out_c over the col_height
   * combined (input channel, kernel tap) axis, plus the bias term.
   */
  function GemmCell(cols: seq<int>, kernel: seq<int>, bias: Option<seq<int>>, g: Geometry,
                    samp: nat, outC: nat, outId: nat): (v: int)
    requires |cols| == g.ColumnCount() && |kernel| == Product(g.KernelShape()) && BiasFits(bias, g)
    requires samp < g.numSamples && outC < g.outChannels && outId < g.OutputArea()
  {
    ColumnRowInBuffer(g, samp, outId);
    KernelRowInBuffer(g, outC);
    Dot(cols, g.ColBase(samp, outId), kernel, g.KerBase(outC), g.ColHeight()) + BiasTerm(bias, outC)
  }

  /** The whole output buffer phase 2 must leave behind. */
  function Gemm(cols: seq<int>, kernel: seq<int>, bias: Option<seq<int>>, g: Geometry): (out: seq<int>)
    requires |cols| == g.ColumnCount() && |kernel| == Product(g.KernelShape()) && BiasFits(bias, g)
    ensures |out| == OutputCount(g)
  {
    seq(OutputCount(g), j requires 0 <= j < OutputCount(g) =>
      var t := OutCellOf(g, j);
      GemmCell(cols, kernel, bias, g, t[0], t[1], t[2]))
  }

  /** The `res += ...` accumulation over one column row and one kernel row. */
  method DotRow(cols: array<int>, colBase: nat, kernel: seq<int>, kerBase: nat, n: nat) returns (res: int)
    requires colBase + n <= cols.Length && kerBase + n <= |kernel|
    ensures res == Dot(cols[..], colBase, kernel, kerBase, n)
  {
    res := 0;
    var colH := 0;
    while colH < n
      invariant colH <= n
      invariant res == Dot(cols[..], colBase, kernel, kerBase, colH)
    {
      res := res + cols[colBase + colH] * kernel[kerBase + colH];
      colH := colH + 1;
    }
  }

  /**
   * One GEMM worker. A worker past the output area or the output channels
   * (launch rounding) stores nothing; any other stores exactly its own
   * output cell.
   */
  method GemmWorker(cols: array<int>, kernel: seq<int>, bias: Option<seq<int>>, g: Geometry,
                    samp: nat, outC: nat, outId: nat, output: array<int>)
    requires cols != output
    requires cols.Length == g.ColumnCount() && |kernel| == Product(g.KernelShape()) && BiasFits(bias, g)
    requires output.Length == OutputCount(g) && samp < g.numSamples
    modifies output
    ensures outId >= g.OutputArea() || outC >= g.outChannels ==> output[..] == old(output[..])
    ensures outId < g.OutputArea() && outC < g.outChannels ==>
      OutIndex(g, samp, outC, outId) < output.Length &&
      output[..] == old(output[..])[OutIndex(g, samp, outC, outId) := GemmCell(cols[..], kernel, bias, g, samp, outC, outId)]
  {
    if outId >= g.OutputArea() || outC >= g.outChannels {
      return;
    }
    var colHeight := g.ColHeight();
    var colBase := samp * g.ColWidth() * colHeight + outId * colHeight;
    var kerBase := outC * colHeight;
    ColumnRowInBuffer(g, samp, outId);
    KernelRowInBuffer(g, outC);
    var res := DotRow(cols, colBase, kernel, kerBase, colHeight);
    if bias.Some? {
      res := res + bias.value[outC];
    }
    OutCellOfIndex(g, samp, outC, outId);
    output[OutIndex(g, samp, outC, outId)] := res;
  }

  /** Worker (samp, out_c, out_id) comes before the worker (s, c, i) in the sequential launch order. */
  predicate Stored(t: seq<nat>, s: nat, c: nat, i: nat)
    requires |t| == 3
  {
    t[0] < s || (t[0] == s && (t[1] < c || (t[1] == c && t[2] < i)))
  }

  /**
   * The phase-2 launch over the (num_samples, total_output_channels,
   * total_output_area) grid, run as a sequential loop nest after phase 1
   * has completed: when it returns the output buffer is the GEMM of the
   * column buffer with the kernel rows, plus the bias.
   */
  method GemmLaunch(cols: array<int>, kernel: seq<int>, bias: Option<seq<int>>, g: Geometry,
                    totalOutputChannels: nat, totalOutputArea: nat, output: array<int>)
    requires cols != output
    requires cols.Length == g.ColumnCount() && |kernel| == Product(g.KernelShape()) && BiasFits(bias, g)
    requires output.Length == OutputCount(g)
    requires totalOutputChannels >= g.outChannels && totalOutputArea >= g.OutputArea()
    modifies output
    ensures output[..] == Gemm(cols[..], kernel, bias, g)
  {
    ghost var spec := Gemm(cols[..], kernel, bias, g);
    var samp := 0;
    while samp < g.numSamples
      invariant samp <= g.numSamples
      invariant forall j :: 0 <= j < output.Length ==>
        output[j] == if Stored(OutCellOf(g, j), samp, 0, 0) then spec[j] else old(output[j])
    {
      var outC := 0;
      while outC < totalOutputChannels
        invariant outC <= totalOutputChannels
        invariant forall j :: 0 <= j < output.Length ==>
          output[j] == if Stored(OutCellOf(g, j), samp, outC, 0) then spec[j] else old(output[j])
      {
        var outId := 0;
        while outId < totalOutputArea
          invariant outId <= totalOutputArea
          invariant forall j :: 0 <= j < output.Length ==>
            output[j] == if Stored(OutCellOf(g, j), samp, outC, outId) then spec[j] else old(output[j])
        {
          GemmWorker(cols, kernel, bias, g, samp, outC, outId, output);
          if outId < g.OutputArea() && outC < g.outChannels {
            OutCellOfIndex(g, samp, outC, outId);
          }
          outId := outId + 1;
        }
        outC := outC + 1;
      }
      samp := samp + 1;
    }
    assert forall j :: 0 <= j < output.Length ==> output[j] == spec[j];
  }
}
