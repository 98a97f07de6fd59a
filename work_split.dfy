/**
 * The work-distribution heuristic: how large the work-groups of the two
 * launches are and how far the launch sizes are rounded up.
 */
module WorkSplit {
  import opened Layout

  /**
   * What the library's proportionate two-axis split hands back for the
   * GEMM launch: the tile along the output-channel and output-area axes and
   * the rounded-up launch extents along them.
   */
  datatype Split = Split(
    eachChannel: nat, eachOutputArea: nat,
    totalOutputChannels: nat, totalOutputArea: nat)

  /** The split's launch covers every output channel and every output position. */
  predicate Covers(s: Split, outputChannels: nat, outputArea: nat)
  {
    s.totalOutputChannels >= outputChannels && s.totalOutputArea >= outputArea
  }

  /** The device limit, capped by the empirical GROUP_SIZE_GUESS. */
  method CappedWorkGroupSize(maxWorkGroupSize: nat, groupSizeGuess: nat) returns (size: nat)
    ensures size <= maxWorkGroupSize && size <= groupSizeGuess
    ensures size == maxWorkGroupSize || size == groupSizeGuess
  {
    size := maxWorkGroupSize;
    if groupSizeGuess < size {
      size := groupSizeGuess;
    }
  }

  lemma RoundUpBounds(n: nat, e: nat)
    requires e >= 1
    ensures var t := ((n + e - 1) / e) * e;
      t % e == 0 && n <= t < n + e
  {
    var a := n + e - 1;
    var q, r := a / e, a % e;
    assert a == q * e + r && 0 <= r < e;
    DivModUnique(q, 0, (q * e) / e, (q * e) % e, e);
  }

  /**
   * Phase-1 work-group size and launch size along the kernel-tap axis: the
   * group size is the least of the device limit, GROUP_SIZE_GUESS and the
   * kernel area, and the launch size is the least multiple of it that
   * reaches the kernel area.
   */
  method Phase1WorkGroup(maxWorkGroupSize: nat, groupSizeGuess: nat, kernelArea: nat)
    returns (eachKernel: nat, totalKernel: nat)
    requires maxWorkGroupSize >= 1 && groupSizeGuess >= 1 && kernelArea >= 1
    ensures 1 <= eachKernel
    ensures eachKernel <= maxWorkGroupSize && eachKernel <= groupSizeGuess && eachKernel <= kernelArea
    ensures eachKernel == maxWorkGroupSize || eachKernel == groupSizeGuess || eachKernel == kernelArea
    ensures totalKernel % eachKernel == 0
    ensures kernelArea <= totalKernel < kernelArea + eachKernel
  {
    eachKernel := CappedWorkGroupSize(maxWorkGroupSize, groupSizeGuess);
    if kernelArea < eachKernel {
      eachKernel := kernelArea;
    }
    RoundUpBounds(kernelArea, eachKernel);
    totalKernel := ((kernelArea + eachKernel - 1) / eachKernel) * eachKernel;
  }

  /** A multiple of `e` in [n, n + e) is the least multiple of `e` that is at least n. */
  lemma {:induction false} LeastMultiple(n: nat, e: nat, t: nat, m: nat)
    requires e >= 1 && t % e == 0 && n <= t < n + e
    requires m % e == 0 && n <= m
    ensures t <= m
  {
    if m < t {
      var qm, qt := m / e, t / e;
      assert m == qm * e && t == qt * e;
      assert qm < qt by {
        if qm >= qt {
          MulMonotone(qt, qm, e);
        }
      }
      MulMonotone(qm + 1, qt, e);
    }
  }
}
