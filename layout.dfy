/**
 * Row-major linearisation of multi-dimensional indices: the `to_linear`
 * helper with which the column builder addresses the column buffer and the
 * input, and the GEMM kernel addresses the output. (The GEMM kernel reads
 * the column buffer and the kernel weights at explicit row starts plus
 * col_h instead; their agreement with the row-major layout is proved
 * separately.) `ToLinear` takes the full shape; its first extent never
 * enters the offset, exactly as the library's helper omits it from its
 * argument list.
 */
module Layout {

  /** Number of elements of a dense array of the given shape. */
  function Product(shape: seq<nat>): (p: nat)
  {
    if |shape| == 0 then 1 else Product(shape[..|shape| - 1]) * shape[|shape| - 1]
  }

  /** `idx` addresses an element of an array of the given shape. */
  predicate InBounds(idx: seq<nat>, shape: seq<nat>)
  {
    |idx| == |shape| && forall k :: 0 <= k < |idx| ==> idx[k] < shape[k]
  }

  /** Row-major (Horner) offset of `idx`: the last index varies fastest. */
  function ToLinear(idx: seq<nat>, shape: seq<nat>): (offset: nat)
    requires |idx| == |shape|
  {
    if |shape| == 0 then 0
    else ToLinear(idx[..|idx| - 1], shape[..|shape| - 1]) * shape[|shape| - 1] + idx[|idx| - 1]
  }

  lemma MulMonotone(a: nat, b: nat, d: nat)
    requires a <= b
    ensures a * d <= b * d
  {
  }

  /** Quotient and remainder by `d` are unique. */
  lemma DivModUnique(q1: nat, r1: nat, q2: nat, r2: nat, d: nat)
    requires r1 < d && r2 < d && q1 * d + r1 == q2 * d + r2
    ensures q1 == q2 && r1 == r2
  {
    if q1 < q2 {
      MulMonotone(q1 + 1, q2, d);
    } else if q2 < q1 {
      MulMonotone(q2 + 1, q1, d);
    }
  }

  lemma DivBelow(j: nat, p: nat, d: nat)
    requires j < p * d
    ensures d > 0 && j / d < p
  {
    if p <= j / d {
      MulMonotone(p, j / d, d);
    }
  }

  /** Every in-bounds index lands inside the array. */
  lemma {:induction false} LinearBound(idx: seq<nat>, shape: seq<nat>)
    requires InBounds(idx, shape)
    ensures ToLinear(idx, shape) < Product(shape)
  {
    if |shape| > 0 {
      var n := |shape| - 1;
      assert InBounds(idx[..n], shape[..n]);
      LinearBound(idx[..n], shape[..n]);
      MulMonotone(ToLinear(idx[..n], shape[..n]) + 1, Product(shape[..n]), shape[n]);
    }
  }

  /** Distinct in-bounds indices have distinct offsets. */
  lemma {:induction false} LinearInjective(a: seq<nat>, b: seq<nat>, shape: seq<nat>)
    requires InBounds(a, shape) && InBounds(b, shape)
    requires ToLinear(a, shape) == ToLinear(b, shape)
    ensures a == b
  {
    if |shape| > 0 {
      var n := |shape| - 1;
      DivModUnique(ToLinear(a[..n], shape[..n]), a[n], ToLinear(b[..n], shape[..n]), b[n], shape[n]);
      assert InBounds(a[..n], shape[..n]) && InBounds(b[..n], shape[..n]);
      LinearInjective(a[..n], b[..n], shape[..n]);
      assert a == a[..n] + [a[n]];
      assert b == b[..n] + [b[n]];
    }
  }

  /** Appending a last index multiplies the prefix's offset by the last extent and adds it. */
  lemma AppendLinear(prefix: seq<nat>, r: nat, shape: seq<nat>)
    requires |shape| > 0 && |prefix| == |shape| - 1
    ensures ToLinear(prefix + [r], shape) == ToLinear(prefix, shape[..|shape| - 1]) * shape[|shape| - 1] + r
  {
    assert (prefix + [r])[..|prefix|] == prefix;
  }

  lemma DivModSplit(j: nat, d: nat)
    requires d > 0
    ensures j == (j / d) * d + j % d && j % d < d
  {
  }

  /**
   * One decoding step: an in-bounds prefix for offset j / d, followed by
   * j % d, is in bounds and has offset j, where d is the last extent.
   */
  lemma DecodeStep(j: nat, shape: seq<nat>, prefix: seq<nat>)
    requires |shape| > 0 && shape[|shape| - 1] > 0
    requires InBounds(prefix, shape[..|shape| - 1])
    requires ToLinear(prefix, shape[..|shape| - 1]) == j / shape[|shape| - 1]
    ensures InBounds(prefix + [j % shape[|shape| - 1]], shape)
    ensures ToLinear(prefix + [j % shape[|shape| - 1]], shape) == j
  {
    var n := |shape| - 1;
    var d := shape[n];
    DivModSplit(j, d);
    AppendLinear(prefix, j % d, shape);
    forall k | 0 <= k < |shape| ensures (prefix + [j % d])[k] < shape[k] {
      if k < n {
        assert (prefix + [j % d])[k] == prefix[k] && shape[..n][k] == shape[k];
      }
    }
  }

  /** The inverse of `ToLinear`: the in-bounds index whose offset is `j`. */
  function FromLinear(j: nat, shape: seq<nat>): (idx: seq<nat>)
    requires j < Product(shape)
    ensures InBounds(idx, shape) && ToLinear(idx, shape) == j
    decreases |shape|
  {
    if |shape| == 0 then []
    else
      var n := |shape| - 1;
      DivBelow(j, Product(shape[..n]), shape[n]);
      var prefix := FromLinear(j / shape[n], shape[..n]);
      DecodeStep(j, shape, prefix);
      prefix + [j % shape[n]]
  }

  /** Every in-bounds index is recovered from its offset. */
  lemma FromToLinear(idx: seq<nat>, shape: seq<nat>)
    requires InBounds(idx, shape)
    ensures ToLinear(idx, shape) < Product(shape)
    ensures FromLinear(ToLinear(idx, shape), shape) == idx
  {
    LinearBound(idx, shape);
    LinearInjective(FromLinear(ToLinear(idx, shape), shape), idx, shape);
  }

  lemma Linear3(a: nat, b: nat, c: nat, sa: nat, sb: nat, sc: nat)
    ensures ToLinear([a, b, c], [sa, sb, sc]) == (a * sb + b) * sc + c
  {
    assert [a, b, c][..2] == [a, b] && [sa, sb, sc][..2] == [sa, sb];
    assert [a, b][..1] == [a] && [sa, sb][..1] == [sa];
    assert [a][..0] == [] && [sa][..0] == [];
    assert ToLinear([a], [sa]) == 0 * sa + a == a;
  }

  lemma Linear4(a: nat, b: nat, c: nat, d: nat, sa: nat, sb: nat, sc: nat, sd: nat)
    ensures ToLinear([a, b, c, d], [sa, sb, sc, sd]) == ((a * sb + b) * sc + c) * sd + d
  {
    assert [a, b, c, d][..3] == [a, b, c] && [sa, sb, sc, sd][..3] == [sa, sb, sc];
    Linear3(a, b, c, sa, sb, sc);
  }

  lemma Linear5(a: nat, b: nat, c: nat, d: nat, e: nat, sa: nat, sb: nat, sc: nat, sd: nat, se: nat)
    ensures ToLinear([a, b, c, d, e], [sa, sb, sc, sd, se]) == (((a * sb + b) * sc + c) * sd + d) * se + e
  {
    assert [a, b, c, d, e][..4] == [a, b, c, d] && [sa, sb, sc, sd, se][..4] == [sa, sb, sc, sd];
    Linear4(a, b, c, d, sa, sb, sc, sd);
  }

  lemma Product3(a: nat, b: nat, c: nat)
    ensures Product([a, b, c]) == a * b * c
  {
    assert [a, b, c][..2] == [a, b] && [a, b][..1] == [a] && [a][..0] == [];
    assert Product([a]) == 1 * a == a;
  }

  lemma Product4(a: nat, b: nat, c: nat, d: nat)
    ensures Product([a, b, c, d]) == a * b * c * d
  {
    assert [a, b, c, d][..3] == [a, b, c];
    Product3(a, b, c);
  }

  lemma Product5(a: nat, b: nat, c: nat, d: nat, e: nat)
    ensures Product([a, b, c, d, e]) == a * b * c * d * e
  {
    assert [a, b, c, d, e][..4] == [a, b, c, d];
    Product4(a, b, c, d);
  }

  /**
   * Element (a, b, c, d) of a dense rank-4 array seen through zero padding:
   * the stored element when every index is inside its extent, 0 otherwise.
   */
  function At4(data: seq<int>, shape: seq<nat>, a: int, b: int, c: int, d: int): (v: int)
    requires |shape| == 4 && |data| == Product(shape)
  {
    if 0 <= a < shape[0] && 0 <= b < shape[1] && 0 <= c < shape[2] && 0 <= d < shape[3] then
      assert InBounds([a, b, c, d], shape);
      LinearBound([a, b, c, d], shape);
      data[ToLinear([a, b, c, d], shape)]
    else 0
  }
}
