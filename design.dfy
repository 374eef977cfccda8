/** The Alard-Lupton design matrix (`collectAllBases`) and the reconstruction of the matching
    kernel from the fitted coefficients (`getMatchingKernelAL`). Images are flattened to
    columns of reals; the Chebyshev pixel values of the spatial and background polynomials are
    inputs (`cheb`, `polyAtCentre`), and so is numpy's standard deviation (`std`). */
module Design {
  import opened Basics
  import opened Enumeration
  import opened KernelBasis

  /** One basis image flattened to a design-matrix column, one entry per pixel. */
  type Column = seq<real>

  predicate UniformLength(cols: seq<Column>, n: nat)
  {
    forall j | 0 <= j < |cols| :: |cols[j]| == n
  }

  /** Pixelwise product `b[0] * b[1]`. */
  function Times(a: Column, b: Column): (r: Column)
    requires |a| == |b|
    ensures |r| == |a| && forall x | 0 <= x < |a| :: r[x] == a[x] * b[x]
  {
    seq(|a|, x requires 0 <= x < |a| => a[x] * b[x])
  }

  /** Pixelwise sum `a + b`. */
  function Plus(a: Column, b: Column): (r: Column)
    requires |a| == |b|
    ensures |r| == |a| && forall x | 0 <= x < |a| :: r[x] == a[x] + b[x]
  {
    seq(|a|, x requires 0 <= x < |a| => a[x] + b[x])
  }

  /** `(c - offset) / scale`. */
  function Rescale(c: Column, offset: real, scale: real): (r: Column)
    requires scale != 0.0
    ensures |r| == |c| && forall x | 0 <= x < |c| :: r[x] == (c[x] - offset) / scale
    // the recorded offset and scale undo it exactly, which is why the kernel reconstruction
    // must reuse them
    ensures forall x | 0 <= x < |c| :: r[x] * scale + offset == c[x]
  {
    seq(|c|, x requires 0 <= x < |c| => (c[x] - offset) / scale)
  }

  /** The columns `(b[0] * b[1]).flatten()` of the spatial-kernel list. */
  function SpatialColumns<K>(spatial: seq<SpatialTerm<K, Column>>, cheb: Pair -> Column): (r: seq<Column>)
    requires forall j | 0 <= j < |spatial| :: |spatial[j].convolved| == |cheb(spatial[j].degree)|
    ensures |r| == |spatial|
  {
    seq(|spatial|, j requires 0 <= j < |spatial| => Times(spatial[j].convolved, cheb(spatial[j].degree)))
  }

  /** The columns of the background list, one Chebyshev image per degree pair. */
  function BackgroundColumns(bg: seq<Pair>, cheb: Pair -> Column): (r: seq<Column>)
    ensures |r| == |bg|
  {
    seq(|bg|, j requires 0 <= j < |bg| => cheb(bg[j]))
  }

  function Present<T>(o: Option<seq<T>>): seq<T>
  {
    if o.Some? then o.value else []
  }

  /** Whether the column lists have the shapes `np.vstack` and the pixelwise products need:
      at least one column per present list and one common length, that of `basis2[0]`. */
  predicate ColumnsFit<K>(basis2: seq<Column>, spatial: Option<seq<SpatialTerm<K, Column>>>,
                          bg: Option<seq<Pair>>, cheb: Pair -> Column)
  {
    && |basis2| > 0
    && UniformLength(basis2, |basis2[0]|)
    && (spatial.Some? ==> |spatial.value| > 0)
    && (spatial.Some? ==> forall j | 0 <= j < |spatial.value| ::
          |spatial.value[j].convolved| == |basis2[0]| && |cheb(spatial.value[j].degree)| == |basis2[0]|)
    && (bg.Some? ==> |bg.value| > 0)
    && (bg.Some? ==> forall j | 0 <= j < |bg.value| :: |cheb(bg.value[j])| == |basis2[0]|)
  }

  /** The unscaled design columns in the fixed order: constant kernel, spatial kernel, background. */
  function RawColumns<K>(basis2: seq<Column>, spatial: Option<seq<SpatialTerm<K, Column>>>,
                         bg: Option<seq<Pair>>, cheb: Pair -> Column): seq<Column>
    requires ColumnsFit(basis2, spatial, bg, cheb)
  {
    basis2
      + (if spatial.Some? then SpatialColumns(spatial.value, cheb) else [])
      + (if bg.Some? then BackgroundColumns(bg.value, cheb) else [])
  }

  /** The scaled design matrix (as columns), the three index arrays, and the offset and scales. */
  datatype DesignMatrix = DesignMatrix(
    columns: seq<Column>,
    constIdx: seq<nat>,
    nonConstIdx: Option<seq<nat>>,
    bgIdx: Option<seq<nat>>,
    offset: real,
    scale: seq<real>)

  /** `collectAllBases(basis2, spatialBasis, bgBasis)`: stacks the constant-kernel columns, then
      the spatial-kernel products, then the background columns, recording each block's index
      range, and divides every column by its standard deviation plus 0.1. */
  method CollectAllBases<K>(basis2: seq<Column>, spatial: Option<seq<SpatialTerm<K, Column>>>,
                            bg: Option<seq<Pair>>, cheb: Pair -> Column, std: Column -> real)
    returns (d: DesignMatrix)
    requires ColumnsFit(basis2, spatial, bg, cheb)
    requires forall c: Column :: std(c) >= 0.0
    ensures |d.columns| == |basis2| + |Present(spatial)| + |Present(bg)|
    ensures d.constIdx == Range(0, |basis2|)
    ensures d.nonConstIdx == if spatial.Some? then Some(Range(|basis2|, |spatial.value|)) else None
    ensures d.bgIdx == if bg.Some? then Some(Range(|basis2| + |Present(spatial)|, |bg.value|)) else None
    ensures d.constIdx + Present(d.nonConstIdx) + Present(d.bgIdx) == Range(0, |d.columns|)
    ensures d.offset == 0.0
    ensures |d.scale| == |d.columns| && forall j | 0 <= j < |d.scale| :: d.scale[j] >= 0.1
    ensures |RawColumns(basis2, spatial, bg, cheb)| == |d.columns|
    ensures forall j | 0 <= j < |d.columns| ::
      && d.scale[j] == std(RawColumns(basis2, spatial, bg, cheb)[j]) + 0.1
      && d.columns[j] == Rescale(RawColumns(basis2, spatial, bg, cheb)[j], d.offset, d.scale[j])
    ensures UniformLength(d.columns, |basis2[0]|)
  {
    var columns := basis2;
    var constIdx := Range(0, |columns|);
    var nonConstIdx: Option<seq<nat>> := None;
    if spatial.Some? {
      var b1 := SpatialColumns(spatial.value, cheb);
      nonConstIdx := Some(Range(|columns|, |b1|));
      columns := columns + b1;
    }
    var bgIdx: Option<seq<nat>> := None;
    if bg.Some? {
      var b1 := BackgroundColumns(bg.value, cheb);
      bgIdx := Some(Range(|columns|, |b1|));
      columns := columns + b1;
    }
    assert columns == RawColumns(basis2, spatial, bg, cheb);
    RangesConcat(|basis2|, |Present(spatial)|, |Present(bg)|);
    var offset := 0.0;
    var scale := ColumnScales(columns, std);
    d := DesignMatrix(RescaledColumns(columns, offset, scale), constIdx, nonConstIdx, bgIdx, offset, scale);
  }

  /** `std + 0.1` per column: never below 0.1 because a standard deviation is never negative. */
  function ColumnScales(columns: seq<Column>, std: Column -> real): (r: seq<real>)
    requires forall c: Column :: std(c) >= 0.0
    ensures |r| == |columns| && forall j | 0 <= j < |columns| :: r[j] == std(columns[j]) + 0.1 && r[j] >= 0.1
  {
    seq(|columns|, j requires 0 <= j < |columns| => std(columns[j]) + 0.1)
  }

  /** Every column rescaled by its own scale. */
  function RescaledColumns(columns: seq<Column>, offset: real, scale: seq<real>): (r: seq<Column>)
    requires |scale| == |columns| && forall j | 0 <= j < |scale| :: scale[j] != 0.0
    ensures |r| == |columns| && forall j | 0 <= j < |columns| :: r[j] == Rescale(columns[j], offset, scale[j])
  {
    seq(|columns|, j requires 0 <= j < |columns| => Rescale(columns[j], offset, scale[j]))
  }

  /** The three consecutive blocks of indices tile [0, a + b + c). */
  lemma RangesConcat(a: nat, b: nat, c: nat)
    ensures Range(0, a) + Range(a, b) + Range(a + b, c) == Range(0, a + b + c)
    ensures Range(0, a) + Range(a, b) == Range(0, a + b)
    ensures Range(0, a) + Range(a, c) == Range(0, a + c)
  {
  }

  /** Which block a raw column comes from, by position. */
  lemma RawColumnsLayout<K>(basis2: seq<Column>, spatial: Option<seq<SpatialTerm<K, Column>>>,
                            bg: Option<seq<Pair>>, cheb: Pair -> Column, j: nat)
    requires ColumnsFit(basis2, spatial, bg, cheb)
    requires j < |RawColumns(basis2, spatial, bg, cheb)|
    ensures j < |basis2| ==> RawColumns(basis2, spatial, bg, cheb)[j] == basis2[j]
    ensures spatial.Some? && |basis2| <= j < |basis2| + |spatial.value| ==>
      RawColumns(basis2, spatial, bg, cheb)[j]
        == Times(spatial.value[j - |basis2|].convolved, cheb(spatial.value[j - |basis2|].degree))
    ensures |basis2| + |Present(spatial)| <= j ==>
      bg.Some? && RawColumns(basis2, spatial, bg, cheb)[j] == cheb(bg.value[j - |basis2| - |Present(spatial)|])
  {
  }

  // ---- getMatchingKernelAL ----

  /** `sum_j w[j] * cols[j]`, pixel by pixel. */
  function Combination(w: seq<real>, cols: seq<Column>, n: nat): (r: Column)
    requires |w| == |cols| && UniformLength(cols, n)
    ensures |r| == n
  {
    if cols == [] then seq(n, x => 0.0)
    else Plus(Combination(w[..|w| - 1], cols[..|cols| - 1], n), Scaled(cols[|cols| - 1], w[|w| - 1]))
  }

  /** What `getMatchingKernelAL` needs of its arguments: a kernel basis of one shape, one constant
      index per basis image, a non-empty spatial list with one index per entry, and indices that
      address `pars` and nonzero entries of `basisScale`. */
  predicate KernelArgsFit<C>(pars: seq<real>, basis: seq<Column>, constIdx: seq<nat>, nonConstIdx: seq<nat>,
                             spatial: seq<SpatialTerm<Column, C>>, scale: seq<real>)
  {
    && |basis| > 0
    && UniformLength(basis, |basis[0]|)
    && |constIdx| == |basis|
    && |spatial| > 0 && |nonConstIdx| == |spatial|
    && (forall j | 0 <= j < |spatial| :: |spatial[j].kernel| == |basis[0]|)
    && (forall j | 0 <= j < |constIdx| :: constIdx[j] < |pars| && constIdx[j] < |scale| && scale[constIdx[j]] != 0.0)
    && (forall j | 0 <= j < |nonConstIdx| ::
          nonConstIdx[j] < |pars| && nonConstIdx[j] < |scale| && scale[nonConstIdx[j]] != 0.0)
  }

  /** The columns of `kbasis1`: the kernel basis, rescaled with the constant-kernel scales. */
  function ConstKernelColumns<C>(pars: seq<real>, basis: seq<Column>, constIdx: seq<nat>, nonConstIdx: seq<nat>,
                                 spatial: seq<SpatialTerm<Column, C>>, scale: seq<real>, offset: real): (r: seq<Column>)
    requires KernelArgsFit(pars, basis, constIdx, nonConstIdx, spatial, scale)
    ensures |r| == |basis| && UniformLength(r, |basis[0]|)
  {
    seq(|basis|, j requires 0 <= j < |basis| => Rescale(basis[j], offset, scale[constIdx[j]]))
  }

  /** The columns of `kbasis2`: each entry's kernel basis times its spatial polynomial's value at
      the evaluation point, rescaled with the spatial-kernel scales. */
  function SpatialKernelColumns<C>(pars: seq<real>, basis: seq<Column>, constIdx: seq<nat>, nonConstIdx: seq<nat>,
                                   spatial: seq<SpatialTerm<Column, C>>, scale: seq<real>, offset: real,
                                   polyAtCentre: Pair -> real): (r: seq<Column>)
    requires KernelArgsFit(pars, basis, constIdx, nonConstIdx, spatial, scale)
    ensures |r| == |spatial| && UniformLength(r, |basis[0]|)
  {
    var r := seq(|spatial|, j requires 0 <= j < |spatial| =>
      Rescale(Scaled(spatial[j].kernel, polyAtCentre(spatial[j].degree)), offset, scale[nonConstIdx[j]]));
    assert forall j | 0 <= j < |r| :: |r[j]| == |spatial[j].kernel|;
    r
  }

  /** The coefficients `pars[idx[j]]`. */
  function Weights(pars: seq<real>, idx: seq<nat>): (r: seq<real>)
    requires forall j | 0 <= j < |idx| :: idx[j] < |pars|
    ensures |r| == |idx| && forall j | 0 <= j < |idx| :: r[j] == pars[idx[j]]
  {
    seq(|idx|, j requires 0 <= j < |idx| => pars[idx[j]])
  }

  /** `kfit1 + kfit2` before normalisation. */
  function RawMatchingKernel<C>(pars: seq<real>, basis: seq<Column>, constIdx: seq<nat>, nonConstIdx: seq<nat>,
                                spatial: seq<SpatialTerm<Column, C>>, scale: seq<real>, offset: real,
                                polyAtCentre: Pair -> real): (r: Column)
    requires KernelArgsFit(pars, basis, constIdx, nonConstIdx, spatial, scale)
    ensures |r| == |basis[0]|
  {
    Plus(Combination(Weights(pars, constIdx), ConstKernelColumns(pars, basis, constIdx, nonConstIdx, spatial, scale, offset), |basis[0]|),
         Combination(Weights(pars, nonConstIdx), SpatialKernelColumns(pars, basis, constIdx, nonConstIdx, spatial, scale, offset, polyAtCentre), |basis[0]|))
  }

  /** `kfit /= kfit.sum()`, in place. The source divides by zero when the sum is zero and leaves
      non-finite values; that case is reported as `ok == false`, its contents unspecified. */
  method NormalizeInPlace(kfit: array<real>) returns (ok: bool)
    modifies kfit
    ensures ok == (Sum(old(kfit[..])) != 0.0)
    ensures ok ==> kfit[..] == Scaled(old(kfit[..]), 1.0 / Sum(old(kfit[..])))
  {
    ghost var before := kfit[..];
    var total := Sum(kfit[..]);
    ok := total != 0.0;
    if ok {
      forall x | 0 <= x < kfit.Length {
        kfit[x] := kfit[x] / total;
      }
      DividedIsScaled(before, kfit[..], total);
    }
  }

  lemma InverseCancels(t: real)
    requires t != 0.0
    ensures (1.0 / t) * t == 1.0
  {
  }

  /** Dividing every entry by a nonzero total is scaling by its inverse. */
  lemma DividedIsScaled(before: seq<real>, after: seq<real>, total: real)
    requires total != 0.0 && |after| == |before|
    requires forall x | 0 <= x < |before| :: after[x] == before[x] / total
    ensures after == Scaled(before, 1.0 / total)
  {
    var expected := Scaled(before, 1.0 / total);
    forall x | 0 <= x < |before| ensures after[x] == expected[x] {
      DivideAsScale(before[x], total);
    }
  }

  /** `getMatchingKernelAL`: the kernel is the coefficient-weighted sum of the rescaled constant
      and spatial kernel bases, divided by its own sum. It therefore sums to 1, and is absent
      exactly when the raw sum is zero (the source's result is then non-finite). */
  method GetMatchingKernelAL<C>(pars: seq<real>, basis: seq<Column>, constIdx: seq<nat>, nonConstIdx: seq<nat>,
                                spatial: seq<SpatialTerm<Column, C>>, scale: seq<real>, offset: real,
                                polyAtCentre: Pair -> real)
    returns (kernel: Option<Column>)
    requires KernelArgsFit(pars, basis, constIdx, nonConstIdx, spatial, scale)
    ensures kernel.Some? <==> Sum(RawMatchingKernel(pars, basis, constIdx, nonConstIdx, spatial, scale, offset, polyAtCentre)) != 0.0
    ensures kernel.Some? ==>
      var raw := RawMatchingKernel(pars, basis, constIdx, nonConstIdx, spatial, scale, offset, polyAtCentre);
      kernel.value == Scaled(raw, 1.0 / Sum(raw))
    ensures kernel.Some? ==> Sum(kernel.value) == 1.0
  {
    var raw := RawMatchingKernel(pars, basis, constIdx, nonConstIdx, spatial, scale, offset, polyAtCentre);
    kernel := Normalized(raw);
  }

  /** The division of a kernel by its sum, done in place on a fresh array as `kfit /= kfit.sum()`. */
  method Normalized(raw: Column) returns (kernel: Option<Column>)
    ensures kernel.Some? <==> Sum(raw) != 0.0
    ensures kernel.Some? ==> kernel.value == Scaled(raw, 1.0 / Sum(raw)) && Sum(kernel.value) == 1.0
  {
    var kfit := new real[|raw|](x requires 0 <= x < |raw| => raw[x]);
    assert kfit[..] == raw;
    var ok := NormalizeInPlace(kfit);
    if ok {
      var total := Sum(raw);
      SumScaled(raw, 1.0 / total);
      InverseCancels(total);
      kernel := Some(kfit[..]);
    } else {
      kernel := None;
    }
  }

  lemma DivideAsScale(a: real, t: real)
    requires t != 0.0
    ensures a / t == (1.0 / t) * a
  {
  }

  /** The kernel reads `pars` and `basisScale` only at the constant and spatial-kernel indices:
      coefficients and scales at any other index (the background columns) do not affect it. */
  lemma MatchingKernelIgnoresOtherColumns<C>(pars: seq<real>, pars': seq<real>, basis: seq<Column>,
      constIdx: seq<nat>, nonConstIdx: seq<nat>, spatial: seq<SpatialTerm<Column, C>>,
      scale: seq<real>, scale': seq<real>, offset: real, polyAtCentre: Pair -> real)
    requires KernelArgsFit(pars, basis, constIdx, nonConstIdx, spatial, scale)
    requires KernelArgsFit(pars', basis, constIdx, nonConstIdx, spatial, scale')
    requires forall j | 0 <= j < |constIdx| :: pars'[constIdx[j]] == pars[constIdx[j]] && scale'[constIdx[j]] == scale[constIdx[j]]
    requires forall j | 0 <= j < |nonConstIdx| ::
      pars'[nonConstIdx[j]] == pars[nonConstIdx[j]] && scale'[nonConstIdx[j]] == scale[nonConstIdx[j]]
    ensures RawMatchingKernel(pars, basis, constIdx, nonConstIdx, spatial, scale, offset, polyAtCentre)
         == RawMatchingKernel(pars', basis, constIdx, nonConstIdx, spatial, scale', offset, polyAtCentre)
  {
    assert ConstKernelColumns(pars, basis, constIdx, nonConstIdx, spatial, scale, offset)
        == ConstKernelColumns(pars', basis, constIdx, nonConstIdx, spatial, scale', offset);
    assert SpatialKernelColumns(pars, basis, constIdx, nonConstIdx, spatial, scale, offset, polyAtCentre)
        == SpatialKernelColumns(pars', basis, constIdx, nonConstIdx, spatial, scale', offset, polyAtCentre);
    assert Weights(pars, constIdx) == Weights(pars', constIdx);
    assert Weights(pars, nonConstIdx) == Weights(pars', nonConstIdx);
  }

  /** With the partition `collectAllBases` records (constant block [0, nb), spatial block
      [nb, nb + ns)), changing the fitted background coefficients leaves the kernel unchanged. */
  lemma BackgroundCoefficientsUnused<C>(pars: seq<real>, pars': seq<real>, basis: seq<Column>,
      spatial: seq<SpatialTerm<Column, C>>, scale: seq<real>, offset: real, polyAtCentre: Pair -> real)
    requires KernelArgsFit(pars, basis, Range(0, |basis|), Range(|basis|, |spatial|), spatial, scale)
    requires |pars'| == |pars|
    requires forall j | 0 <= j < |pars| && j < |basis| + |spatial| :: pars'[j] == pars[j]
    ensures KernelArgsFit(pars', basis, Range(0, |basis|), Range(|basis|, |spatial|), spatial, scale)
    ensures RawMatchingKernel(pars, basis, Range(0, |basis|), Range(|basis|, |spatial|), spatial, scale, offset, polyAtCentre)
         == RawMatchingKernel(pars', basis, Range(0, |basis|), Range(|basis|, |spatial|), spatial, scale, offset, polyAtCentre)
  {
    MatchingKernelIgnoresOtherColumns(pars, pars', basis, Range(0, |basis|), Range(|basis|, |spatial|),
                                      spatial, scale, scale, offset, polyAtCentre);
  }

  /** `performAlardLupton` always calls `makeSpatialBases` with its default orders 2 and 2: the
      design matrix then has nb constant columns, 5 * nb spatial columns and 6 background columns, and
      with the default kernel basis (49 images) 300 columns in all. */
  lemma DefaultDesignWidth<K, C>(basis: seq<K>, basis2: seq<C>)
    requires |basis2| <= |basis|
    ensures |Present(SpatialKernelBases(basis, basis2, 2))| == 5 * |basis2|
    ensures |Present(BackgroundBases(2))| == 6
    ensures |basis2| == |ALChebGaussBases(None, None, 1.0)| ==>
      |basis2| + |Present(SpatialKernelBases(basis, basis2, 2))| + |Present(BackgroundBases(2))| == 300
  {
    BasisCounts(1.0);
  }
}
