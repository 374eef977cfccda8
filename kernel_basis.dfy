/** The layout of the Alard-Lupton basis lists: the Gaussian-weighted Chebyshev kernel
    basis of `getALChebGaussBases`, and the spatial-kernel and background lists of
    `makeSpatialBases`. Basis images are represented by what determines their pixels
    (a width and a degree pair) or carried as opaque elements; pixel values are not modelled. */
module KernelBasis {
  import opened Basics
  import opened Enumeration

  /** One kernel basis image, `chebGauss2d(x0, y0, s=[sigma, sigma], ord=degree, beta=beta)`: a
      Gaussian whose widths are `sigma / beta` times the Chebyshev term `degree`. */
  datatype ChebGauss = ChebGauss(sigma: real, beta: real, degree: Pair)

  const DefaultSigGauss: seq<real> := [0.75, 1.5, 3.0]
  const DefaultDegGauss: seq<int> := [6, 4, 2]

  /** The group of one width: one image per valid degree pair, in enumeration order. Its images
      are exactly those of that width and beta whose total degree is at most `deg`. */
  function Group(sigma: real, beta: real, deg: int): (r: seq<ChebGauss>)
    ensures |r| == TriangleCount(deg)
    ensures forall b :: b in r <==> b.sigma == sigma && b.beta == beta && b.degree.0 + b.degree.1 <= deg
  {
    var r := seq(TriangleCount(deg), t requires 0 <= t < TriangleCount(deg) => ChebGauss(sigma, beta, PairAt(deg, t)));
    TaggedPairs(sigma, beta, deg, r);
    r
  }

  /** A list holding, at every position t, the t-th valid degree pair tagged with one width and
      beta, holds exactly the images of that width and beta of degree at most `deg`. */
  lemma TaggedPairs(sigma: real, beta: real, deg: int, r: seq<ChebGauss>)
    requires |r| == TriangleCount(deg)
    requires forall t | 0 <= t < |r| :: r[t] == ChebGauss(sigma, beta, ValidInds(deg)[t])
    ensures forall b :: b in r <==> b.sigma == sigma && b.beta == beta && b.degree.0 + b.degree.1 <= deg
  {
    forall b ensures b in r <==> b.sigma == sigma && b.beta == beta && b.degree.0 + b.degree.1 <= deg {
      ValidIndsMembers(deg, b.degree);
      if b in r {
        var t :| 0 <= t < |r| && r[t] == b;
        assert b.degree == ValidInds(deg)[t];
      }
      if b.sigma == sigma && b.beta == beta && b.degree.0 + b.degree.1 <= deg {
        var t :| 0 <= t < |ValidInds(deg)| && ValidInds(deg)[t] == b.degree;
        assert r[t] == b;
      }
    }
  }

  /** Entry t of `get_valid_inds(n)`. */
  function PairAt(n: int, t: nat): (pq: Pair)
    requires t < TriangleCount(n)
    ensures t < |ValidInds(n)| && pq == ValidInds(n)[t]
  {
    ValidInds(n)[t]
  }

  /** The comprehension over `enumerate(sigGauss)`, for the first n widths: group i uses
      `degGauss[i]`. The list is as long as the sum of the group sizes of the widths given. */
  function Groups(sig: seq<real>, deg: seq<int>, beta: real, n: nat): (r: seq<ChebGauss>)
    requires n <= |sig| <= |deg|
    ensures |r| == GroupStart(deg, n)
  {
    if n == 0 then [] else Groups(sig, deg, beta, n - 1) + Group(sig[n - 1], beta, deg[n - 1])
  }

  function OrDefault<T>(o: Option<T>, default: T): T
  {
    if o.Some? then o.value else default
  }

  /** `getALChebGaussBases(x0, y0, sigGauss, degGauss, betaGauss)`, with the source's defaults for
      absent lists. The source indexes `inds[i]` for every width i, so it needs at least as many
      degrees as widths. Every image carries `betaGauss` and one of the given widths. */
  function ALChebGaussBases(sigGauss: Option<seq<real>>, degGauss: Option<seq<int>>, betaGauss: real)
    : (r: seq<ChebGauss>)
    requires |OrDefault(sigGauss, DefaultSigGauss)| <= |OrDefault(degGauss, DefaultDegGauss)|
    ensures |r| == GroupStart(OrDefault(degGauss, DefaultDegGauss), |OrDefault(sigGauss, DefaultSigGauss)|)
    ensures forall k | 0 <= k < |r| :: r[k].beta == betaGauss && r[k].sigma in OrDefault(sigGauss, DefaultSigGauss)
  {
    var sig, deg := OrDefault(sigGauss, DefaultSigGauss), OrDefault(degGauss, DefaultDegGauss);
    GroupsEntries(sig, deg, betaGauss, |sig|);
    Groups(sig, deg, betaGauss, |sig|)
  }

  /** Every image of the first n groups carries the given beta and one of the given widths. */
  lemma {:induction false} GroupsEntries(sig: seq<real>, deg: seq<int>, beta: real, n: nat)
    requires n <= |sig| <= |deg|
    ensures forall k | 0 <= k < |Groups(sig, deg, beta, n)| ::
      Groups(sig, deg, beta, n)[k].beta == beta && Groups(sig, deg, beta, n)[k].sigma in sig
  {
    if n > 0 {
      GroupsEntries(sig, deg, beta, n - 1);
      var all, front, last := Groups(sig, deg, beta, n), Groups(sig, deg, beta, n - 1), Group(sig[n - 1], beta, deg[n - 1]);
      forall k | 0 <= k < |all| ensures all[k].beta == beta && all[k].sigma in sig {
        if k < |front| {
          ConcatLeft(front, last, k);
        } else {
          ConcatRight(front, last, k - |front|);
          assert all[k] in last;
        }
      }
    }
  }

  /** Where group i starts: the sum of the group sizes before it. */
  function GroupStart(deg: seq<int>, i: nat): nat
    requires i <= |deg|
  {
    if i == 0 then 0 else GroupStart(deg, i - 1) + TriangleCount(deg[i - 1])
  }

  lemma {:induction false} GroupStartMonotone(deg: seq<int>, i: nat, j: nat)
    requires i < j <= |deg|
    ensures GroupStart(deg, i) + TriangleCount(deg[i]) <= GroupStart(deg, j)
    decreases j - i
  {
    if j > i + 1 {
      GroupStartMonotone(deg, i, j - 1);
    }
  }

  /** Position GroupStart(i) + t holds width i with the t-th degree pair of `degGauss[i]`:
      grouped by width in input order, enumeration order within a group. */
  lemma {:induction false} GroupsAt(sig: seq<real>, deg: seq<int>, beta: real, n: nat, i: nat, t: nat)
    requires n <= |sig| <= |deg| && i < n && t < TriangleCount(deg[i])
    ensures GroupStart(deg, i) + t < |Groups(sig, deg, beta, n)| && t < |ValidInds(deg[i])|
    ensures Groups(sig, deg, beta, n)[GroupStart(deg, i) + t] == ChebGauss(sig[i], beta, ValidInds(deg[i])[t])
  {
    if i < n - 1 {
      GroupsAt(sig, deg, beta, n - 1, i, t);
      EarlierGroupsAt(sig, deg, beta, n, GroupStart(deg, i) + t);
    } else {
      LastGroupAt(sig, deg, beta, n, t);
    }
  }

  /** Appending a group keeps the entries of the earlier ones in place. */
  lemma EarlierGroupsAt(sig: seq<real>, deg: seq<int>, beta: real, n: nat, k: nat)
    requires 0 < n <= |sig| <= |deg| && k < |Groups(sig, deg, beta, n - 1)|
    ensures k < |Groups(sig, deg, beta, n)| && Groups(sig, deg, beta, n)[k] == Groups(sig, deg, beta, n - 1)[k]
  {
    ConcatLeft(Groups(sig, deg, beta, n - 1), Group(sig[n - 1], beta, deg[n - 1]), k);
  }

  /** The group appended last starts where the earlier groups end. */
  lemma LastGroupAt(sig: seq<real>, deg: seq<int>, beta: real, n: nat, t: nat)
    requires 0 < n <= |sig| <= |deg| && t < TriangleCount(deg[n - 1])
    ensures |Groups(sig, deg, beta, n - 1)| + t < |Groups(sig, deg, beta, n)|
    ensures Groups(sig, deg, beta, n)[|Groups(sig, deg, beta, n - 1)| + t] == ChebGauss(sig[n - 1], beta, PairAt(deg[n - 1], t))
  {
    ConcatRight(Groups(sig, deg, beta, n - 1), Group(sig[n - 1], beta, deg[n - 1]), t);
  }

  lemma ConcatLeft<T>(a: seq<T>, b: seq<T>, k: nat)
    requires k < |a|
    ensures (a + b)[k] == a[k]
  {
  }

  lemma ConcatRight<T>(a: seq<T>, b: seq<T>, t: nat)
    requires t < |b|
    ensures (a + b)[|a| + t] == b[t]
  {
  }

  /** Conversely every position lies in exactly the group whose range contains it. */
  lemma {:induction false} GroupsLocate(sig: seq<real>, deg: seq<int>, beta: real, n: nat, k: nat) returns (i: nat, t: nat)
    requires n <= |sig| <= |deg| && k < |Groups(sig, deg, beta, n)|
    ensures i < n && t < TriangleCount(deg[i]) && k == GroupStart(deg, i) + t
  {
    if k < GroupStart(deg, n - 1) {
      i, t := GroupsLocate(sig, deg, beta, n - 1, k);
    } else {
      i, t := n - 1, k - GroupStart(deg, n - 1);
    }
  }

  /** Degrees beyond the number of widths are never used. */
  lemma {:induction false} GroupsIgnoreExtraDegrees(sig: seq<real>, deg: seq<int>, beta: real, n: nat)
    requires n <= |sig| <= |deg|
    ensures Groups(sig, deg, beta, n) == Groups(sig, deg[..|sig|], beta, n)
  {
    if n > 0 {
      GroupsIgnoreExtraDegrees(sig, deg, beta, n - 1);
      assert deg[..|sig|][n - 1] == deg[n - 1];
    }
  }

  /** With the default widths and degrees (6, 4, 2) the basis has 28 + 15 + 6 = 49 images;
      one width with degree 2 gives 6 images, with degree 0 a single one; beta changes no count. */
  lemma BasisCounts(betaGauss: real)
    ensures |ALChebGaussBases(None, None, betaGauss)| == 49
    ensures |ALChebGaussBases(Some([1.0]), Some([2]), betaGauss)| == 6
    ensures |ALChebGaussBases(Some([1.0]), Some([0]), betaGauss)| == 1
  {
    assert GroupStart(DefaultDegGauss, 3) == 49 by {
      assert TriangleCount(2) == 6 && TriangleCount(4) == 15 && TriangleCount(6) == 28;
    }
    assert GroupStart([2], 1) == 6;
    assert GroupStart([0], 1) == 1;
  }

  // ---- makeSpatialBases ----

  /** One spatial-kernel entry `[basis2[bi], cheb2d(..., degree), basis[bi]]`; the spatial
      polynomial image is named by its degree pair. */
  datatype SpatialTerm<K, C> = SpatialTerm(convolved: C, degree: Pair, kernel: K)

  /** The inner loop for one degree pair: every convolved basis, in basis order. */
  function SpatialRow<K, C>(basis: seq<K>, basis2: seq<C>, pq: Pair): seq<SpatialTerm<K, C>>
    requires |basis2| <= |basis|
  {
    seq(|basis2|, bi requires 0 <= bi < |basis2| => SpatialTerm(basis2[bi], pq, basis[bi]))
  }

  /** The outer loop over enumeration positions i, i+1, ... of `inds`. */
  function SpatialRows<K, C>(basis: seq<K>, basis2: seq<C>, inds: seq<Pair>, i: nat): seq<SpatialTerm<K, C>>
    requires |basis2| <= |basis|
    decreases |inds| - i
  {
    if i >= |inds| then [] else SpatialRow(basis, basis2, inds[i]) + SpatialRows(basis, basis2, inds, i + 1)
  }

  /** The spatial-kernel list: `None` unless the order is positive; the outer loop starts at
      enumeration position 1, skipping the constant pair. The source reads `basis[bi]` for
      every index of `basis2`, so it needs `basis` to be at least as long. */
  function SpatialKernelBases<K, C>(basis: seq<K>, basis2: seq<C>, order: int): (r: Option<seq<SpatialTerm<K, C>>>)
    requires order > 0 ==> |basis2| <= |basis|
    ensures r.None? <==> order <= 0
    ensures r.Some? ==> |r.value| == (TriangleCount(order) - 1) * |basis2|
  {
    if order > 0 then
      SpatialRowsLength(basis, basis2, ValidInds(order), 1);
      Some(SpatialRows(basis, basis2, ValidInds(order), 1))
    else None
  }

  /** The background list: one Chebyshev image per degree pair, constant term included and
      first; absent unless the order is positive. */
  function BackgroundBases(order: int): (r: Option<seq<Pair>>)
    ensures r.None? <==> order <= 0
    ensures r.Some? ==> |r.value| == TriangleCount(order) && r.value[0] == (0, 0)
  {
    if order > 0 then Some(ValidInds(order)) else None
  }

  /** `makeSpatialBases(im1, basis, basis2, spatialKernelOrder, spatialBackgroundOrder)`: each list
      is absent exactly when its order is not positive, and otherwise has (count - 1) entries
      per convolved basis and count entries respectively. */
  function MakeSpatialBases<K, C>(basis: seq<K>, basis2: seq<C>, kernelOrder: int, backgroundOrder: int)
    : (r: (Option<seq<SpatialTerm<K, C>>>, Option<seq<Pair>>))
    requires kernelOrder > 0 ==> |basis2| <= |basis|
    ensures r.0.None? <==> kernelOrder <= 0
    ensures r.1.None? <==> backgroundOrder <= 0
    ensures r.0.Some? ==> |r.0.value| == (TriangleCount(kernelOrder) - 1) * |basis2|
    ensures r.1.Some? ==> |r.1.value| == TriangleCount(backgroundOrder)
  {
    (SpatialKernelBases(basis, basis2, kernelOrder), BackgroundBases(backgroundOrder))
  }

  lemma {:induction false} SpatialRowsLength<K, C>(basis: seq<K>, basis2: seq<C>, inds: seq<Pair>, i: nat)
    requires |basis2| <= |basis| && i <= |inds|
    ensures |SpatialRows(basis, basis2, inds, i)| == (|inds| - i) * |basis2|
    decreases |inds| - i
  {
    if i < |inds| {
      SpatialRowsLength(basis, basis2, inds, i + 1);
      assert (|inds| - i) * |basis2| == |basis2| + (|inds| - (i + 1)) * |basis2|;
    }
  }

  lemma {:induction false} SpatialRowsAt<K, C>(basis: seq<K>, basis2: seq<C>, inds: seq<Pair>, i: nat, m: nat, bi: nat)
    requires |basis2| <= |basis| && i + m < |inds| && bi < |basis2|
    ensures m * |basis2| + bi < |SpatialRows(basis, basis2, inds, i)|
    ensures SpatialRows(basis, basis2, inds, i)[m * |basis2| + bi] == SpatialTerm(basis2[bi], inds[i + m], basis[bi])
    decreases m
  {
    var nb := |basis2|;
    SpatialRowsLength(basis, basis2, inds, i);
    SpatialRowsLength(basis, basis2, inds, i + 1);
    assert (|inds| - i) * nb == nb + (|inds| - i - 1) * nb;
    if m > 0 {
      SpatialRowsAt(basis, basis2, inds, i + 1, m - 1, bi);
      assert m * nb + bi == nb + ((m - 1) * nb + bi);
    }
  }

  lemma MulMonotone(a: nat, b: nat, c: nat)
    requires a >= b
    ensures a * c >= b * c
  {
  }

  lemma MulLess(a: nat, b: nat, c: nat)
    ensures a * c < b * c ==> a < b
  {
    if a >= b {
      MulMonotone(a, b, c);
    }
  }

  /** The degree pair varies in the outer loop and the basis in the inner one: entry k pairs
      basis k mod nb with enumeration position 1 + k / nb, and no entry uses the constant pair,
      since every degree lies between 1 and the order. */
  lemma SpatialKernelEntries<K, C>(basis: seq<K>, basis2: seq<C>, order: int)
    requires order > 0 && |basis2| <= |basis|
    ensures |basis2| > 0 ==> forall k | 0 <= k < |SpatialKernelBases(basis, basis2, order).value| ::
      1 + k / |basis2| < |ValidInds(order)| &&
      SpatialKernelBases(basis, basis2, order).value[k] ==
        SpatialTerm(basis2[k % |basis2|], ValidInds(order)[1 + k / |basis2|], basis[k % |basis2|]) &&
      1 <= ValidInds(order)[1 + k / |basis2|].0 + ValidInds(order)[1 + k / |basis2|].1 <= order
  {
    var r := SpatialRows(basis, basis2, ValidInds(order), 1);
    forall k | 0 <= k < |r| && |basis2| > 0
      ensures 1 + k / |basis2| < |ValidInds(order)|
      ensures r[k] == SpatialTerm(basis2[k % |basis2|], ValidInds(order)[1 + k / |basis2|], basis[k % |basis2|])
      ensures 1 <= ValidInds(order)[1 + k / |basis2|].0 + ValidInds(order)[1 + k / |basis2|].1 <= order
    {
      SpatialEntry(basis, basis2, order, k);
    }
  }

  lemma SpatialEntry<K, C>(basis: seq<K>, basis2: seq<C>, order: int, k: nat)
    requires order > 0 && 0 < |basis2| <= |basis|
    requires k < |SpatialRows(basis, basis2, ValidInds(order), 1)|
    ensures 1 + k / |basis2| < |ValidInds(order)|
    ensures SpatialRows(basis, basis2, ValidInds(order), 1)[k]
      == SpatialTerm(basis2[k % |basis2|], ValidInds(order)[1 + k / |basis2|], basis[k % |basis2|])
    ensures 1 <= ValidInds(order)[1 + k / |basis2|].0 + ValidInds(order)[1 + k / |basis2|].1 <= order
  {
    var inds := ValidInds(order);
    var nb := |basis2|;
    SpatialRowsLength(basis, basis2, inds, 1);
    var m, bi := k / nb, k % nb;
    assert k == m * nb + bi;
    MulLess(m, |inds| - 1, nb);
    SpatialRowsAt(basis, basis2, inds, 1, m, bi);
    ValidIndsOrdered(order);
    assert Before(inds[0], inds[1 + m]);
    ValidIndsMembers(order, inds[1 + m]);
  }

  /** Every pair of degree 1 .. order meets every convolved basis: pair (p, q) with basis bi
      sits at position (PairIndex(p, q) - 1) * nb + bi. */
  lemma SpatialKernelCovers<K, C>(basis: seq<K>, basis2: seq<C>, order: int, p: nat, q: nat, bi: nat) returns (pos: nat)
    requires order > 0 && |basis2| <= |basis| && 1 <= p + q <= order && bi < |basis2|
    ensures PairIndex(p, q, order) >= 1 && pos == (PairIndex(p, q, order) - 1) * |basis2| + bi
    ensures pos < |SpatialKernelBases(basis, basis2, order).value|
    ensures SpatialKernelBases(basis, basis2, order).value[pos] == SpatialTerm(basis2[bi], (p, q), basis[bi])
  {
    var inds, k := ValidInds(order), PairIndex(p, q, order);
    assert inds[0] == (0, 0) && inds[k] == (p, q);
    SpatialRowsAt(basis, basis2, inds, 1, k - 1, bi);
    pos := (k - 1) * |basis2| + bi;
  }

  /** The background list holds every pair of degree at most the order and no other. */
  lemma BackgroundMembers(order: int)
    ensures order > 0 ==> forall pq: Pair :: pq in BackgroundBases(order).value <==> pq.0 + pq.1 <= order
  {
    if order > 0 {
      forall pq: Pair ensures pq in BackgroundBases(order).value <==> pq.0 + pq.1 <= order {
        ValidIndsMembers(order, pq);
      }
    }
  }
}
