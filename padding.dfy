/** Zero padding of 2-d arrays with `np.pad(..., mode='constant')`: the symmetric padding that
    brings the PSF and the matching kernel to one size in `computeCorrectedDiffimPsf`, and the
    padding of a PSF to the image size in `DiffimTest.doZOGY`. */
module Padding {
  import opened Basics
  import opened Matrices

  /** `np.pad(m, ((top, bottom), (left, right)), mode='constant')`: the array framed by zeros. */
  function Pad(m: Matrix, top: nat, bottom: nat, left: nat, right: nat): (r: Matrix)
    ensures r.rows == top + m.rows + bottom && r.cols == left + m.cols + right
    ensures forall i, j | 0 <= i < r.rows && 0 <= j < r.cols ::
      At(r, i, j) == if top <= i < top + m.rows && left <= j < left + m.cols then At(m, i - top, j - left) else 0.0
  {
    var rows, cols := top + m.rows + bottom, left + m.cols + right;
    Mat(rows, cols, seq(rows, i requires 0 <= i < rows => seq(cols, j requires 0 <= j < cols =>
      if top <= i < top + m.rows && left <= j < left + m.cols then m.cells[i - top][j - left] else 0.0)))
  }

  /** `a[top:top + rows, left:left + cols]`. */
  function Crop(a: Matrix, top: nat, left: nat, rows: nat, cols: nat): (r: Matrix)
    requires top + rows <= a.rows && left + cols <= a.cols
    ensures r.rows == rows && r.cols == cols
    ensures forall i, j | 0 <= i < rows && 0 <= j < cols :: At(r, i, j) == At(a, top + i, left + j)
  {
    Mat(rows, cols, seq(rows, i requires 0 <= i < rows => seq(cols, j requires 0 <= j < cols =>
      a.cells[top + i][left + j])))
  }

  /** Padding loses nothing: cutting the original window back out of the padded array gives the
      array that was padded. */
  lemma PadCrop(m: Matrix, top: nat, bottom: nat, left: nat, right: nat)
    ensures var p := Pad(m, top, bottom, left, right);
      top + m.rows <= p.rows && left + m.cols <= p.cols && Crop(p, top, left, m.rows, m.cols) == m
  {
    var p := Pad(m, top, bottom, left, right);
    Extensionality(Crop(p, top, left, m.rows, m.cols), m);
  }

  /** The one-sided paddings of `fixOddKernel` are instances: a zero row on top and a zero
      column on the left. */
  lemma OneSidedPads(m: Matrix)
    ensures PadTop(m) == Pad(m, 1, 0, 0, 0)
    ensures PadLeft(m) == Pad(m, 0, 0, 1, 0)
  {
    Extensionality(PadTop(m), Pad(m, 1, 0, 0, 0));
    Extensionality(PadLeft(m), Pad(m, 0, 0, 1, 0));
  }

  // ---- computeCorrectedDiffimPsf ----

  /** `np.pad(a, (d, d))`: d zeros on every side, the array moved d down and d right. */
  function PadAround(a: Matrix, d: nat): (r: Matrix)
    ensures r.rows == a.rows + 2 * d && r.cols == a.cols + 2 * d
    ensures forall i, j | 0 <= i < a.rows && 0 <= j < a.cols :: At(r, d + i, d + j) == At(a, i, j)
  {
    Pad(a, d, d, d, d)
  }

  /** The symmetric padding of `post_conv_psf_ft2`: whichever of psf and kernel has fewer rows
      is padded by half the difference, rounded down, on every side; equal row counts leave
      both unchanged. Only the row counts are compared (the source assumes square arrays). The
      larger array is never changed and the smaller is padded around; the two end with the
      same row count exactly when the row counts differ by an even number, and otherwise the
      padded one is one row short. For square arrays the same holds for the columns. */
  function MatchSizes(psf: Matrix, kernel: Matrix): (r: (Matrix, Matrix))
    ensures psf.rows >= kernel.rows ==> r.0 == psf
    ensures psf.rows <= kernel.rows ==> r.1 == kernel
    ensures r.0.rows == r.1.rows <==> (psf.rows - kernel.rows) % 2 == 0
    ensures r.0.rows != r.1.rows ==> r.0.rows - r.1.rows == 1 || r.1.rows - r.0.rows == 1
    ensures psf.rows == psf.cols && kernel.rows == kernel.cols ==> r.0.rows == r.0.cols && r.1.rows == r.1.cols
  {
    HalfOfDifference(kernel.rows - psf.rows);
    HalfOfDifference(psf.rows - kernel.rows);
    if psf.rows < kernel.rows then (PadAround(psf, (kernel.rows - psf.rows) / 2), kernel)
    else if psf.rows > kernel.rows then (psf, PadAround(kernel, (psf.rows - kernel.rows) / 2))
    else (psf, kernel)
  }

  lemma HalfOfDifference(d: int)
    ensures d >= 0 ==> d - 2 * (d / 2) == d % 2
  {
  }

  /** Padding the same amount on every side keeps the centre entry at the centre. */
  lemma PadAroundKeepsCentre(a: Matrix, d: nat)
    requires a.rows > 0 && a.cols > 0
    ensures var p := PadAround(a, d);
      p.rows / 2 < p.rows && p.cols / 2 < p.cols && At(p, p.rows / 2, p.cols / 2) == At(a, a.rows / 2, a.cols / 2)
  {
    var p := PadAround(a, d);
    assert p.rows / 2 == d + a.rows / 2;
    assert p.cols / 2 == d + a.cols / 2;
  }

  // ---- doZOGY ----

  /** `padSize = im.shape[k] // 2 - psf.shape[k] // 2` for one axis. */
  function ZogyPadSize(imSide: nat, psfSide: nat): int
  {
    imSide / 2 - psfSide / 2
  }

  /** `np.pad(psf, ((p0 - 1, p0), (p1 - 1, p1)), mode='constant')` for given pad sizes p0 and
      p1. A pad size below 1 gives a negative width, which `np.pad` rejects; that is `None` here.
      Otherwise each side grows by 2 p - 1 and the PSF sits in the window starting at
      (p0 - 1, p1 - 1), with zeros around it. */
  function ZogyPadBy(psf: Matrix, p0: int, p1: int): (r: Option<Matrix>)
    ensures r.Some? <==> p0 >= 1 && p1 >= 1
    ensures r.Some? ==> r.value.rows == psf.rows + 2 * p0 - 1 && r.value.cols == psf.cols + 2 * p1 - 1
    ensures r.Some? ==> Crop(r.value, p0 - 1, p1 - 1, psf.rows, psf.cols) == psf
  {
    if p0 >= 1 && p1 >= 1 then
      PadCrop(psf, p0 - 1, p0, p1 - 1, p1);
      Some(Pad(psf, p0 - 1, p0, p1 - 1, p1))
    else None
  }

  /** The padding of a PSF to the image shape when ZOGY works in Fourier space, with the pad
      sizes taken from that PSF and its image (`psf1`). The padded PSF exists exactly when both
      pad sizes are at least 1; it has the image's shape exactly when each image side is even
      and each PSF side odd; the PSF sits in the window starting at (padSize0 - 1,
      padSize1 - 1), with zeros around it. */
  function ZogyPad(psf: Matrix, imRows: nat, imCols: nat): (r: Option<Matrix>)
    ensures r.Some? <==> ZogyPadSize(imRows, psf.rows) >= 1 && ZogyPadSize(imCols, psf.cols) >= 1
    ensures r.Some? ==>
      ((r.value.rows, r.value.cols) == (imRows, imCols) <==>
        imRows % 2 == 0 && psf.rows % 2 == 1 && imCols % 2 == 0 && psf.cols % 2 == 1)
    ensures r.Some? ==>
      var p0, p1 := ZogyPadSize(imRows, psf.rows), ZogyPadSize(imCols, psf.cols);
      p0 - 1 + psf.rows <= r.value.rows && p1 - 1 + psf.cols <= r.value.cols &&
      Crop(r.value, p0 - 1, p1 - 1, psf.rows, psf.cols) == psf
  {
    var p0, p1 := ZogyPadSize(imRows, psf.rows), ZogyPadSize(imCols, psf.cols);
    if p0 >= 1 && p1 >= 1 then
      ZogySide(imRows, psf.rows);
      ZogySide(imCols, psf.cols);
      ZogyPadBy(psf, p0, p1)
    else None
  }

  /** Both PSFs of `doZOGY` in Fourier space: the pad sizes come from the first image and the
      first PSF only, and the second PSF is padded with the same sizes. The pair exists exactly
      when the first PSF's padding does, and its first half is that padding. The second padded
      PSF is the second PSF's sides plus the same growth; in the case the source assumes (even
      image, odd first PSF) it has the image's shape exactly when the two PSFs have the same
      shape, and the second PSF sits in the same window as the first. */
  function ZogyPads(psf1: Matrix, psf2: Matrix, imRows: nat, imCols: nat): (r: Option<(Matrix, Matrix)>)
    ensures r.Some? <==> ZogyPad(psf1, imRows, imCols).Some?
    ensures r.Some? ==> r.value.0 == ZogyPad(psf1, imRows, imCols).value
    ensures r.Some? ==>
      var p0, p1 := ZogyPadSize(imRows, psf1.rows), ZogyPadSize(imCols, psf1.cols);
      && r.value.1.rows == psf2.rows + 2 * p0 - 1 && r.value.1.cols == psf2.cols + 2 * p1 - 1
      && r.value.1.rows - r.value.0.rows == psf2.rows - psf1.rows
      && r.value.1.cols - r.value.0.cols == psf2.cols - psf1.cols
      && Crop(r.value.1, p0 - 1, p1 - 1, psf2.rows, psf2.cols) == psf2
    ensures r.Some? && imRows % 2 == 0 && psf1.rows % 2 == 1 && imCols % 2 == 0 && psf1.cols % 2 == 1 ==>
      ((r.value.1.rows, r.value.1.cols) == (imRows, imCols) <==> (psf2.rows, psf2.cols) == (psf1.rows, psf1.cols))
  {
    var p0, p1 := ZogyPadSize(imRows, psf1.rows), ZogyPadSize(imCols, psf1.cols);
    var first, second := ZogyPad(psf1, imRows, imCols), ZogyPadBy(psf2, p0, p1);
    if first.Some? then
      assert first == ZogyPadBy(psf1, p0, p1);
      Some((first.value, second.value))
    else None
  }

  /** A PSF of side 2 x 257 - 1 = 513 for a 512 x 512 image gives pad sizes of 0, so the
      first width is negative and there is no padded PSF. */
  lemma ZogyPadTooLargePsf(psf: Matrix)
    requires psf.rows == 513 && psf.cols == 513
    ensures ZogyPadSize(512, psf.rows) == 0 && ZogyPad(psf, 512, 512).None?
  {
  }

  /** A second PSF larger than the first is padded past the image: a 512 x 512 image with a
      21 x 21 first PSF gives pad sizes of 246, so a 25 x 25 second PSF becomes 516 x 516. */
  lemma ZogyPadsMismatchedPsf(psf1: Matrix, psf2: Matrix)
    requires psf1.rows == 21 && psf1.cols == 21 && psf2.rows == 25 && psf2.cols == 25
    ensures var r := ZogyPads(psf1, psf2, 512, 512);
      r.Some? && (r.value.0.rows, r.value.0.cols) == (512, 512) && (r.value.1.rows, r.value.1.cols) == (516, 516)
  {
  }

  /** On one axis the padded side is psf + 2 padSize - 1: the image side when the image side is
      even and the PSF side odd (the case the source assumes), one short when both have one
      parity, two short for an odd image and an even PSF. */
  lemma ZogySide(imSide: nat, psfSide: nat)
    requires ZogyPadSize(imSide, psfSide) >= 1
    ensures var s := psfSide + 2 * ZogyPadSize(imSide, psfSide) - 1;
      && (s == imSide <==> imSide % 2 == 0 && psfSide % 2 == 1)
      && (imSide % 2 == psfSide % 2 ==> s == imSide - 1)
      && (imSide % 2 == 1 && psfSide % 2 == 0 ==> s == imSide - 2)
  {
  }

  /** The PSF's central entry (psf.rows / 2, psf.cols / 2) lands at (imRows / 2 - 1,
      imCols / 2 - 1), one pixel before the image's central pixel on each axis. */
  lemma ZogyPadCentre(psf: Matrix, imRows: nat, imCols: nat)
    requires ZogyPad(psf, imRows, imCols).Some? && psf.rows > 0 && psf.cols > 0
    ensures var r := ZogyPad(psf, imRows, imCols).value;
      0 <= imRows / 2 - 1 < r.rows && 0 <= imCols / 2 - 1 < r.cols &&
      At(r, imRows / 2 - 1, imCols / 2 - 1) == At(psf, psf.rows / 2, psf.cols / 2)
  {
    var p0, p1 := ZogyPadSize(imRows, psf.rows), ZogyPadSize(imCols, psf.cols);
    var r := Pad(psf, p0 - 1, p0, p1 - 1, p1);
    assert imRows / 2 - 1 == p0 - 1 + psf.rows / 2;
    assert imCols / 2 - 1 == p1 - 1 + psf.cols / 2;
  }
}
