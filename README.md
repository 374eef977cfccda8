# Alard-Lupton and ZOGY bookkeeping in diffimTests.py

This project models the bookkeeping core of the image-differencing prototype `diffimTests.py`. It covers:

- **Basis-list layout.** The triangular enumeration of polynomial degree pairs (`get_valid_inds`). The Gaussian-weighted Chebyshev kernel basis built from it (`getALChebGaussBases`). The spatial-kernel and background lists of `makeSpatialBases`.
- **Design matrix and matching kernel.** The Alard-Lupton design matrix (`collectAllBases`): three blocks of columns in a fixed order, the index partition that records them, and each column divided by its standard deviation plus 0.1. The matching kernel rebuilt from fitted coefficients and normalised to sum 1 (`getMatchingKernelAL`).
- **Kernel parity fixes.** `fixOddKernel` pads odd sides with zeros on the top and left and rescales to keep the mean. `fixEvenKernel` rolls the first maximum to the centre and trims an even kernel to odd size.
- **Grids and padding.** The coordinate grids: the kernel and PSF grid `arange(-k + 1, k)` and the image grid of `getImageGrid`. The zero paddings of `computeCorrectedDiffimPsf` and of `doZOGY`.

## Representation

- Pixel values of basis images are not computed. A kernel basis image is described by the arguments of its `chebGauss2d` call (`KernelBasis.ChebGauss`): the width `sigma`, the `beta` that divides it (the Gaussian's width is sigma / beta), and the degree pair. Convolved images and kernel images are carried as opaque elements or as flattened columns of reals.
- The Chebyshev polynomial images, their values at the evaluation point and numpy's standard deviation are function parameters of the operations that use them.
- Two-dimensional arrays are values of type `Matrices.Matrix`, which records the shape and the rows. The parity fixes also exist as methods on `array2<real>` that follow the source's steps: a new array for each `np.pad` and `np.roll`, and an in-place `*=`. The basic slices `out[:-1, :]`, `out[1:, :]`, `out[:, :-1]` and `out[:, 1:]` (diffimTests.py:1115-1121) are views in numpy; the model copies them into new arrays. Nothing can be observed through the views, because every slice is taken of a fresh `np.roll` result, or of a view of one, that nothing else refers to and nothing writes afterwards. Each method is proved to compute the value-level specification.
- `np.argmax` is a row-major scan (`Matrices.Argmax`) proved to find the first maximum. Its specification `ArgmaxLoc` is a ghost function.
- The source's NaN results are `None`, or `ok == false` / `finite == false`. There are two such cases: a mean rescale of 0/0 in `fixOddKernel`, and `kfit /= kfit.sum()` with a zero sum. Their contents are then unspecified.
- One source exception is also `None`. It is `np.pad`'s ValueError on a negative width in `doZOGY` (`Padding.ZogyPadBy`, `Padding.ZogyPad`, `Padding.ZogyPads`), raised when a pad size is below 1. This happens, for example, when `makePsf` (diffimTests.py:283-284) is given a `psfSize` of 257 for a 512 x 512 image: the PSF's side is 2 x 257 - 1 = 513, and the pad size is 256 - 256 = 0 (`Padding.ZogyPadTooLargePsf`).
- Where the source would raise any other index or shape error, the member carries a `requires`. Examples are `inds[i]` with fewer degrees than widths, `basis[bi]` with fewer kernel images than convolved ones, and `np.vstack` of an empty list.

## Where the code differs from its comments and docstrings

- The comment in `makeSpatialBases` (diffimTests.py:361-362) says the spatial kernel list includes the constant term i = 0, and so contains `basis2` itself. The code at diffimTests.py:403 runs `range(1, len(spatialInds[0]))`, which skips the constant pair. `collectAllBases` puts `basis2` in its own block of columns. The model follows the code (`KernelBasis.SpatialKernelEntries`, `KernelBasis.SpatialKernelBases`).
- `doZOGY` in Fourier space (diffimTests.py:1410-1416) takes both pad sizes from the first image and the first PSF, and pads the second PSF with them too. The comment at diffimTests.py:1412 assumes an even image and an odd PSF. Under that assumption the second padded PSF has the image's shape only if the two PSFs have the same shape (`Padding.ZogyPads`). For example, a 512 x 512 image with a 21 x 21 first PSF and a 25 x 25 second PSF gives a 516 x 516 second array (`Padding.ZogyPadsMismatchedPsf`). The PSFs that `makeFakeImages` builds have one shape (diffimTests.py:276-279), but `doMeasurePsf` can replace either one (diffimTests.py:1166-1168).

- `fixEvenKernel` promises in its docstring (diffimTests.py:1103) to make the kernel's dimensions odd, centred correctly. The code (diffimTests.py:1111-1121) tests only the row count for evenness. Inside that test it always trims one row and one column, whatever the column parity. When the row count is odd it trims nothing, so an odd-by-even kernel keeps its even column count. The model follows the code (`KernelFix.FixEven`). An even-by-even kernel does end odd-by-odd.
- `fixOddKernel` rescales the padded kernel to the original kernel's mean (diffimTests.py:1099), not to its sum. Padding makes the array larger, so the sum grows by the ratio of the areas, 16/9 for a 3 x 3 kernel (`KernelFix.FixOddTotal`). Padding an odd kernel and trimming it back with `fixEvenKernel` therefore returns the kernel multiplied by that ratio, not the kernel itself (`KernelFix.FixOddThenEven`). The comment at that line asks for the same mean, so the model takes this as intended. In `computeCorrectedDiffimPsf` the factor is cancelled only for the PSF: the padded PSF's factor multiplies `psf_ft` (diffimTests.py:1066-1067, 1070), so the normalisation to sum 1 at diffimTests.py:1079 removes it. The matching kernel's factor is not cancelled. `fixOddKernel(kernel)` at diffimTests.py:1068 scales the kernel, and its transform enters `sqrt((svar + tvar) / (svar + tvar * kft**2))` at diffimTests.py:1069-1070, which is not linear in `kft`. For example, a 49 x 49 matching kernel grows to 50 x 50, and its zero-frequency value becomes 2500/2401 of its sum. The same factor reaches the transform of the matching kernel in `computeDecorrelationKernel` (diffimTests.py:1024-1031). Both transforms lie outside this model.

## Model

| member | source | states |
|---|---|---|
| Enumeration.ValidInds | diffimTests.py:337-339 | Lists TriangleCount(Nmax) = 1 + 2 + ... + (Nmax + 1) pairs with the constant pair (0, 0) first; a negative Nmax lists none |
| Enumeration.ValidIndsMembers | diffimTests.py:337-339 | A degree pair is listed exactly when p + q <= Nmax; a negative Nmax lists nothing |
| Enumeration.ValidIndsOrdered | diffimTests.py:337-339 | Pairs come in `np.where` order, row-major with p ascending and then q, strictly, so no pair repeats |
| Enumeration.ValidIndsCount | diffimTests.py:337-339 | There are (Nmax + 1)(Nmax + 2) / 2 pairs |
| Enumeration.PairIndex | diffimTests.py:337-339 | Gives the position at which every pair with p + q <= Nmax is listed |
| Enumeration.ValidIndsPositionUnique | diffimTests.py:383-385 | Every position holds a pair of degree at most Nmax, and that pair is listed at no other position |
| Enumeration.SmallEnumerations | diffimTests.py:383-385 | Order 2 lists (0,0),(0,1),(0,2),(1,0),(1,1),(2,0); order 0 lists only (0,0) |
| KernelBasis.Group | diffimTests.py:345-347 | One width's group has one image per valid degree pair, and holds exactly the images of that width and beta whose total degree is at most the group's degree |
| KernelBasis.Groups | diffimTests.py:345-347 | The first n groups together are as long as the sum of their sizes |
| KernelBasis.GroupsEntries | diffimTests.py:345-347 | Every image of the groups carries betaGauss and one of the given widths |
| KernelBasis.ALChebGaussBases | diffimTests.py:329-348 | With the defaults for absent lists, the basis is as long as the sum of the group sizes, and every image carries betaGauss and one of the given widths |
| KernelBasis.GroupsAt | diffimTests.py:345-347 | Entry GroupStart(i) + t has width sigGauss[i] and degree pair t of get_valid_inds(degGauss[i]): grouped by width in input order, enumeration order within a group |
| KernelBasis.GroupsLocate | diffimTests.py:345-347 | Every entry lies in exactly one width's group, at an offset below that group's size |
| KernelBasis.GroupsIgnoreExtraDegrees | diffimTests.py:341-347 | Degrees beyond the number of widths have no effect |
| KernelBasis.BasisCounts | diffimTests.py:329-347 | The default widths (0.75, 1.5, 3.0) with degrees (6, 4, 2) give 49 images; one width of degree 2 gives 6, of degree 0 gives 1; for every betaGauss |
| KernelBasis.SpatialKernelBases | diffimTests.py:401-403 | The spatial-kernel list is None exactly when the order is <= 0; otherwise it holds (count(order) - 1) entries per convolved basis |
| KernelBasis.SpatialKernelEntries | diffimTests.py:401-403 | Entry k pairs convolved basis k mod nb (with its kernel basis) with degree pair 1 + k / nb, whose total degree is between 1 and the order: the constant pair is skipped |
| KernelBasis.SpatialKernelCovers | diffimTests.py:401-403 | Every degree pair of total degree 1..order meets every convolved basis, at position (PairIndex - 1) * nb + bi |
| KernelBasis.BackgroundBases | diffimTests.py:407-415 | The background list is None exactly when the order is <= 0; otherwise it holds count(order) images, the constant term first |
| KernelBasis.BackgroundMembers | diffimTests.py:407-415 | The background list holds every pair of degree <= order and no other |
| KernelBasis.MakeSpatialBases | diffimTests.py:358-416 | Each returned list is None exactly when its order is <= 0; otherwise the spatial list has (count - 1) entries per convolved basis and the background list count entries |
| Design.CollectAllBases | diffimTests.py:420-448 | Columns come in the order constant kernel, spatial kernel products, background; the three index arrays are consecutive and tile all columns (absent lists give None); offset is 0; each scale is std + 0.1 >= 0.1 and each column is (raw - offset) / scale |
| Design.RawColumnsLayout | diffimTests.py:422-440 | Raw column j is basis2[j], or the pixelwise product b[0] * b[1] of spatial entry j - nb, or background image j - nb - ns, by which block j falls in |
| Design.RangesConcat | diffimTests.py:424-439 | Consecutive index blocks concatenate to the full range, with or without a middle block |
| Design.ColumnScales | diffimTests.py:446 | Every scale is std + 0.1 and never below 0.1, so no column is divided by zero |
| Design.Rescale | diffimTests.py:444-447 | Each column becomes (c - offset) / scale, and multiplying by the recorded scale and adding the offset undoes the rescaling exactly |
| Design.RawMatchingKernel | diffimTests.py:484-494 | `kfit1 + kfit2` has one entry per pixel of the kernel basis images, the shape it is reshaped to |
| Design.GetMatchingKernelAL | diffimTests.py:484-499 | The kernel is the coefficient-weighted sum of the rescaled constant and spatial kernel bases divided by its sum; it is absent exactly when that sum is 0 and otherwise sums to 1 |
| Design.NormalizeInPlace | diffimTests.py:498 | `kfit /= kfit.sum()` in place: succeeds exactly when the old sum is nonzero, and then every entry is the old entry divided by the old sum |
| Design.DividedIsScaled | diffimTests.py:498 | Dividing every entry by a nonzero sum is scaling by its inverse |
| Design.Normalized | diffimTests.py:497-498 | The normalised kernel exists exactly when the sum is nonzero; it is the input scaled by 1/sum and sums to 1 |
| Design.MatchingKernelIgnoresOtherColumns | diffimTests.py:486-492 | Coefficients and scales at indices other than the constant and spatial-kernel ones do not change the kernel |
| Design.BackgroundCoefficientsUnused | diffimTests.py:484-494 | With the partition collectAllBases records, changing the fitted background coefficients leaves the kernel unchanged |
| Design.DefaultDesignWidth | diffimTests.py:627-632 | With the default orders 2 and 2, the design matrix has nb constant, 5 nb spatial and 6 background columns; with the default basis that is 300 columns |
| Matrices.PadTop | diffimTests.py:1093 | A zero row on top: one more row, and every entry moves down by one |
| Matrices.PadLeft | diffimTests.py:1096 | A zero column on the left: one more column, and every entry moves right by one |
| Matrices.PadTopTotal | diffimTests.py:1093 | A zero row on top leaves the sum unchanged |
| Matrices.PadLeftTotal | diffimTests.py:1096 | A zero column on the left leaves the sum unchanged |
| Matrices.Scale | diffimTests.py:1099 | `out *= c` multiplies every entry by c and keeps the shape |
| Matrices.ScaleTotal | diffimTests.py:1099 | Scaling by c multiplies the sum by c |
| Matrices.RollRows | diffimTests.py:1109 | `np.roll(axis=0)`: the shape is kept and row i takes the old row (i - s) mod rows |
| Matrices.RollCols | diffimTests.py:1110 | `np.roll(axis=1)`: the shape is kept and column j takes the old column (j - s) mod cols |
| Matrices.RollRowsMoves | diffimTests.py:1109 | The entry at row i moves to row (i + s) mod rows |
| Matrices.RollColsMoves | diffimTests.py:1110 | The entry at column j moves to column (j + s) mod cols |
| Matrices.RollRowsInverse | diffimTests.py:1109 | Rolling back by -s restores the array, so the row roll is a permutation |
| Matrices.RollColsInverse | diffimTests.py:1110 | Rolling back by -s restores the array, so the column roll is a permutation |
| Matrices.DropLastRow | diffimTests.py:1115 | `out[:-1, :]` keeps the first rows - 1 rows in place |
| Matrices.DropFirstRow | diffimTests.py:1117 | `out[1:, :]` keeps the last rows - 1 rows, each shifted up by one |
| Matrices.DropLastCol | diffimTests.py:1119 | `out[:, :-1]` keeps the first cols - 1 columns in place |
| Matrices.DropFirstCol | diffimTests.py:1121 | `out[:, 1:]` keeps the last cols - 1 columns, each shifted left by one |
| Matrices.FirstMaxUpToSpec | diffimTests.py:1108 | The scan's candidate up to (i, j) is at least every entry up to there and exceeds every entry before it in row-major order |
| Matrices.ArgmaxLoc | diffimTests.py:1108 | `unravel_index(argmax)` is a position in the array holding a maximum, and every earlier entry in row-major order is smaller |
| Matrices.FirstMaxUnique | diffimTests.py:1108 | Only one position is the first maximum |
| Matrices.Argmax | diffimTests.py:1108 | The row-major scan of an array2 returns the first maximum, i.e. `np.unravel_index(np.argmax(a), a.shape)` |
| KernelFix.PadToEven | diffimTests.py:1090-1097 | Each odd side grows by one; the new top row and left column are zeros, and the kernel moves down and right by the padding |
| KernelFix.PadToEvenSteps | diffimTests.py:1090-1097 | The padded array equals the source's two steps: the conditional top pad, then the conditional left pad |
| KernelFix.PadToEvenTotal | diffimTests.py:1090-1097 | Padding keeps the sum |
| KernelFix.FixOddFinite | diffimTests.py:1098-1099 | The result is non-finite exactly when padding happened to a non-empty kernel whose sum is 0 |
| KernelFix.FixOdd | diffimTests.py:1082-1100 | Both result sides are even (odd sides grow by one), and an even kernel is returned unchanged |
| KernelFix.MeanRatio | diffimTests.py:1099 | With equal nonzero sums, mean(kernel) / mean(out) is the ratio of the areas |
| KernelFix.FixOddFactor | diffimTests.py:1098-1099 | When padding happened, the result is the padded kernel multiplied by the area ratio |
| KernelFix.FixOddLayout | diffimTests.py:1089-1099 | The added row and column are zero, and every kernel entry keeps its relative place, multiplied by the area ratio |
| KernelFix.FixOddKeepsMean | diffimTests.py:1099 | A finite non-empty result has the kernel's mean |
| KernelFix.FixOddTotal | diffimTests.py:1098-1099 | When padding happened, the sum is multiplied by the area ratio, which exceeds 1: the mean is kept, not the sum |
| KernelFix.FixOddKernel | diffimTests.py:1082-1100 | Returns the input array itself when both sides are even, and otherwise a fresh array; when finite its contents are FixOdd of the kernel; the kernel is never written |
| KernelFix.ScaleInPlace | diffimTests.py:1099 | `out *= c` in place: the new contents are the old contents scaled by c |
| KernelFix.PadOddSides | diffimTests.py:1090-1097 | The array ends as the zero-padded kernel; it is a fresh array exactly when a side was odd and the input otherwise |
| KernelFix.PadTopIfOdd | diffimTests.py:1092-1094 | An odd row count gives a fresh array with a zero row on top; otherwise the input is returned |
| KernelFix.PadLeftIfOdd | diffimTests.py:1095-1097 | An odd column count gives a fresh array with a zero column on the left; otherwise the input is returned |
| KernelFix.Roll2 | diffimTests.py:1109-1110 | Rolling rows by s0 and columns by s1 puts the old entry ((i - s0) mod rows, (j - s1) mod cols) at (i, j) |
| KernelFix.Roll2Steps | diffimTests.py:1109-1110 | The combined roll equals the source's row roll followed by its column roll |
| KernelFix.Centred | diffimTests.py:1108-1110 | The rolls by the shifts from the first maximum keep the shape |
| KernelFix.RollToCentre | diffimTests.py:1109-1110 | Rolling by rows/2 - l0 and cols/2 - l1 puts entry (l0, l1) at (rows/2, cols/2) |
| KernelFix.RollToUnique | diffimTests.py:1109-1110 | If (l0, l1) holds the only largest entry, then after the roll the centre is the first maximum |
| KernelFix.CentredPeak | diffimTests.py:1108-1110 | After the rolls the centre holds the peak value, no entry exceeds it, and the peak value is unchanged |
| KernelFix.RollToMoves | diffimTests.py:1109-1110 | Entry (i, j) lands at ((i + s0) mod rows, (j + s1) mod cols) |
| KernelFix.CentredIsPermutation | diffimTests.py:1108-1110 | Every kernel entry appears in the rolled kernel, moved by the two shifts taken from the first maximum |
| KernelFix.TrimRow | diffimTests.py:1114-1117 | The row trim removes exactly one row and keeps the columns |
| KernelFix.TrimCol | diffimTests.py:1118-1121 | The column trim removes exactly one column and keeps the rows |
| KernelFix.Trimmed | diffimTests.py:1112-1121 | Trimming by the rolled kernel's first maximum removes one row and one column |
| KernelFix.TrimKeeps | diffimTests.py:1114-1121 | The entry at the peak position survives both trims, at the index the dropped row and column leave it |
| KernelFix.FixEven | diffimTests.py:1102-1122 | An odd row count keeps the shape; an even row count loses one row and one column; an even-by-even kernel becomes odd-by-odd |
| KernelFix.FixEvenKeepsPeak | diffimTests.py:1102-1122 | The result still holds the peak value (given a column remains after trimming) |
| KernelFix.CentredUniquePeak | diffimTests.py:1107-1110 | With a single largest entry, the rolled kernel's first maximum is the centre and holds the peak |
| KernelFix.FixEvenCentresUniquePeak | diffimTests.py:1102-1122 | With a single largest entry, the result holds the peak at its own centre (rows/2, cols/2) |
| KernelFix.FixOddThenEven | diffimTests.py:1082-1122 | For an odd-by-odd kernel with a positive first maximum at its centre, fixEvenKernel after fixOddKernel gives back the kernel's shape and entries, each multiplied by the area ratio (> 1), so the sum grows by that ratio |
| KernelFix.PaddedRoundTrip | diffimTests.py:1102-1122 | Any kernel laid out as an odd kernel padded on top and left and scaled by c > 0 is trimmed back by fixEvenKernel to the odd kernel scaled by c |
| KernelFix.EvenPeakedAtCentre | diffimTests.py:1107-1121 | An even-by-even kernel whose first maximum is at the centre is not moved by the rolls and loses its first row and first column |
| KernelFix.CentredAtCentre | diffimTests.py:1108-1110 | A kernel whose first maximum is at the centre is rolled by zero and unchanged |
| KernelFix.FixEvenKernel | diffimTests.py:1102-1122 | The array method returns a fresh array holding FixEven of the kernel |
| KernelFix.CentreOnPeak | diffimTests.py:1108-1110 | Argmax and then the two rolls, each into a fresh array, give the centred kernel |
| KernelFix.TrimAroundPeak | diffimTests.py:1113-1121 | Argmax of the rolled array, then the row trim and the column trim, give the trimmed kernel |
| KernelFix.RollAxis0 | diffimTests.py:1109 | A fresh array holding the row roll |
| KernelFix.RollAxis1 | diffimTests.py:1110 | A fresh array holding the column roll |
| KernelFix.TrimRowAxis | diffimTests.py:1114-1117 | A fresh array holding the row trim chosen by the peak row |
| KernelFix.TrimColAxis | diffimTests.py:1118-1121 | A fresh array holding the column trim chosen by the peak column |
| Grids.Arange | diffimTests.py:619 | `np.arange(start, stop)`: stop - start points (none when stop <= start), point i being start + i |
| Grids.Meshgrid | diffimTests.py:621 | `np.meshgrid(x, y)`: two arrays of len(y) rows and len(x) columns, the first repeating x along each row and the second repeating y down each column; on one axis used twice (diffimTests.py:284-286) the two arrays are each other's transpose |
| Grids.KernelAxis | diffimTests.py:619 | The kernel axis has 2k - 1 points from -(k - 1) to k - 1, 0 at index k - 1, symmetric; empty for k < 1 |
| Grids.KernelGridCentre | diffimTests.py:619-621 | On the (2k - 1)-square kernel grid, x0 = j - (k - 1) and y0 = i - (k - 1), and both are 0 only at the centre |
| Grids.ImageAxis | diffimTests.py:609-610 | An image axis of n pixels has n - n mod 2 points, from -(n/2), 0 at index n/2, last point n/2 - 1 |
| Grids.ImageGrid | diffimTests.py:608-612 | The grid has cols - cols mod 2 rows of rows - rows mod 2 entries, which matches the image shape exactly when the image is square with an even side |
| Grids.OddImageGridShort | diffimTests.py:608-612 | A 5 x 5 image gives a 4 x 4 grid |
| Grids.CentredImageAxisLayout | diffimTests.py:608-610 | The corrected axis has n points with 0 at pixel n/2, and equals the source's axis for even n |
| Grids.CentredImageGridShape | diffimTests.py:608-612 | The corrected grid of an n x n image is n x n for every n, and equals the source's grid for even n |
| Padding.Pad | diffimTests.py:1061 | `np.pad` with zeros: the shape grows by the widths and the array sits at (top, left) with zeros around it |
| Padding.PadCrop | diffimTests.py:1059-1064 | Cropping the original window out of the padded array gives back the array |
| Padding.OneSidedPads | diffimTests.py:1093-1096 | fixOddKernel's pads are the one-sided instances ((1,0),(0,0)) and ((0,0),(1,0)) |
| Padding.PadAround | diffimTests.py:1061 | `np.pad(a, (d, d))` adds 2d rows and 2d columns and moves the array d down and d right |
| Padding.MatchSizes | diffimTests.py:1056-1064 | The larger of psf and kernel is unchanged; the row counts match exactly when their difference is even, and otherwise differ by one; square inputs stay square |
| Padding.PadAroundKeepsCentre | diffimTests.py:1061 | Padding d on every side keeps the centre entry at the centre |
| Padding.ZogySide | diffimTests.py:1410-1413 | On one axis the padded side equals the image side exactly when the image side is even and the PSF side odd; it is one short for equal parities and two short for an odd image with an even PSF |
| Padding.ZogyPadBy | diffimTests.py:1413-1416 | `np.pad` with widths (p - 1, p) on each axis exists exactly when both pad sizes are >= 1, grows each side by 2p - 1, and cropping the window at (p0 - 1, p1 - 1) returns the PSF |
| Padding.ZogyPad | diffimTests.py:1410-1414 | The first PSF padded with sizes from its own shape and its image's exists exactly when both pad sizes are >= 1, has the image shape exactly when both image sides are even and both PSF sides odd, and cropping returns the PSF |
| Padding.ZogyPads | diffimTests.py:1410-1416 | Both PSFs are padded with the first PSF's sizes: the pair exists iff the first padding does, the second grows by the same amounts and crops back to itself, and for an even image and an odd first PSF the second has the image shape exactly when the PSF shapes agree |
| Padding.ZogyPadTooLargePsf | diffimTests.py:1410-1414 | A 513 x 513 PSF for a 512 x 512 image gives pad sizes of 0, a negative `np.pad` width, so there is no padded PSF |
| Padding.ZogyPadsMismatchedPsf | diffimTests.py:1410-1416 | A 512 x 512 image, a 21 x 21 first PSF and a 25 x 25 second PSF give padded PSFs of 512 x 512 and 516 x 516 |
| Padding.ZogyPadCentre | diffimTests.py:1410-1416 | The PSF's centre entry lands at (imRows/2 - 1, imCols/2 - 1), one pixel before the image centre on each axis |

## Left out

- Pixel values are not computed: chebGauss2d, the Chebyshev evaluation chebval2d, Gaussians, and the convolutions of makeImageBases. Floating-point arithmetic is modelled as exact real arithmetic.
- The least-squares fits (doTheLinearFitOLD and doTheLinearFitAL), the Fourier transforms in computeCorrectedDiffimPsf and performZOGY, and the image statistics are not modelled. The standard deviation used by collectAllBases is a parameter that only needs to be non-negative.
- The `verbose` printing is not modelled.
- Design.CollectAllBases: the standard deviation is an uninterpreted non-negative function, so the contract fixes each scale as std + 0.1 of the right column but does not say what the standard deviation is.
- Design.CollectAllBases: needs at least one column per present list, all of one length (`ColumnsFit`), where the source would fail in `np.vstack` or in the pixelwise products. The grid shape that makes the products fit is the subject of the finding below.
- Design.GetMatchingKernelAL: requires a spatial list, because the source iterates it and fails on None. The values of the spatial polynomials at the evaluation point (`b[1][xcen, ycen]`) are a parameter.
- Design.NormalizeInPlace: when the sum is zero, the source fills the kernel with non-finite values; the model reports `ok == false` and leaves the contents unspecified.
- KernelFix.FixOddKernel: when the padded kernel sums to zero, the source's result is non-finite; the model reports `finite == false` and leaves the contents unspecified.
- KernelFix.FixEvenKeepsPeak: requires a column to remain after trimming. A single-column kernel with an even row count loses its only column in the source, and the result is empty.
- KernelFix.FixEvenCentresUniquePeak: only proved for a kernel with a single largest entry. With ties, the peak still survives (FixEvenKeepsPeak), but it need not sit at the centre after the trim.
- Matrices.ArgmaxLoc: is a ghost function defined as the first maximum. The executable scan Matrices.Argmax is proved to find it.
- Padding.MatchSizes: like the source, it compares row counts only. For non-square inputs the column counts are not made to match.
- computeCorrectedDiffimPsf's later steps are not modelled: the fixOddKernel calls on the padded arrays, the FFTs and the final normalisation. doZOGY's calls into performZOGY are not modelled either. Only the padding shapes are.
- The non-square image grid is not corrected. getImageGrid builds its grid with the image axes swapped, (cols, rows). The model states this (Grids.ImageGrid), but the corrected grid is stated for square images only, which is the case the source uses.

## Findings

| source | as written | input that shows it | evidently intended | confidence | as-written member | corrected member |
|---|---|---|---|---|---|---|
| diffimTests.py:608-612 | `getImageGrid` uses `arange(-floor(n/2), floor(n/2))`, which gives n - 1 coordinates for an odd side n | a 5 x 5 image gives a 4 x 4 grid, so `b[0]*b[1]` in collectAllBases (line 430) cannot multiply it with the 5 x 5 convolved images | one coordinate per pixel, centred on pixel n/2: `arange(-(n//2), n - n//2)` | not executed | Grids.OddImageGridShort | Grids.CentredImageGridShape |
