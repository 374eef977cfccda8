/** Coordinate grids: the kernel and PSF grids `np.arange(-k + 1, k)` with their `np.meshgrid`,
    and the image grid of `getImageGrid`, on which the spatial polynomials are evaluated. */
module Grids {

  /** `np.arange(start, stop)` with step 1: empty when stop <= start. */
  function Arange(start: int, stop: int): (r: seq<int>)
    ensures |r| == if stop > start then stop - start else 0
    ensures forall i | 0 <= i < |r| :: r[i] == start + i
  {
    seq(if stop > start then stop - start else 0, i requires 0 <= i => start + i)
  }

  /** Rows of equal length: a 2-d integer array. */
  type Grid = seq<seq<int>>

  /** `np.meshgrid(x, y)`: two arrays of |y| rows and |x| columns; the first repeats x along
      every row, the second repeats y along every column. On one axis used twice the two
      arrays are each other's transpose, so `y0, x0 = np.meshgrid(x, y)` with y a copy of x
      (makePsf) names the same pair of arrays as performAlardLupton's `x0, y0`, transposed. */
  function Meshgrid(x: seq<int>, y: seq<int>): (g: (Grid, Grid))
    ensures |g.0| == |y| && |g.1| == |y|
    ensures forall i | 0 <= i < |y| :: |g.0[i]| == |x| && |g.1[i]| == |x|
    ensures forall i, j | 0 <= i < |y| && 0 <= j < |x| :: g.0[i][j] == x[j] && g.1[i][j] == y[i]
    ensures x == y ==> forall i, j | 0 <= i < |x| && 0 <= j < |x| :: g.0[i][j] == g.1[j][i]
  {
    (seq(|y|, i requires 0 <= i < |y| => x),
     seq(|y|, i requires 0 <= i < |y| => seq(|x|, j requires 0 <= j < |x| => y[i])))
  }

  // ---- kernel and PSF grids ----

  /** `np.arange(-k + 1, k, 1)`, the axis of a kernel of half-size k. It has 2k - 1 points
      running from -(k - 1) to k - 1, with 0 at index k - 1, and is symmetric about it; a
      half-size below 1 gives no points. */
  function KernelAxis(k: int): (r: seq<int>)
    ensures k < 1 ==> r == []
    ensures k >= 1 ==> |r| == 2 * k - 1
    ensures k >= 1 ==> r[0] == -(k - 1) && r[2 * k - 2] == k - 1
    ensures k >= 1 ==> r[k - 1] == 0
    ensures k >= 1 ==> forall i | 0 <= i < 2 * k - 1 :: r[2 * k - 2 - i] == -r[i]
  {
    Arange(-k + 1, k)
  }

  /** `x0, y0 = np.meshgrid(x, x)` on the kernel axis (performAlardLupton): both arrays are
      (2k - 1) x (2k - 1), x0 varies along a row and y0 down a column, and the only position
      where both are 0 is the centre (k - 1, k - 1). */
  lemma KernelGridCentre(k: int, i: nat, j: nat)
    requires k >= 1 && i < 2 * k - 1 && j < 2 * k - 1
    ensures var g := Meshgrid(KernelAxis(k), KernelAxis(k));
      && |g.0| == 2 * k - 1 && |g.0[i]| == 2 * k - 1
      && g.0[i][j] == j - (k - 1) && g.1[i][j] == i - (k - 1)
      && (g.0[i][j] == 0 && g.1[i][j] == 0 <==> i == k - 1 && j == k - 1)
  {
  }

  // ---- getImageGrid ----

  /** The axis of `getImageGrid` for a side of n pixels: `np.arange(-floor(n / 2), floor(n / 2))`.
      The sizes are non-negative, so the floors are integer halves. The axis has n - n mod 2
      points, -(n / 2) first and 0 at index n / 2; for an even side that is one point per
      pixel, ending at n / 2 - 1. */
  function ImageAxis(n: nat): (r: seq<int>)
    ensures |r| == n - n % 2
    ensures n >= 2 ==> r[0] == -(n / 2) && r[n / 2] == 0
    ensures n >= 2 ==> r[|r| - 1] == n / 2 - 1
  {
    Arange(-(n / 2), n / 2)
  }

  /** `getImageGrid(im)` for an image of shape (rows, cols): the first axis comes from the row
      count, the second from the column count, and `np.meshgrid` puts the second along the rows.
      The grid therefore has cols - cols mod 2 rows of rows - rows mod 2 entries, the image's axes
      swapped and rounded down to even, so that shape is the image's (rows, cols) exactly when
      the image is square with an even side. */
  function ImageGrid(rows: nat, cols: nat): (g: (Grid, Grid))
    ensures |g.0| == |g.1| == cols - cols % 2
    ensures forall i | 0 <= i < |g.0| :: |g.0[i]| == |g.1[i]| == rows - rows % 2
    ensures (|g.0|, rows - rows % 2) == (rows, cols) <==> rows == cols && rows % 2 == 0
  {
    Meshgrid(ImageAxis(rows), ImageAxis(cols))
  }

  /** An odd image side of 5 gives a 4 x 4 grid, one pixel short of the image on each side, so
      the spatial polynomials evaluated on it cannot be multiplied pixel by pixel with the 5 x 5
      convolved basis images. */
  lemma OddImageGridShort()
    ensures |ImageGrid(5, 5).0| == 4 && |ImageGrid(5, 5).0[0]| == 4
  {
  }

  /** The evidently intended axis: one coordinate per pixel, the centre pixel n / 2 at 0,
      `np.arange(-(n // 2), n - n // 2)`. */
  function CentredImageAxis(n: nat): seq<int>
  {
    Arange(-(n / 2), n - n / 2)
  }

  /** The image grid on the intended axes. */
  function CentredImageGrid(rows: nat, cols: nat): (Grid, Grid)
  {
    Meshgrid(CentredImageAxis(rows), CentredImageAxis(cols))
  }

  /** The intended axis has n points with 0 at the centre pixel, and is the source's axis
      whenever n is even. */
  lemma CentredImageAxisLayout(n: nat)
    ensures |CentredImageAxis(n)| == n
    ensures n > 0 ==> CentredImageAxis(n)[n / 2] == 0
    ensures n % 2 == 0 ==> CentredImageAxis(n) == ImageAxis(n)
  {
    if n % 2 == 0 {
      assert n - n / 2 == n / 2;
    }
  }

  /** The intended grid has the shape of every square image, odd sides included, and equals the
      source's grid for even sides. */
  lemma CentredImageGridShape(n: nat)
    ensures var g := CentredImageGrid(n, n);
      |g.0| == n && forall i | 0 <= i < n :: |g.0[i]| == n && |g.1[i]| == n
    ensures n % 2 == 0 ==> CentredImageGrid(n, n) == ImageGrid(n, n)
  {
    CentredImageAxisLayout(n);
  }
}
