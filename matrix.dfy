/** Two-dimensional real arrays as values (shape plus rows of entries), the numpy operations the
    kernel parity fixes are built from, and the view `Elems` of a Dafny `array2` as such a value. */
module Matrices {
  import opened Basics

  /** A `rows` x `cols` array; the shape is kept even when one of its sides is zero. */
  datatype Mat = Mat(rows: nat, cols: nat, cells: seq<seq<real>>)

  predicate WellShaped(m: Mat)
  {
    |m.cells| == m.rows && forall i | 0 <= i < m.rows :: |m.cells[i]| == m.cols
  }

  type Matrix = m: Mat | WellShaped(m) witness Mat(0, 0, [])

  function At(m: Matrix, i: int, j: int): real
    requires 0 <= i < m.rows && 0 <= j < m.cols
  {
    m.cells[i][j]
  }

  /** Arrays of one shape with the same entries are the same array. */
  lemma Extensionality(a: Matrix, b: Matrix)
    requires a.rows == b.rows && a.cols == b.cols
    requires forall i, j | 0 <= i < a.rows && 0 <= j < a.cols :: At(a, i, j) == At(b, i, j)
    ensures a == b
  {
    forall i | 0 <= i < a.rows ensures a.cells[i] == b.cells[i] {
      assert forall j | 0 <= j < a.cols :: a.cells[i][j] == At(a, i, j);
    }
  }

  /** The contents of a Dafny two-dimensional array. */
  function Elems(a: array2<real>): (r: Matrix)
    reads a
    ensures r.rows == a.Length0 && r.cols == a.Length1
    ensures forall i, j | 0 <= i < a.Length0 && 0 <= j < a.Length1 :: At(r, i, j) == a[i, j]
  {
    Mat(a.Length0, a.Length1,
        seq(a.Length0, i requires 0 <= i < a.Length0 reads a =>
          seq(a.Length1, j requires 0 <= j < a.Length1 reads a => a[i, j])))
  }

  // ---- sums and means ----

  /** The sum of each row. */
  function RowSums(m: Matrix): (r: seq<real>)
    ensures |r| == m.rows && forall i | 0 <= i < m.rows :: r[i] == Sum(m.cells[i])
  {
    seq(m.rows, i requires 0 <= i < m.rows => Sum(m.cells[i]))
  }

  /** The sum of all entries (`np.sum`), row by row. */
  function Total(m: Matrix): real
  {
    Sum(RowSums(m))
  }

  /** `np.mean` of a non-empty array. */
  function Mean(m: Matrix): real
    requires m.rows > 0 && m.cols > 0
  {
    Total(m) / (m.rows * m.cols) as real
  }

  function Zeros(n: nat): (r: seq<real>)
    ensures |r| == n && forall k | 0 <= k < n :: r[k] == 0.0
  {
    seq(n, k => 0.0)
  }

  lemma {:induction false} SumZeros(n: nat)
    ensures Sum(Zeros(n)) == 0.0
  {
    if n > 0 {
      assert Zeros(n)[..n - 1] == Zeros(n - 1);
      SumZeros(n - 1);
    }
  }

  lemma SumPrepend(x: real, s: seq<real>)
    ensures Sum([x] + s) == x + Sum(s)
  {
    SumAppend([x], s);
    assert [x][..0] == [];
  }

  // ---- padding (np.pad with zeros) ----

  /** `np.pad(m, ((1, 0), (0, 0)))`: one zero row on top. */
  function PadTop(m: Matrix): (r: Matrix)
    ensures r.rows == m.rows + 1 && r.cols == m.cols
    ensures forall i, j | 0 <= i < r.rows && 0 <= j < r.cols ::
      At(r, i, j) == if i == 0 then 0.0 else At(m, i - 1, j)
  {
    Mat(m.rows + 1, m.cols, [Zeros(m.cols)] + m.cells)
  }

  /** `np.pad(m, ((0, 0), (1, 0)))`: one zero column on the left. */
  function PadLeft(m: Matrix): (r: Matrix)
    ensures r.rows == m.rows && r.cols == m.cols + 1
    ensures forall i, j | 0 <= i < r.rows && 0 <= j < r.cols ::
      At(r, i, j) == if j == 0 then 0.0 else At(m, i, j - 1)
  {
    Mat(m.rows, m.cols + 1, seq(m.rows, i requires 0 <= i < m.rows => [0.0] + m.cells[i]))
  }

  lemma PadTopTotal(m: Matrix)
    ensures Total(PadTop(m)) == Total(m)
  {
    var r := PadTop(m);
    var sums := RowSums(m);
    assert RowSums(r) == [Sum(Zeros(m.cols))] + sums;
    SumPrepend(Sum(Zeros(m.cols)), sums);
    SumZeros(m.cols);
  }

  lemma PadLeftTotal(m: Matrix)
    ensures Total(PadLeft(m)) == Total(m)
  {
    var r := PadLeft(m);
    forall i | 0 <= i < m.rows ensures Sum(r.cells[i]) == Sum(m.cells[i]) {
      SumPrepend(0.0, m.cells[i]);
    }
    assert RowSums(r) == RowSums(m);
  }

  // ---- scaling (`m *= c`) ----

  function Scale(m: Matrix, c: real): (r: Matrix)
    ensures r.rows == m.rows && r.cols == m.cols
    ensures forall i, j {:trigger At(r, i, j)} | 0 <= i < m.rows && 0 <= j < m.cols :: At(r, i, j) == c * At(m, i, j)
  {
    Mat(m.rows, m.cols, seq(m.rows, i requires 0 <= i < m.rows => Scaled(m.cells[i], c)))
  }

  lemma ScaleTotal(m: Matrix, c: real)
    ensures Total(Scale(m, c)) == c * Total(m)
  {
    var r := Scale(m, c);
    var sums := RowSums(m);
    forall i | 0 <= i < m.rows ensures RowSums(r)[i] == Scaled(sums, c)[i] {
      SumScaled(m.cells[i], c);
    }
    assert RowSums(r) == Scaled(sums, c);
    SumScaled(sums, c);
  }

  // ---- np.roll ----

  /** `np.roll(m, s, axis=0)`: row i moves to row (i + s) mod rows. */
  function RollRows(m: Matrix, s: int): (r: Matrix)
    requires m.rows > 0
    ensures r.rows == m.rows && r.cols == m.cols
    ensures forall i, j | 0 <= i < m.rows && 0 <= j < m.cols :: At(r, i, j) == At(m, (i - s) % m.rows, j)
  {
    Mat(m.rows, m.cols, seq(m.rows, i requires 0 <= i < m.rows => m.cells[(i - s) % m.rows]))
  }

  /** `np.roll(m, s, axis=1)`: column j moves to column (j + s) mod cols. */
  function RollCols(m: Matrix, s: int): (r: Matrix)
    requires m.cols > 0
    ensures r.rows == m.rows && r.cols == m.cols
    ensures forall i, j | 0 <= i < m.rows && 0 <= j < m.cols :: At(r, i, j) == At(m, i, (j - s) % m.cols)
  {
    Mat(m.rows, m.cols, seq(m.rows, i requires 0 <= i < m.rows =>
      seq(m.cols, j requires 0 <= j < m.cols => m.cells[i][(j - s) % m.cols])))
  }

  /** Where `np.roll` sends an entry: position i of an axis of length n goes to (i + s) mod n. */
  lemma RollRowsMoves(m: Matrix, s: int, i: nat, j: nat)
    requires i < m.rows && j < m.cols
    ensures At(RollRows(m, s), (i + s) % m.rows, j) == At(m, i, j)
  {
    ModShift(i, s, m.rows);
  }

  lemma RollColsMoves(m: Matrix, s: int, i: nat, j: nat)
    requires i < m.rows && j < m.cols
    ensures At(RollCols(m, s), i, (j + s) % m.cols) == At(m, i, j)
  {
    ModShift(j, s, m.cols);
  }

  lemma ModShift(i: int, s: int, n: nat)
    requires 0 <= i < n
    ensures ((i + s) % n - s) % n == i
  {
    var a := (i + s) % n;
    var q := (i + s) / n;
    assert i + s == q * n + a;
    ModUnique(a - s, -q, i, n);
  }

  /** Euclidean remainder is determined by any decomposition x == q * n + r with 0 <= r < n. */
  lemma ModUnique(x: int, q: int, r: int, n: nat)
    requires 0 <= r < n && x == q * n + r
    ensures x % n == r
  {
    var q', r' := x / n, x % n;
    assert x == q' * n + r';
    assert (q - q') * n == r' - r;
    if q > q' {
      MulAtLeast(q - q', n);
    } else if q < q' {
      MulAtLeast(q' - q, n);
    }
  }

  lemma MulAtLeast(k: int, n: nat)
    requires k >= 1
    ensures k * n >= n
  {
  }

  /** Rolling back by the same amount restores the array: each roll is a permutation. */
  lemma RollRowsInverse(m: Matrix, s: int)
    requires m.rows > 0
    ensures RollRows(RollRows(m, s), -s) == m
  {
    var r := RollRows(RollRows(m, s), -s);
    forall i, j | 0 <= i < m.rows && 0 <= j < m.cols ensures At(r, i, j) == At(m, i, j) {
      ModShift(i, s, m.rows);
    }
    Extensionality(r, m);
  }

  lemma RollColsInverse(m: Matrix, s: int)
    requires m.cols > 0
    ensures RollCols(RollCols(m, s), -s) == m
  {
    var r := RollCols(RollCols(m, s), -s);
    forall i, j | 0 <= i < m.rows && 0 <= j < m.cols ensures At(r, i, j) == At(m, i, j) {
      ModShift(j, s, m.cols);
    }
    Extensionality(r, m);
  }

  // ---- slicing ----

  /** `m[:-1, :]` */
  function DropLastRow(m: Matrix): (r: Matrix)
    requires m.rows > 0
    ensures r.rows == m.rows - 1 && r.cols == m.cols
    ensures forall i, j | 0 <= i < r.rows && 0 <= j < r.cols :: At(r, i, j) == At(m, i, j)
  {
    Mat(m.rows - 1, m.cols, m.cells[..m.rows - 1])
  }

  /** `m[1:, :]` */
  function DropFirstRow(m: Matrix): (r: Matrix)
    requires m.rows > 0
    ensures r.rows == m.rows - 1 && r.cols == m.cols
    ensures forall i, j | 0 <= i < r.rows && 0 <= j < r.cols :: At(r, i, j) == At(m, i + 1, j)
  {
    Mat(m.rows - 1, m.cols, m.cells[1..])
  }

  /** `m[:, :-1]` */
  function DropLastCol(m: Matrix): (r: Matrix)
    requires m.cols > 0
    ensures r.rows == m.rows && r.cols == m.cols - 1
    ensures forall i, j | 0 <= i < r.rows && 0 <= j < r.cols :: At(r, i, j) == At(m, i, j)
  {
    Mat(m.rows, m.cols - 1, seq(m.rows, i requires 0 <= i < m.rows => m.cells[i][..m.cols - 1]))
  }

  /** `m[:, 1:]` */
  function DropFirstCol(m: Matrix): (r: Matrix)
    requires m.cols > 0
    ensures r.rows == m.rows && r.cols == m.cols - 1
    ensures forall i, j | 0 <= i < r.rows && 0 <= j < r.cols :: At(r, i, j) == At(m, i, j + 1)
  {
    Mat(m.rows, m.cols - 1, seq(m.rows, i requires 0 <= i < m.rows => m.cells[i][1..]))
  }

  // ---- argmax ----

  /** Row-major order of positions, the order of `m.flatten()`. */
  predicate RowMajorBefore(i: int, j: int, i': int, j': int)
  {
    i < i' || (i == i' && j < j')
  }

  /** (i, j) holds a maximum and every earlier position in row-major order holds less. */
  predicate IsFirstMax(m: Matrix, i: int, j: int)
  {
    && 0 <= i < m.rows && 0 <= j < m.cols
    && (forall i', j' | 0 <= i' < m.rows && 0 <= j' < m.cols :: At(m, i', j') <= At(m, i, j))
    && (forall i', j' | 0 <= i' < m.rows && 0 <= j' < m.cols && RowMajorBefore(i', j', i, j) ::
          At(m, i', j') < At(m, i, j))
  }

  /** The first maximum of the flattened array up to row i, column j (row-major), found by
      scanning back from (i, j); its properties are `FirstMaxUpToSpec`. */
  function FirstMaxUpTo(m: Matrix, i: nat, j: nat): (p: (nat, nat))
    requires i < m.rows && j < m.cols
    ensures p.0 < m.rows && p.1 < m.cols && !RowMajorBefore(i, j, p.0, p.1)
    decreases i, j
  {
    if i == 0 && j == 0 then (0, 0)
    else
      var prev := if j > 0 then FirstMaxUpTo(m, i, j - 1) else FirstMaxUpTo(m, i - 1, m.cols - 1);
      if At(m, i, j) > At(m, prev.0, prev.1) then (i, j) else prev
  }

  /** Up to (i, j), no entry exceeds the one found, and every earlier entry is smaller. */
  lemma {:induction false} FirstMaxUpToSpec(m: Matrix, i: nat, j: nat)
    requires i < m.rows && j < m.cols
    ensures var p := FirstMaxUpTo(m, i, j);
      && (forall i', j' | 0 <= i' < m.rows && 0 <= j' < m.cols && !RowMajorBefore(i, j, i', j') ::
            At(m, i', j') <= At(m, p.0, p.1))
      && (forall i', j' | 0 <= i' < m.rows && 0 <= j' < m.cols && RowMajorBefore(i', j', p.0, p.1) ::
            At(m, i', j') < At(m, p.0, p.1))
    decreases i, j
  {
    if i > 0 || j > 0 {
      if j > 0 {
        FirstMaxUpToSpec(m, i, j - 1);
      } else {
        FirstMaxUpToSpec(m, i - 1, m.cols - 1);
      }
    }
  }

  /** The first maximum exists in every non-empty array. */
  lemma FirstMaxExists(m: Matrix)
    requires m.rows > 0 && m.cols > 0
    ensures exists i: nat, j: nat :: IsFirstMax(m, i, j)
  {
    var p := FirstMaxUpTo(m, m.rows - 1, m.cols - 1);
    FirstMaxUpToSpec(m, m.rows - 1, m.cols - 1);
    assert IsFirstMax(m, p.0, p.1);
  }

  /** `np.unravel_index(np.argmax(m), m.shape)`: the first maximum in row-major order. */
  ghost function ArgmaxLoc(m: Matrix): (p: (nat, nat))
    requires m.rows > 0 && m.cols > 0
    ensures p.0 < m.rows && p.1 < m.cols && IsFirstMax(m, p.0, p.1)
  {
    FirstMaxExists(m);
    var i: nat, j: nat :| IsFirstMax(m, i, j); (i, j)
  }

  /** There is only one first maximum, so any position with that property is the argmax. */
  lemma FirstMaxUnique(m: Matrix, i: int, j: int)
    requires m.rows > 0 && m.cols > 0 && IsFirstMax(m, i, j)
    ensures ArgmaxLoc(m) == (i, j)
  {
    var p := ArgmaxLoc(m);
    assert !RowMajorBefore(i, j, p.0, p.1);
    assert !RowMajorBefore(p.0, p.1, i, j);
  }

  /** `np.argmax` on a two-dimensional array: a row-major scan that keeps the first position
      holding the largest entry seen so far. */
  method Argmax(a: array2<real>) returns (i: nat, j: nat)
    requires a.Length0 > 0 && a.Length1 > 0
    ensures IsFirstMax(Elems(a), i, j)
    ensures (i, j) == ArgmaxLoc(Elems(a))
  {
    i, j := 0, 0;
    var r := 0;
    while r < a.Length0
      invariant 0 <= r <= a.Length0
      invariant i < a.Length0 && j < a.Length1 && (i < r || (i, j) == (0, 0))
      invariant forall i', j' | 0 <= i' < r && 0 <= j' < a.Length1 :: a[i', j'] <= a[i, j]
      invariant forall i', j' | 0 <= i' < a.Length0 && 0 <= j' < a.Length1 && RowMajorBefore(i', j', i, j) ::
        a[i', j'] < a[i, j]
    {
      var c := 0;
      while c < a.Length1
        invariant 0 <= c <= a.Length1
        invariant i < a.Length0 && j < a.Length1 && (RowMajorBefore(i, j, r, c) || (i, j) == (0, 0))
        invariant forall i', j' | 0 <= i' < a.Length0 && 0 <= j' < a.Length1 && RowMajorBefore(i', j', r, c) ::
          a[i', j'] <= a[i, j]
        invariant forall i', j' | 0 <= i' < a.Length0 && 0 <= j' < a.Length1 && RowMajorBefore(i', j', i, j) ::
          a[i', j'] < a[i, j]
      {
        if a[r, c] > a[i, j] {
          i, j := r, c;
        }
        c := c + 1;
      }
      r := r + 1;
    }
    FirstMaxUnique(Elems(a), i, j);
  }
}
