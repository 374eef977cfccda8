/** The kernel parity fixes: `fixOddKernel` pads odd sides to even for the Fourier transform and
    keeps the mean; `fixEvenKernel` rolls the peak to the centre and trims an even-sized kernel
    to odd size. Each is a value-level specification with its properties, and a method on
    `array2<real>` that does the source's steps and is proved to compute the specification. */
module KernelFix {
  import opened Basics
  import opened Matrices

  // ---- fixOddKernel ----

  predicate NeedsPadding(m: Matrix)
  {
    m.rows % 2 == 1 || m.cols % 2 == 1
  }

  /** The padding steps: a zero row on top if the row count is odd, then a zero column on the
      left if the column count is odd. The original entries move down and right by the padding. */
  function PadToEven(m: Matrix): (r: Matrix)
    ensures r.rows == m.rows + m.rows % 2 && r.cols == m.cols + m.cols % 2
    ensures forall i, j | 0 <= i < r.rows && 0 <= j < r.cols ::
      At(r, i, j) == if i < m.rows % 2 || j < m.cols % 2 then 0.0 else At(m, i - m.rows % 2, j - m.cols % 2)
  {
    var dr, dc := m.rows % 2, m.cols % 2;
    Mat(m.rows + dr, m.cols + dc, seq(m.rows + dr, i requires 0 <= i < m.rows + dr =>
      seq(m.cols + dc, j requires 0 <= j < m.cols + dc =>
        if i < dr || j < dc then 0.0 else m.cells[i - dr][j - dc])))
  }

  /** The same array built as the source builds it: a zero row on top if the row count is odd,
      then a zero column on the left if the column count is odd. */
  lemma PadToEvenSteps(m: Matrix)
    ensures var p := if m.rows % 2 == 1 then PadTop(m) else m;
      PadToEven(m) == if p.cols % 2 == 1 then PadLeft(p) else p
  {
    var p := if m.rows % 2 == 1 then PadTop(m) else m;
    var q := if p.cols % 2 == 1 then PadLeft(p) else p;
    Extensionality(PadToEven(m), q);
  }

  lemma PadToEvenTotal(m: Matrix)
    ensures Total(PadToEven(m)) == Total(m)
  {
    PadToEvenSteps(m);
    var p := if m.rows % 2 == 1 then PadTop(m) else m;
    if m.rows % 2 == 1 {
      PadTopTotal(m);
    }
    if p.cols % 2 == 1 {
      PadLeftTotal(p);
    }
  }

  /** `fixOddKernel` on values. When a side was padded, every entry is multiplied by
      `mean(kernel) / mean(out)`; that quotient is 0/0 when the kernel sums to zero, and the
      source's result is then non-finite, here `None`. An empty array stays empty. Both sides of
      the result are even: an odd side grows by one, an even side is kept, and an already-even
      kernel is returned as it is. */
  function FixOdd(m: Matrix): (r: Option<Matrix>)
    ensures r.Some? ==>
      && r.value.rows == m.rows + m.rows % 2 && r.value.cols == m.cols + m.cols % 2
      && r.value.rows % 2 == 0 && r.value.cols % 2 == 0
    ensures !NeedsPadding(m) ==> r == Some(m)
  {
    RoundUpEven(m.rows);
    RoundUpEven(m.cols);
    var out := PadToEven(m);
    if !NeedsPadding(m) then Some(m)
    else if m.rows == 0 || m.cols == 0 then Some(out)
    else if Mean(out) == 0.0 then None
    else Some(Scale(out, Mean(m) / Mean(out)))
  }

  lemma MeanNonzero(m: Matrix)
    requires m.rows > 0 && m.cols > 0
    ensures Mean(m) == 0.0 <==> Total(m) == 0.0
  {
    assert (m.rows * m.cols) as real > 0.0;
  }

  /** The result is finite exactly unless padding was needed for a non-empty kernel summing to 0. */
  lemma FixOddFinite(m: Matrix)
    ensures FixOdd(m).None? <==> NeedsPadding(m) && m.rows > 0 && m.cols > 0 && Total(m) == 0.0
  {
    if NeedsPadding(m) && m.rows > 0 && m.cols > 0 {
      PadToEvenTotal(m);
      MeanNonzero(PadToEven(m));
    }
  }

  lemma RoundUpEven(n: nat)
    ensures (n + n % 2) % 2 == 0
  {
    ModUnique(n + n % 2, n / 2 + n % 2, 0, 2);
  }

  lemma QuotientOfMeans(t: real, a: real, b: real)
    requires t != 0.0 && a > 0.0 && b > 0.0
    ensures (t / a) / (t / b) == b / a
  {
    assert (t / a) / (t / b) == (t / a) * (b / t);
  }

  lemma AreaPositive(m: Matrix)
    requires m.rows > 0 && m.cols > 0
    ensures (m.rows * m.cols) as real > 0.0
  {
    MulPositive(m.rows, m.cols);
  }

  lemma MulPositive(a: nat, b: nat)
    requires a > 0 && b > 0
    ensures a * b > 0
  {
  }

  /** For arrays with one nonzero sum, the quotient of the means is the inverse ratio of areas. */
  lemma MeanRatio(m: Matrix, out: Matrix)
    requires m.rows > 0 && m.cols > 0 && out.rows > 0 && out.cols > 0
    requires Total(m) == Total(out) && Total(m) != 0.0
    ensures Mean(out) != 0.0
    ensures Mean(m) / Mean(out) == (out.rows * out.cols) as real / (m.rows * m.cols) as real
  {
    AreaPositive(m);
    AreaPositive(out);
    var a, b := (m.rows * m.cols) as real, (out.rows * out.cols) as real;
    assert Mean(m) == Total(m) / a;
    assert Mean(out) == Total(m) / b;
    QuotientOfMeans(Total(m), a, b);
  }

  /** Scaling multiplies the mean by the factor. */
  lemma ScaleMean(m: Matrix, c: real)
    requires m.rows > 0 && m.cols > 0
    ensures Mean(Scale(m, c)) == c * Mean(m)
  {
    var r := Scale(m, c);
    ScaleTotal(m, c);
    var a := (m.rows * m.cols) as real;
    AreaPositive(m);
    ScaledQuotient(c, Total(m), Total(r), a);
  }

  lemma ScaledQuotient(c: real, t: real, tr: real, a: real)
    requires a != 0.0 && tr == c * t
    ensures tr / a == c * (t / a)
  {
  }

  /** How many times larger the padded array is than the kernel. */
  function AreaRatio(m: Matrix, r: Matrix): real
    requires m.rows > 0 && m.cols > 0
  {
    (r.rows * r.cols) as real / (m.rows * m.cols) as real
  }

  /** The added top row and left column are zero, and every original entry keeps its place
      relative to the others, multiplied by one factor: the ratio of the two areas. */
  lemma FixOddLayout(m: Matrix) returns (c: real)
    requires FixOdd(m).Some? && NeedsPadding(m) && m.rows > 0 && m.cols > 0
    ensures c == AreaRatio(m, FixOdd(m).value)
    ensures var r := FixOdd(m).value;
      forall i, j | 0 <= i < r.rows && 0 <= j < r.cols ::
        At(r, i, j) == if i < m.rows % 2 || j < m.cols % 2 then 0.0
                       else c * At(m, i - m.rows % 2, j - m.cols % 2)
  {
    var r := FixOdd(m).value;
    c := AreaRatio(m, r);
    FixOddFactor(m);
    ScaledPadLayout(m, PadToEven(m), r, c);
  }

  /** When padding was needed, the factor `mean(kernel) / mean(out)` is the ratio of the areas. */
  lemma FixOddFactor(m: Matrix)
    requires FixOdd(m).Some? && NeedsPadding(m) && m.rows > 0 && m.cols > 0
    ensures FixOdd(m) == Some(Scale(PadToEven(m), AreaRatio(m, PadToEven(m))))
  {
    var out := PadToEven(m);
    PadToEvenTotal(m);
    MeanNonzero(out);
    MeanRatio(m, out);
  }

  /** An array laid out as the padded kernel, scaled by c: zeros in the added row and column,
      c times the kernel elsewhere. Stated over any such array so that the padding's own
      definition stays folded. */
  lemma ScaledPadLayout(m: Matrix, out: Matrix, r: Matrix, c: real)
    requires out.rows == m.rows + m.rows % 2 && out.cols == m.cols + m.cols % 2
    requires forall i, j | 0 <= i < out.rows && 0 <= j < out.cols ::
      At(out, i, j) == if i < m.rows % 2 || j < m.cols % 2 then 0.0 else At(m, i - m.rows % 2, j - m.cols % 2)
    requires r == Scale(out, c)
    ensures forall i, j | 0 <= i < r.rows && 0 <= j < r.cols ::
      At(r, i, j) == if i < m.rows % 2 || j < m.cols % 2 then 0.0
                     else c * At(m, i - m.rows % 2, j - m.cols % 2)
  {
  }

  /** The mean of a finite, non-empty result equals the kernel's mean. */
  lemma FixOddKeepsMean(m: Matrix)
    requires FixOdd(m).Some? && m.rows > 0 && m.cols > 0
    ensures FixOdd(m).value.rows > 0 && FixOdd(m).value.cols > 0
    ensures Mean(FixOdd(m).value) == Mean(m)
  {
    if NeedsPadding(m) {
      var out := PadToEven(m);
      PadToEvenTotal(m);
      MeanNonzero(out);
      var c := Mean(m) / Mean(out);
      ScaleMean(out, c);
      DivideBack(Mean(m), Mean(out));
    }
  }

  /** The sum is not kept: when a side was padded, the result sums to the kernel's sum times
      the ratio of the areas, which is more than 1. */
  lemma FixOddTotal(m: Matrix) returns (c: real)
    requires FixOdd(m).Some? && NeedsPadding(m) && m.rows > 0 && m.cols > 0
    ensures c == AreaRatio(m, FixOdd(m).value) && c > 1.0
    ensures Total(FixOdd(m).value) == c * Total(m)
  {
    var out := PadToEven(m);
    c := AreaRatio(m, out);
    FixOddFactor(m);
    PadToEvenTotal(m);
    GrownTotal(m, out, FixOdd(m).value, c);
  }

  /** An array grown on at least one side, with the kernel's sum, scaled by the area ratio: the
      ratio exceeds 1 and multiplies the sum. */
  lemma GrownTotal(m: Matrix, out: Matrix, r: Matrix, c: real)
    requires 0 < m.rows <= out.rows && 0 < m.cols <= out.cols && (m.rows < out.rows || m.cols < out.cols)
    requires Total(out) == Total(m) && c == AreaRatio(m, out) && r == Scale(out, c)
    ensures c > 1.0 && Total(r) == c * Total(m)
  {
    ScaleTotal(out, c);
    AreaGrows(m.rows, m.cols, out.rows, out.cols);
  }

  /** Padding a non-empty kernel makes the area ratio exceed 1. */
  lemma AreaGrows(rows: nat, cols: nat, rows': nat, cols': nat)
    requires 0 < rows <= rows' && 0 < cols <= cols' && (rows < rows' || cols < cols')
    ensures (rows' * cols') as real / (rows * cols) as real > 1.0
  {
    MulPositive(rows, cols);
    if rows < rows' {
      MulBelowNat(rows, rows', cols);
      MulAtMostNat(cols, cols', rows');
    } else {
      MulBelowNat(cols, cols', rows');
    }
    DivAboveOne((rows * cols) as real, (rows' * cols') as real);
  }

  lemma MulBelowNat(a: nat, b: nat, k: nat)
    requires a < b && k > 0
    ensures a * k < b * k
  {
    MulAtLeast(b - a, k);
    assert b * k == a * k + (b - a) * k;
  }

  lemma MulAtMostNat(a: nat, b: nat, k: nat)
    requires a <= b
    ensures k * a <= k * b
  {
    assert k * b == k * a + k * (b - a);
  }

  lemma DivAboveOne(a: real, b: real)
    requires 0.0 < a < b
    ensures b / a > 1.0
  {
  }

  lemma DivideBack(x: real, y: real)
    requires y != 0.0
    ensures (x / y) * y == x
  {
  }

  /** `fixOddKernel(kernel)`: returns the kernel itself when both sides are even, otherwise a
      new padded and rescaled array; the kernel is never written. `finite` is false where the
      source's result would be non-finite, and the contents then are not specified. */
  method FixOddKernel(kernel: array2<real>) returns (out: array2<real>, finite: bool)
    ensures !NeedsPadding(Elems(kernel)) ==> out == kernel
    ensures NeedsPadding(Elems(kernel)) ==> fresh(out)
    ensures finite <==> FixOdd(Elems(kernel)).Some?
    ensures finite ==> Elems(out) == FixOdd(Elems(kernel)).value
  {
    ghost var k := Elems(kernel);
    var changed;
    out, changed := PadOddSides(kernel);
    finite := true;
    if changed && kernel.Length0 > 0 && kernel.Length1 > 0 {
      var meanOut := Mean(Elems(out));
      if meanOut == 0.0 {
        finite := false;
      } else {
        var factor := Mean(Elems(kernel)) / meanOut;
        ScaleInPlace(out, factor);
      }
    }
  }

  /** `a *= c`, in place. */
  method ScaleInPlace(a: array2<real>, c: real)
    modifies a
    ensures Elems(a) == Scale(old(Elems(a)), c)
  {
    ghost var before := Elems(a);
    MultiplyEntries(a, c);
    assert forall i, j | 0 <= i < a.Length0 && 0 <= j < a.Length1 :: At(Elems(a), i, j) == c * At(before, i, j);
    Extensionality(Elems(a), Scale(before, c));
  }

  method MultiplyEntries(a: array2<real>, c: real)
    modifies a
    ensures forall i, j | 0 <= i < a.Length0 && 0 <= j < a.Length1 :: a[i, j] == old(a[i, j]) * c
  {
    forall i, j | 0 <= i < a.Length0 && 0 <= j < a.Length1 {
      a[i, j] := a[i, j] * c;
    }
  }

  /** The padding steps of `fixOddKernel`, each replacing `out` by a new, larger array. */
  method PadOddSides(kernel: array2<real>) returns (out: array2<real>, changed: bool)
    ensures changed == NeedsPadding(Elems(kernel))
    ensures !changed ==> out == kernel
    ensures changed ==> fresh(out)
    ensures Elems(out) == PadToEven(Elems(kernel))
  {
    var rowsPadded, colsPadded;
    out, rowsPadded := PadTopIfOdd(kernel);
    out, colsPadded := PadLeftIfOdd(out);
    changed := rowsPadded || colsPadded;
    PadToEvenSteps(Elems(kernel));
  }

  /** `if out.shape[0] % 2 == 1: out = np.pad(out, ((1, 0), (0, 0)))`. */
  method PadTopIfOdd(a: array2<real>) returns (out: array2<real>, padded: bool)
    ensures padded == (a.Length0 % 2 == 1)
    ensures !padded ==> out == a
    ensures padded ==> fresh(out) && Elems(out) == PadTop(Elems(a))
  {
    out, padded := a, false;
    if a.Length0 % 2 == 1 {
      out := new real[a.Length0 + 1, a.Length1]((i: int, j: int)
        requires 0 <= i < a.Length0 + 1 && 0 <= j < a.Length1 reads a =>
          if i == 0 then 0.0 else a[i - 1, j]);
      padded := true;
      Extensionality(Elems(out), PadTop(Elems(a)));
    }
  }

  /** `if out.shape[1] % 2 == 1: out = np.pad(out, ((0, 0), (1, 0)))`. */
  method PadLeftIfOdd(a: array2<real>) returns (out: array2<real>, padded: bool)
    ensures padded == (a.Length1 % 2 == 1)
    ensures !padded ==> out == a
    ensures padded ==> fresh(out) && Elems(out) == PadLeft(Elems(a))
  {
    out, padded := a, false;
    if a.Length1 % 2 == 1 {
      out := new real[a.Length0, a.Length1 + 1]((i: int, j: int)
        requires 0 <= i < a.Length0 && 0 <= j < a.Length1 + 1 reads a =>
          if j == 0 then 0.0 else a[i, j - 1]);
      padded := true;
      Extensionality(Elems(out), PadLeft(Elems(a)));
    }
  }

  // ---- fixEvenKernel ----

  /** Both rolls of `fixEvenKernel` with given shifts: rows by s0, then columns by s1. */
  function Roll2(m: Matrix, s0: int, s1: int): (r: Matrix)
    requires m.rows > 0 && m.cols > 0
    ensures r.rows == m.rows && r.cols == m.cols
    ensures forall i, j | 0 <= i < m.rows && 0 <= j < m.cols ::
      At(r, i, j) == At(m, (i - s0) % m.rows, (j - s1) % m.cols)
  {
    Mat(m.rows, m.cols, seq(m.rows, i requires 0 <= i < m.rows =>
      seq(m.cols, j requires 0 <= j < m.cols => m.cells[(i - s0) % m.rows][(j - s1) % m.cols])))
  }

  /** The same array built as the source builds it: the row roll, then the column roll. */
  lemma Roll2Steps(m: Matrix, s0: int, s1: int)
    requires m.rows > 0 && m.cols > 0
    ensures Roll2(m, s0, s1) == RollCols(RollRows(m, s0), s1)
  {
    var r := RollRows(m, s0);
    assert forall i, j | 0 <= i < m.rows && 0 <= j < m.cols :: At(r, i, j) == At(m, (i - s0) % m.rows, j);
    Extensionality(Roll2(m, s0, s1), RollCols(r, s1));
  }

  /** The rolls that move position (l0, l1) to (rows / 2, cols / 2). */
  function RollTo(m: Matrix, l0: nat, l1: nat): (r: Matrix)
    requires m.rows > 0 && m.cols > 0
    ensures r.rows == m.rows && r.cols == m.cols
  {
    Roll2(m, m.rows / 2 - l0, m.cols / 2 - l1)
  }

  /** The two rolls of `fixEvenKernel`: the shifts that move the first maximum to
      (rows / 2, cols / 2). */
  ghost function Centred(m: Matrix): (r: Matrix)
    requires m.rows > 0 && m.cols > 0
    ensures r.rows == m.rows && r.cols == m.cols
  {
    RollTo(m, ArgmaxLoc(m).0, ArgmaxLoc(m).1)
  }

  /** `out[:-1, :]` when the peak row r0 is nearer the top, else `out[1:, :]`. */
  function TrimRow(c: Matrix, r0: nat): (r: Matrix)
    requires c.rows > 0
    ensures r.rows == c.rows - 1 && r.cols == c.cols
  {
    if c.rows - r0 > r0 then DropLastRow(c) else DropFirstRow(c)
  }

  /** `out[:, :-1]` when the peak column c0 is nearer the left, else `out[:, 1:]`. */
  function TrimCol(c: Matrix, c0: nat): (r: Matrix)
    requires c.cols > 0
    ensures r.rows == c.rows && r.cols == c.cols - 1
  {
    if c.cols - c0 > c0 then DropLastCol(c) else DropFirstCol(c)
  }

  /** The trim of an even-row kernel: one row and then one column, each taken from the end
      farther from the first maximum of the rolled kernel (located before either trim). */
  ghost function Trimmed(c: Matrix): (r: Matrix)
    requires c.rows > 0 && c.cols > 0
    ensures r.rows == c.rows - 1 && r.cols == c.cols - 1
  {
    var loc := ArgmaxLoc(c);
    TrimCol(TrimRow(c, loc.0), loc.1)
  }

  /** The entry at (r0, c0) survives the trims, at the position the dropped row and column
      leave it in (needs a row and a column to remain). */
  lemma TrimKeeps(c: Matrix, r0: nat, c0: nat)
    requires r0 < c.rows && c0 < c.cols && c.rows >= 2 && c.cols >= 2
    ensures var i := if c.rows - r0 > r0 then r0 else r0 - 1;
      var j := if c.cols - c0 > c0 then c0 else c0 - 1;
      && 0 <= i < c.rows - 1 && 0 <= j < c.cols - 1
      && At(TrimCol(TrimRow(c, r0), c0), i, j) == At(c, r0, c0)
  {
    var t := TrimRow(c, r0);
    var i := if c.rows - r0 > r0 then r0 else r0 - 1;
    assert At(t, i, c0) == At(c, r0, c0);
  }

  /** `fixEvenKernel` on values: the column trim happens only inside the row-parity test. With an
      odd row count nothing is trimmed; with an even one a row and a column go, whatever the
      column parity. An even-by-even kernel therefore becomes odd-by-odd. */
  ghost function FixEven(m: Matrix): (r: Matrix)
    requires m.rows > 0 && m.cols > 0
    ensures m.rows % 2 == 1 ==> r.rows == m.rows && r.cols == m.cols
    ensures m.rows % 2 == 0 ==> r.rows == m.rows - 1 && r.cols == m.cols - 1
    ensures m.rows % 2 == 0 && m.cols % 2 == 0 ==> r.rows % 2 == 1 && r.cols % 2 == 1
  {
    EvenPredecessor(m.rows);
    EvenPredecessor(m.cols);
    var c := Centred(m);
    if c.rows % 2 == 0 then Trimmed(c) else c
  }

  /** The largest entry, found at the first maximum. */
  ghost function Peak(m: Matrix): real
    requires m.rows > 0 && m.cols > 0
  {
    At(m, ArgmaxLoc(m).0, ArgmaxLoc(m).1)
  }

  /** The position a roll by s fills from position l is the one l moves to: with l + s == n / 2,
      rolling back from n / 2 reads l. */
  lemma RollSource(l: nat, s: int, n: nat)
    requires l < n && l + s == n / 2
    ensures (n / 2 - s) % n == l
  {
    ModUnique(n / 2 - s, 0, l, n);
  }

  /** ... and rolling back from any other position reads something other than l. */
  lemma RollSourceOther(l: nat, s: int, n: nat, i: int)
    requires l < n && l + s == n / 2 && 0 <= i < n && i != n / 2
    ensures (i - s) % n != l
  {
    if (i - s) % n == l {
      ModShift(i, -s, n);
      assert ((i - s) % n + s) % n == i;
      assert (n / 2) % n == i;
      HalfIsIndex(n);
      assert false;
    }
  }

  /** Rolling (l0, l1) to the centre puts its entry there. */
  lemma RollToCentre(m: Matrix, l0: nat, l1: nat)
    requires m.rows > 0 && m.cols > 0 && l0 < m.rows && l1 < m.cols
    ensures 0 <= m.rows / 2 < m.rows && 0 <= m.cols / 2 < m.cols
    ensures At(RollTo(m, l0, l1), m.rows / 2, m.cols / 2) == At(m, l0, l1)
  {
    HalfIsIndex(m.rows);
    HalfIsIndex(m.cols);
    RollSource(l0, m.rows / 2 - l0, m.rows);
    RollSource(l1, m.cols / 2 - l1, m.cols);
  }

  /** If (l0, l1) holds the only largest entry, after the roll the centre does, and it is
      the first maximum of the rolled array. */
  lemma RollToUnique(m: Matrix, l0: nat, l1: nat)
    requires m.rows > 0 && m.cols > 0 && l0 < m.rows && l1 < m.cols
    requires forall i, j | 0 <= i < m.rows && 0 <= j < m.cols && (i, j) != (l0, l1) :: At(m, i, j) < At(m, l0, l1)
    ensures IsFirstMax(RollTo(m, l0, l1), m.rows / 2, m.cols / 2)
  {
    var c := RollTo(m, l0, l1);
    var s0, s1 := m.rows / 2 - l0, m.cols / 2 - l1;
    RollToCentre(m, l0, l1);
    forall i, j | 0 <= i < m.rows && 0 <= j < m.cols && (i, j) != (m.rows / 2, m.cols / 2)
      ensures At(c, i, j) < At(c, m.rows / 2, m.cols / 2)
    {
      if i != m.rows / 2 {
        RollSourceOther(l0, s0, m.rows, i);
      } else {
        RollSourceOther(l1, s1, m.cols, j);
      }
    }
  }

  /** The rolls put the maximum value at (rows / 2, cols / 2), and every entry of the rolled kernel
      is at most that value. */
  lemma CentredPeak(m: Matrix)
    requires m.rows > 0 && m.cols > 0
    ensures At(Centred(m), m.rows / 2, m.cols / 2) == Peak(m)
    ensures forall i, j | 0 <= i < m.rows && 0 <= j < m.cols :: At(Centred(m), i, j) <= Peak(m)
    ensures Peak(Centred(m)) == Peak(m)
  {
    var loc := ArgmaxLoc(m);
    var c := Centred(m);
    RollToCentre(m, loc.0, loc.1);
    var cl := ArgmaxLoc(c);
    assert At(c, cl.0, cl.1) >= At(c, m.rows / 2, m.cols / 2);
  }

  /** The rolls only move entries: entry (i, j) of the kernel lands at ((i + s0) mod rows,
      (j + s1) mod cols), which with the postcondition of `Roll2` makes the rolls a permutation. */
  lemma RollToMoves(m: Matrix, l0: nat, l1: nat, i: nat, j: nat)
    requires m.rows > 0 && m.cols > 0 && i < m.rows && j < m.cols
    ensures var s0, s1 := m.rows / 2 - l0, m.cols / 2 - l1;
      At(RollTo(m, l0, l1), (i + s0) % m.rows, (j + s1) % m.cols) == At(m, i, j)
  {
    RolledMoves(m, Roll2(m, m.rows / 2 - l0, m.cols / 2 - l1), m.rows / 2 - l0, m.cols / 2 - l1, i, j);
  }

  /** Any array laid out as the kernel rolled by (s0, s1) holds entry (i, j) at
      ((i + s0) mod rows, (j + s1) mod cols). */
  lemma RolledMoves(m: Matrix, r: Matrix, s0: int, s1: int, i: nat, j: nat)
    requires m.rows > 0 && m.cols > 0 && i < m.rows && j < m.cols
    requires r.rows == m.rows && r.cols == m.cols
    requires forall i, j | 0 <= i < m.rows && 0 <= j < m.cols ::
      At(r, i, j) == At(m, (i - s0) % m.rows, (j - s1) % m.cols)
    ensures At(r, (i + s0) % m.rows, (j + s1) % m.cols) == At(m, i, j)
  {
    var a, b := (i + s0) % m.rows, (j + s1) % m.cols;
    ModShift(i, s0, m.rows);
    ModShift(j, s1, m.cols);
    assert (a - s0) % m.rows == i && (b - s1) % m.cols == j;
    assert At(r, a, b) == At(m, (a - s0) % m.rows, (b - s1) % m.cols);
  }

  /** Every entry of the kernel appears in the rolled kernel, moved by the two shifts. */
  lemma CentredIsPermutation(m: Matrix, i: nat, j: nat)
    requires m.rows > 0 && m.cols > 0 && i < m.rows && j < m.cols
    ensures var s0, s1 := m.rows / 2 - ArgmaxLoc(m).0, m.cols / 2 - ArgmaxLoc(m).1;
      At(Centred(m), (i + s0) % m.rows, (j + s1) % m.cols) == At(m, i, j)
  {
    RollToMoves(m, ArgmaxLoc(m).0, ArgmaxLoc(m).1, i, j);
  }

  lemma EvenPredecessor(n: nat)
    requires n > 0
    ensures n % 2 == 0 ==> (n - 1) % 2 == 1
  {
    if n % 2 == 0 {
      ModUnique(n - 1, n / 2 - 1, 1, 2);
    }
  }

  /** Half an axis length is a valid index on that axis. */
  lemma HalfIsIndex(n: nat)
    requires n > 0
    ensures 0 <= n / 2 < n && (n / 2) % n == n / 2
  {
    ModUnique(n / 2, 0, n / 2, n);
  }

  /** Trimming an even-row kernel keeps an entry equal to the peak, provided there are at
      least two columns (with one column the trim leaves none). */
  lemma FixEvenKeepsPeak(m: Matrix)
    requires m.rows > 0 && m.cols > 0
    requires m.rows % 2 == 1 || m.cols >= 2
    ensures exists i, j | 0 <= i < FixEven(m).rows && 0 <= j < FixEven(m).cols :: At(FixEven(m), i, j) == Peak(m)
  {
    CentredPeak(m);
    var c := Centred(m);
    var r := FixEven(m);
    var i: nat, j: nat;
    if m.rows % 2 == 1 {
      HalfIsIndex(m.rows);
      HalfIsIndex(m.cols);
      i, j := m.rows / 2, m.cols / 2;
    } else {
      var loc := ArgmaxLoc(c);
      TrimKeeps(c, loc.0, loc.1);
      i := if c.rows - loc.0 > loc.0 then loc.0 else loc.0 - 1;
      j := if c.cols - loc.1 > loc.1 then loc.1 else loc.1 - 1;
      assert r == TrimCol(TrimRow(c, loc.0), loc.1);
    }
    assert 0 <= i < r.rows && 0 <= j < r.cols && At(r, i, j) == Peak(m);
  }

  /** With a single largest entry, the rolled kernel's first maximum is its centre. */
  lemma CentredUniquePeak(m: Matrix)
    requires m.rows > 0 && m.cols > 0
    requires forall i, j | 0 <= i < m.rows && 0 <= j < m.cols && (i, j) != ArgmaxLoc(m) :: At(m, i, j) < Peak(m)
    ensures ArgmaxLoc(Centred(m)) == (m.rows / 2, m.cols / 2)
    ensures At(Centred(m), m.rows / 2, m.cols / 2) == Peak(m)
  {
    var loc := ArgmaxLoc(m);
    RollToUnique(m, loc.0, loc.1);
    RollToCentre(m, loc.0, loc.1);
    FirstMaxUnique(Centred(m), m.rows / 2, m.cols / 2);
  }

  /** A kernel with a single largest entry ends with that entry at the centre
      (outRows / 2, outCols / 2), again provided the trim leaves a column. */
  lemma FixEvenCentresUniquePeak(m: Matrix)
    requires m.rows > 0 && m.cols > 0
    requires m.rows % 2 == 1 || m.cols >= 2
    requires forall i, j | 0 <= i < m.rows && 0 <= j < m.cols && (i, j) != ArgmaxLoc(m) :: At(m, i, j) < Peak(m)
    ensures FixEven(m).rows > 0 && FixEven(m).cols > 0
    ensures At(FixEven(m), FixEven(m).rows / 2, FixEven(m).cols / 2) == Peak(m)
  {
    CentredUniquePeak(m);
    var c := Centred(m);
    if m.rows % 2 == 0 {
      TrimKeeps(c, m.rows / 2, m.cols / 2);
      HalfAfterTrim(m.rows);
      HalfAfterTrim(m.cols);
      assert FixEven(m) == TrimCol(TrimRow(c, m.rows / 2), m.cols / 2);
    }
  }

  /** Trimming the end farther from the centre index n / 2 moves it to the new centre. */
  lemma HalfAfterTrim(n: nat)
    requires n >= 2
    ensures (if n - n / 2 > n / 2 then n / 2 else n / 2 - 1) == (n - 1) / 2
  {
  }

  // ---- the two fixes in sequence ----

  /** An odd-by-odd kernel whose first maximum is positive and at its centre, padded to even
      size by `fixOddKernel` and trimmed back by `fixEvenKernel`, comes back in place and with
      its shape, but multiplied by the ratio of the areas: the mean is kept, the sum is not. */
  lemma FixOddThenEven(m: Matrix) returns (c: real)
    requires m.rows % 2 == 1 && m.cols % 2 == 1 && Total(m) != 0.0
    requires IsFirstMax(m, m.rows / 2, m.cols / 2) && At(m, m.rows / 2, m.cols / 2) > 0.0
    ensures FixOdd(m).Some? && FixOdd(m).value.rows > 0 && FixOdd(m).value.cols > 0
    ensures c == AreaRatio(m, FixOdd(m).value) && c > 1.0
    ensures FixEven(FixOdd(m).value) == Scale(m, c)
    ensures Total(FixEven(FixOdd(m).value)) == c * Total(m)
  {
    FixOddFinite(m);
    c := FixOddLayout(m);
    var c' := FixOddTotal(m);
    PaddedRoundTrip(m, FixOdd(m).value, c);
    ScaleTotal(m, c);
  }

  /** Any array laid out as the kernel padded and scaled by c > 0 is trimmed back to the
      scaled kernel. */
  lemma PaddedRoundTrip(m: Matrix, r: Matrix, c: real)
    requires m.rows % 2 == 1 && m.cols % 2 == 1 && c > 0.0
    requires r.rows == m.rows + m.rows % 2 && r.cols == m.cols + m.cols % 2
    requires forall i, j | 0 <= i < r.rows && 0 <= j < r.cols ::
      At(r, i, j) == if i < m.rows % 2 || j < m.cols % 2 then 0.0
                     else c * At(m, i - m.rows % 2, j - m.cols % 2)
    requires IsFirstMax(m, m.rows / 2, m.cols / 2) && At(m, m.rows / 2, m.cols / 2) > 0.0
    ensures r.rows > 0 && r.cols > 0 && FixEven(r) == Scale(m, c)
  {
    PaddedFirstMax(m, r, c);
    PaddedTrimmedBack(m, r, c);
  }

  /** In the padded and scaled kernel the first maximum is the kernel's, moved by the padding,
      and that is the centre of the even-sized array. */
  lemma PaddedFirstMax(m: Matrix, r: Matrix, c: real)
    requires m.rows % 2 == 1 && m.cols % 2 == 1 && c > 0.0
    requires r.rows == m.rows + m.rows % 2 && r.cols == m.cols + m.cols % 2
    requires forall i, j | 0 <= i < r.rows && 0 <= j < r.cols ::
      At(r, i, j) == if i < m.rows % 2 || j < m.cols % 2 then 0.0
                     else c * At(m, i - m.rows % 2, j - m.cols % 2)
    requires IsFirstMax(m, m.rows / 2, m.cols / 2) && At(m, m.rows / 2, m.cols / 2) > 0.0
    ensures IsFirstMax(r, r.rows / 2, r.cols / 2)
  {
    var i0, j0 := m.rows / 2, m.cols / 2;
    var peak := At(m, i0, j0);
    assert r.rows / 2 == i0 + 1 && r.cols / 2 == j0 + 1;
    assert At(r, i0 + 1, j0 + 1) == c * peak;
    MulPositiveReal(c, peak);
    forall i, j | 0 <= i < r.rows && 0 <= j < r.cols ensures At(r, i, j) <= c * peak {
      if i >= 1 && j >= 1 {
        MulAtMost(c, At(m, i - 1, j - 1), peak);
      }
    }
    forall i, j | 0 <= i < r.rows && 0 <= j < r.cols && RowMajorBefore(i, j, i0 + 1, j0 + 1)
      ensures At(r, i, j) < c * peak
    {
      if i >= 1 && j >= 1 {
        assert RowMajorBefore(i - 1, j - 1, i0, j0);
        MulBelow(c, At(m, i - 1, j - 1), peak);
      }
    }
  }

  /** With the first maximum already at the centre the rolls move nothing, and the trims of an
      even-sized array drop the first row and the first column: the padding comes off again. */
  lemma PaddedTrimmedBack(m: Matrix, r: Matrix, c: real)
    requires m.rows % 2 == 1 && m.cols % 2 == 1
    requires r.rows == m.rows + m.rows % 2 && r.cols == m.cols + m.cols % 2
    requires forall i, j | 0 <= i < r.rows && 0 <= j < r.cols ::
      At(r, i, j) == if i < m.rows % 2 || j < m.cols % 2 then 0.0
                     else c * At(m, i - m.rows % 2, j - m.cols % 2)
    requires IsFirstMax(r, r.rows / 2, r.cols / 2)
    ensures FixEven(r) == Scale(m, c)
  {
    RoundUpEven(m.rows);
    RoundUpEven(m.cols);
    EvenPeakedAtCentre(r);
    DropPadding(m, r, c);
  }

  /** An even-by-even kernel whose first maximum is already at the centre is not rolled, and
      loses its first row and its first column. */
  lemma EvenPeakedAtCentre(r: Matrix)
    requires r.rows > 0 && r.cols > 0 && r.rows % 2 == 0 && r.cols % 2 == 0
    requires IsFirstMax(r, r.rows / 2, r.cols / 2)
    ensures FixEven(r) == DropFirstCol(DropFirstRow(r))
  {
    FirstMaxUnique(r, r.rows / 2, r.cols / 2);
    CentredAtCentre(r);
    assert FixEven(r) == Trimmed(r);
    TrimmedAtCentre(r);
  }

  /** Dropping the first row and column of the padded and scaled kernel leaves the scaled kernel. */
  lemma DropPadding(m: Matrix, r: Matrix, c: real)
    requires m.rows % 2 == 1 && m.cols % 2 == 1
    requires r.rows == m.rows + m.rows % 2 && r.cols == m.cols + m.cols % 2
    requires forall i, j | 0 <= i < r.rows && 0 <= j < r.cols ::
      At(r, i, j) == if i < m.rows % 2 || j < m.cols % 2 then 0.0
                     else c * At(m, i - m.rows % 2, j - m.cols % 2)
    ensures DropFirstCol(DropFirstRow(r)) == Scale(m, c)
  {
    var d := DropFirstRow(r);
    var t := DropFirstCol(d);
    var s := Scale(m, c);
    forall i, j | 0 <= i < m.rows && 0 <= j < m.cols ensures At(t, i, j) == At(s, i, j) {
      assert At(t, i, j) == At(r, i + 1, j + 1);
    }
    Extensionality(t, s);
  }

  /** A kernel whose first maximum is already at the centre is not moved by the rolls. */
  lemma CentredAtCentre(r: Matrix)
    requires r.rows > 0 && r.cols > 0 && ArgmaxLoc(r) == (r.rows / 2, r.cols / 2)
    ensures Centred(r) == r
  {
    assert Centred(r) == Roll2(r, 0, 0);
    Roll2Zero(r);
  }

  /** An even-sized kernel with its first maximum at the centre loses its first row and its
      first column. */
  lemma TrimmedAtCentre(r: Matrix)
    requires r.rows > 0 && r.cols > 0 && r.rows % 2 == 0 && r.cols % 2 == 0
    requires ArgmaxLoc(r) == (r.rows / 2, r.cols / 2)
    ensures Trimmed(r) == DropFirstCol(DropFirstRow(r))
  {
    assert r.rows - r.rows / 2 == r.rows / 2 && r.cols - r.cols / 2 == r.cols / 2;
  }

  /** Rolling by nothing changes nothing. */
  lemma Roll2Zero(m: Matrix)
    requires m.rows > 0 && m.cols > 0
    ensures Roll2(m, 0, 0) == m
  {
    forall i, j | 0 <= i < m.rows && 0 <= j < m.cols ensures At(Roll2(m, 0, 0), i, j) == At(m, i, j) {
      ModUnique(i, 0, i, m.rows);
      ModUnique(j, 0, j, m.cols);
    }
    Extensionality(Roll2(m, 0, 0), m);
  }

  lemma MulPositiveReal(c: real, x: real)
    requires c > 0.0 && x > 0.0
    ensures c * x > 0.0
  {
  }

  lemma MulAtMost(c: real, x: real, y: real)
    requires c > 0.0 && x <= y
    ensures c * x <= c * y
  {
  }

  lemma MulBelow(c: real, x: real, y: real)
    requires c > 0.0 && x < y
    ensures c * x < c * y
  {
  }

  /** `fixEvenKernel(kernel)`: two rolls, each into a new array, then, if the row count is even,
      a row trim and a column trim, each into a new array. */
  method FixEvenKernel(kernel: array2<real>) returns (out: array2<real>)
    requires kernel.Length0 > 0 && kernel.Length1 > 0
    ensures fresh(out) && Elems(out) == FixEven(Elems(kernel))
  {
    out := CentreOnPeak(kernel);
    if out.Length0 % 2 == 0 {
      out := TrimAroundPeak(out);
    }
  }

  /** The two rolls, with the shifts taken from the first maximum. */
  method CentreOnPeak(kernel: array2<real>) returns (out: array2<real>)
    requires kernel.Length0 > 0 && kernel.Length1 > 0
    ensures fresh(out) && Elems(out) == Centred(Elems(kernel))
  {
    ghost var k := Elems(kernel);
    var r0, c0 := Argmax(kernel);
    out := RollAxis0(kernel, kernel.Length0 / 2 - r0);
    ghost var rolled := Elems(out);
    out := RollAxis1(out, out.Length1 / 2 - c0);
    Roll2Steps(k, k.rows / 2 - r0, k.cols / 2 - c0);
  }

  /** The row trim and then the column trim, by the first maximum located before both. */
  method TrimAroundPeak(a: array2<real>) returns (out: array2<real>)
    requires a.Length0 > 0 && a.Length1 > 0
    ensures fresh(out) && Elems(out) == Trimmed(Elems(a))
  {
    ghost var c := Elems(a);
    var r0, c0 := Argmax(a);
    out := TrimRowAxis(a, r0);
    ghost var t := Elems(out);
    out := TrimColAxis(out, c0);
    assert Elems(out) == TrimCol(t, c0);
  }

  /** `np.roll(a, s, axis=0)` into a new array. */
  method RollAxis0(a: array2<real>, s: int) returns (r: array2<real>)
    requires a.Length0 > 0
    ensures fresh(r) && Elems(r) == RollRows(Elems(a), s)
  {
    r := new real[a.Length0, a.Length1]((i: int, j: int)
      requires 0 <= i < a.Length0 && 0 <= j < a.Length1 reads a => a[(i - s) % a.Length0, j]);
    Extensionality(Elems(r), RollRows(Elems(a), s));
  }

  /** `np.roll(a, s, axis=1)` into a new array. */
  method RollAxis1(a: array2<real>, s: int) returns (r: array2<real>)
    requires a.Length1 > 0
    ensures fresh(r) && Elems(r) == RollCols(Elems(a), s)
  {
    r := new real[a.Length0, a.Length1]((i: int, j: int)
      requires 0 <= i < a.Length0 && 0 <= j < a.Length1 reads a => a[i, (j - s) % a.Length1]);
    Extensionality(Elems(r), RollCols(Elems(a), s));
  }

  /** `a[:-1, :]` or `a[1:, :]` into a new array, by where the peak row r0 lies. */
  method TrimRowAxis(a: array2<real>, r0: nat) returns (r: array2<real>)
    requires a.Length0 > 0
    ensures fresh(r) && Elems(r) == TrimRow(Elems(a), r0)
  {
    var from := if a.Length0 - r0 > r0 then 0 else 1;
    r := new real[a.Length0 - 1, a.Length1]((i: int, j: int)
      requires 0 <= i < a.Length0 - 1 && 0 <= j < a.Length1 reads a => a[i + from, j]);
    Extensionality(Elems(r), TrimRow(Elems(a), r0));
  }

  /** `a[:, :-1]` or `a[:, 1:]` into a new array, by where the peak column c0 lies. */
  method TrimColAxis(a: array2<real>, c0: nat) returns (r: array2<real>)
    requires a.Length1 > 0
    ensures fresh(r) && Elems(r) == TrimCol(Elems(a), c0)
  {
    var from := if a.Length1 - c0 > c0 then 0 else 1;
    r := new real[a.Length0, a.Length1 - 1]((i: int, j: int)
      requires 0 <= i < a.Length0 && 0 <= j < a.Length1 - 1 reads a => a[i, j + from]);
    Extensionality(Elems(r), TrimCol(Elems(a), c0));
  }
}
