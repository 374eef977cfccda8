/** The triangular degree enumeration `get_valid_inds(Nmax)`: the pairs (p, q) of the
    (Nmax+1) x (Nmax+1) table `p + q` whose entry is at most Nmax, in the order `np.where`
    reports them (row-major: p ascending, then q ascending). */
module Enumeration {
  import opened Basics

  /** Row p of the table, scanned from column q to column n, keeping the cells with p + q <= n. */
  function RowScan(p: nat, q: nat, n: nat): seq<Pair>
    decreases n + 1 - q
  {
    if q > n then [] else (if p + q <= n then [(p, q)] else []) + RowScan(p, q + 1, n)
  }

  /** Rows p, p+1, ..., n of the table, each scanned in full. */
  function GridScan(p: nat, n: nat): seq<Pair>
    decreases n + 1 - p
  {
    if p > n then [] else RowScan(p, 0, n) + GridScan(p + 1, n)
  }

  /** `get_valid_inds(nMax)`; a negative nMax gives an empty table and so no pairs. One pair per
      cell on or above the anti-diagonal, the constant pair (0, 0) first. */
  function ValidInds(nMax: int): (r: seq<Pair>)
    ensures |r| == TriangleCount(nMax)
    ensures nMax >= 0 ==> r[0] == (0, 0)
  {
    if nMax < 0 then []
    else
      GridScanLength(0, nMax);
      GridScanAt(0, 0, 0, nMax);
      GridScan(0, nMax)
  }

  /** The number of pairs of total degree at most n: 1 + 2 + ... + (n + 1). */
  function TriangleCount(n: int): nat
    decreases n + 1
  {
    if n < 0 then 0 else TriangleCount(n - 1) + n + 1
  }

  /** The closed form (n+1)(n+2)/2. */
  lemma {:induction false} TriangleClosedForm(n: int)
    ensures n >= -1 ==> 2 * TriangleCount(n) == (n + 1) * (n + 2)
    decreases n + 1
  {
    if n >= 0 {
      TriangleClosedForm(n - 1);
      assert (n + 1) * (n + 2) == n * (n + 1) + 2 * (n + 1);
    }
  }

  /** Row-major (lexicographic) strict order on degree pairs. */
  predicate Before(a: Pair, b: Pair)
  {
    a.0 < b.0 || (a.0 == b.0 && a.1 < b.1)
  }

  predicate StrictlyOrdered(s: seq<Pair>)
  {
    forall i, j | 0 <= i < j < |s| :: Before(s[i], s[j])
  }

  // ---- RowScan ----

  lemma {:induction false} RowScanMembers(p: nat, q: nat, n: nat, a: nat, b: nat)
    ensures (a, b) in RowScan(p, q, n) <==> a == p && q <= b && p + b <= n
    decreases n + 1 - q
  {
    if q <= n {
      RowScanMembers(p, q + 1, n, a, b);
    }
  }

  lemma {:induction false} RowScanLength(p: nat, q: nat, n: nat)
    ensures |RowScan(p, q, n)| == if p + q <= n then n - p - q + 1 else 0
    decreases n + 1 - q
  {
    if q <= n {
      RowScanLength(p, q + 1, n);
    }
  }

  /** Row p, from column q on, lists (p, q), (p, q+1), ... in that order. */
  lemma {:induction false} RowScanAt(p: nat, q: nat, n: nat, t: nat)
    requires p + q + t <= n
    ensures t < |RowScan(p, q, n)| && RowScan(p, q, n)[t] == (p, q + t)
    decreases t
  {
    RowScanLength(p, q, n);
    if t > 0 {
      RowScanAt(p, q + 1, n, t - 1);
    }
  }

  lemma {:induction false} RowScanOrdered(p: nat, q: nat, n: nat)
    ensures StrictlyOrdered(RowScan(p, q, n))
  {
    var s := RowScan(p, q, n);
    RowScanLength(p, q, n);
    forall i, j | 0 <= i < j < |s| ensures Before(s[i], s[j]) {
      RowScanAt(p, q, n, i);
      RowScanAt(p, q, n, j);
    }
  }

  // ---- GridScan ----

  lemma OrderedConcat(a: seq<Pair>, b: seq<Pair>)
    requires StrictlyOrdered(a) && StrictlyOrdered(b)
    requires forall i, j | 0 <= i < |a| && 0 <= j < |b| :: Before(a[i], b[j])
    ensures StrictlyOrdered(a + b)
  {
    var s := a + b;
    forall i, j | 0 <= i < j < |s| ensures Before(s[i], s[j]) {
      if j < |a| {
      } else if i >= |a| {
        assert s[i] == b[i - |a|] && s[j] == b[j - |a|];
      } else {
        assert s[i] == a[i] && s[j] == b[j - |a|];
      }
    }
  }

  lemma {:induction false} GridScanMembers(p: nat, n: nat, a: nat, b: nat)
    ensures (a, b) in GridScan(p, n) <==> p <= a && a + b <= n
    decreases n + 1 - p
  {
    if p <= n {
      RowScanMembers(p, 0, n, a, b);
      GridScanMembers(p + 1, n, a, b);
    }
  }

  lemma {:induction false} GridScanLength(p: nat, n: nat)
    requires p <= n + 1
    ensures |GridScan(p, n)| == TriangleCount(n - p)
    decreases n + 1 - p
  {
    if p <= n {
      RowScanLength(p, 0, n);
      GridScanLength(p + 1, n);
    }
  }

  lemma {:induction false} GridScanOrdered(p: nat, n: nat)
    ensures StrictlyOrdered(GridScan(p, n))
    decreases n + 1 - p
  {
    if p <= n {
      var row, rest := RowScan(p, 0, n), GridScan(p + 1, n);
      RowScanOrdered(p, 0, n);
      GridScanOrdered(p + 1, n);
      forall i, j | 0 <= i < |row| && 0 <= j < |rest| ensures Before(row[i], rest[j]) {
        RowScanMembers(p, 0, n, row[i].0, row[i].1);
        GridScanMembers(p + 1, n, rest[j].0, rest[j].1);
      }
      OrderedConcat(row, rest);
    }
  }

  /** The number of pairs listed before row p when the scan starts at row `from`. */
  function RowStart(from: nat, p: nat, n: nat): nat
    requires from <= p <= n + 1
    decreases p - from
  {
    if p == from then 0 else RowStart(from, p - 1, n) + (n - (p - 1) + 1)
  }

  lemma {:induction false} GridScanAt(from: nat, p: nat, q: nat, n: nat)
    requires from <= p && p + q <= n
    ensures RowStart(from, p, n) + q < |GridScan(from, n)|
    ensures GridScan(from, n)[RowStart(from, p, n) + q] == (p, q)
    decreases p - from
  {
    var row := RowScan(from, 0, n);
    RowScanLength(from, 0, n);
    if p == from {
      RowScanAt(from, 0, n, q);
    } else {
      GridScanAt(from + 1, p, q, n);
      RowStartShift(from, p, n);
    }
  }

  lemma {:induction false} RowStartShift(from: nat, p: nat, n: nat)
    requires from < p <= n + 1
    ensures RowStart(from, p, n) == (n - from + 1) + RowStart(from + 1, p, n)
    decreases p - from
  {
    if p - 1 > from {
      RowStartShift(from, p - 1, n);
    }
  }

  // ---- the properties of get_valid_inds ----

  /** Exactly the pairs of total degree at most nMax are enumerated. */
  lemma ValidIndsMembers(nMax: int, pq: Pair)
    ensures pq in ValidInds(nMax) <==> pq.0 + pq.1 <= nMax
  {
    if nMax >= 0 {
      GridScanMembers(0, nMax, pq.0, pq.1);
    }
  }

  /** Row-major order: p ascending, then q ascending; in particular no pair is listed twice. */
  lemma ValidIndsOrdered(nMax: int)
    ensures StrictlyOrdered(ValidInds(nMax))
  {
    if nMax >= 0 {
      GridScanOrdered(0, nMax);
    }
  }

  /** There are (nMax+1)(nMax+2)/2 of them (6 for nMax = 2, 1 for nMax = 0). */
  lemma ValidIndsCount(nMax: int)
    ensures nMax >= 0 ==> 2 * |ValidInds(nMax)| == (nMax + 1) * (nMax + 2)
  {
    TriangleClosedForm(nMax);
  }

  /** The position of (p, q) in the enumeration: rows 0 .. p-1 hold n+1, n, ..., n-p+2 pairs. */
  function PairIndex(p: nat, q: nat, nMax: nat): (k: nat)
    requires p + q <= nMax
    ensures k < |ValidInds(nMax)| && ValidInds(nMax)[k] == (p, q)
  {
    GridScanAt(0, p, q, nMax);
    RowStart(0, p, nMax) + q
  }

  /** Each pair of total degree at most nMax sits at exactly one position, so a coefficient
      addressed by position addresses one degree pair. */
  lemma ValidIndsPositionUnique(nMax: nat, k: nat)
    requires k < |ValidInds(nMax)|
    ensures ValidInds(nMax)[k].0 + ValidInds(nMax)[k].1 <= nMax
    ensures PairIndex(ValidInds(nMax)[k].0, ValidInds(nMax)[k].1, nMax) == k
  {
    var pq := ValidInds(nMax)[k];
    ValidIndsMembers(nMax, pq);
    var k' := PairIndex(pq.0, pq.1, nMax);
    ValidIndsOrdered(nMax);
    OrderedInjective(ValidInds(nMax), k, k');
  }

  lemma OrderedInjective(s: seq<Pair>, i: nat, j: nat)
    requires StrictlyOrdered(s) && i < |s| && j < |s| && s[i] == s[j]
    ensures i == j
  {
  }

  /** The orders `makeSpatialBases` is called with: its default spatial-kernel and background
      order 2 gives six pairs, and order 0 (the constant term alone) one. */
  lemma SmallEnumerations()
    ensures ValidInds(2) == [(0, 0), (0, 1), (0, 2), (1, 0), (1, 1), (2, 0)]
    ensures ValidInds(0) == [(0, 0)]
  {
    ValidIndsCount(2);
    ValidIndsCount(0);
    var s := ValidInds(2);
    assert s[PairIndex(0, 0, 2)] == (0, 0);
    assert s[PairIndex(0, 1, 2)] == (0, 1);
    assert s[PairIndex(0, 2, 2)] == (0, 2);
    assert s[PairIndex(1, 0, 2)] == (1, 0);
    assert s[PairIndex(1, 1, 2)] == (1, 1);
    assert s[PairIndex(2, 0, 2)] == (2, 0);
    assert ValidInds(0)[PairIndex(0, 0, 0)] == (0, 0);
  }
}
