/** The exact parts of the Jacobi eigenvalue method of helper.c: the identity
    the eigenvectors start from, the search for the largest off-diagonal
    entry, one rotation of the matrix and of the eigenvector columns for a
    given cosine c and sine s, and the read-out of the eigenvalues. */
module Jacobi {
  import opened Grids
  import opened Matrix

  /** The convergence threshold of the sweep loop, 1e-12. */
  const Eps: real := 0.000_000_000_001

  /** fabs. */
  function Abs(x: real): real {
    if x < 0.0 then -x else x
  }

  // ---------------------------------------------------------------------------
  // Initial eigenvectors

  /** eigvecs[i][j] = (i == j) ? 1.0 : 0.0 for every i, j < n. */
  method InitIdentity(v: array2<real>, n: nat)
    requires v.Length0 == n && v.Length1 == n
    modifies v
    ensures Grid(v) == Identity(n)
  {
    var i := 0;
    while i < n
      invariant 0 <= i <= n
      invariant forall i', j :: 0 <= i' < i && 0 <= j < n ==> v[i', j] == if i' == j then 1.0 else 0.0
    {
      var j := 0;
      while j < n
        invariant 0 <= j <= n
        invariant forall i', j' :: 0 <= i' < i && 0 <= j' < n ==> v[i', j'] == if i' == j' then 1.0 else 0.0
        invariant forall j' :: 0 <= j' < j ==> v[i, j'] == if i == j' then 1.0 else 0.0
      {
        v[i, j] := if i == j then 1.0 else 0.0;
        j := j + 1;
      }
      i := i + 1;
    }
    ghost var V := Grid(v);
    forall i | 0 <= i < n
      ensures V[i] == Identity(n)[i]
    {
    }
  }

  // ---------------------------------------------------------------------------
  // Pivot search

  /** (i, j) comes strictly before (p, q) in row-major order. */
  predicate Before(i: nat, j: nat, p: nat, q: nat) {
    i < p || (i == p && j < q)
  }

  /** The pivot search of one sweep: the largest |A[i][j]| over the strict
      upper triangle, at its first position in row-major order, and (0, 1)
      with maximum 0 when every such entry is zero. */
  method PivotSearch(a: array2<real>, n: nat) returns (p: nat, q: nat, maxOff: real)
    requires a.Length0 == n && a.Length1 == n
    ensures 0.0 <= maxOff
    ensures forall i, j :: 0 <= i < j < n ==> Abs(a[i, j]) <= maxOff
    ensures forall i, j :: 0 <= i < j < n && Before(i, j, p, q) ==> Abs(a[i, j]) < maxOff
    ensures maxOff == 0.0 ==> p == 0 && q == 1
    ensures maxOff > 0.0 ==> p < q < n && Abs(a[p, q]) == maxOff
  {
    p, q, maxOff := 0, 1, 0.0;
    var i := 0;
    while i < n
      invariant 0 <= i <= n && 0.0 <= maxOff
      invariant forall i', j :: 0 <= i' < i && i' < j < n ==> Abs(a[i', j]) <= maxOff
      invariant forall i', j :: 0 <= i' < i && i' < j < n && Before(i', j, p, q) ==> Abs(a[i', j]) < maxOff
      invariant maxOff == 0.0 ==> p == 0 && q == 1
      invariant maxOff > 0.0 ==> p < q < n && p < i && Abs(a[p, q]) == maxOff
    {
      var j := i + 1;
      while j < n
        invariant i + 1 <= j <= n && 0.0 <= maxOff
        invariant forall i', j' :: 0 <= i' < i && i' < j' < n ==> Abs(a[i', j']) <= maxOff
        invariant forall j' :: i < j' < j ==> Abs(a[i, j']) <= maxOff
        invariant forall i', j' :: 0 <= i' < i && i' < j' < n && Before(i', j', p, q) ==> Abs(a[i', j']) < maxOff
        invariant forall j' :: i < j' < j && Before(i, j', p, q) ==> Abs(a[i, j']) < maxOff
        invariant maxOff == 0.0 ==> p == 0 && q == 1
        invariant maxOff > 0.0 ==> p < q < n && Before(p, q, i, j) && Abs(a[p, q]) == maxOff
      {
        var aij := Abs(a[i, j]);
        if aij > maxOff {
          maxOff := aij;
          p := i;
          q := j;
        }
        j := j + 1;
      }
      i := i + 1;
    }
  }

  /** The sweep loop stops once the largest off-diagonal entry of the upper
      triangle is below Eps; for a symmetric matrix every off-diagonal entry
      is then below Eps. */
  lemma ConvergedOffDiagonal(A: seq<seq<real>>, n: nat, maxOff: real)
    requires IsMatrix(A, n, n) && Symmetric(A, n) && maxOff < Eps
    requires forall i, j :: 0 <= i < j < n ==> Abs(A[i][j]) <= maxOff
    ensures forall i, j :: 0 <= i < n && 0 <= j < n && i != j ==> Abs(A[i][j]) < Eps
  {
    forall i, j | 0 <= i < n && 0 <= j < n && i != j
      ensures Abs(A[i][j]) < Eps
    {
      if j < i {
        assert A[i][j] == A[j][i];
      }
    }
  }

  // ---------------------------------------------------------------------------
  // One rotation

  /** app_new: the new A[p][p] from the old A[p][p], A[q][q] and A[p][q]. */
  function NewApp(app: real, aqq: real, apq: real, c: real, s: real): real {
    c * c * app - 2.0 * c * s * apq + s * s * aqq
  }

  /** aqq_new: the new A[q][q]. */
  function NewAqq(app: real, aqq: real, apq: real, c: real, s: real): real {
    s * s * app + 2.0 * c * s * apq + c * c * aqq
  }

  /** Entry (i, j) of A after the rotation in the (p, q) plane with cosine c
      and sine s, as the source computes it from the entries before it. */
  function RotatedEntry(A: seq<seq<real>>, n: nat, p: nat, q: nat, c: real, s: real, i: nat, j: nat): real
    requires IsMatrix(A, n, n) && p < n && q < n && p != q && i < n && j < n
  {
    if (i == p && j == q) || (i == q && j == p) then 0.0
    else if i == p && j == p then NewApp(A[p][p], A[q][q], A[p][q], c, s)
    else if i == q && j == q then NewAqq(A[p][p], A[q][q], A[p][q], c, s)
    else if j == p then c * A[i][p] - s * A[i][q]
    else if i == p then c * A[j][p] - s * A[j][q]
    else if j == q then s * A[i][p] + c * A[i][q]
    else if i == q then s * A[j][p] + c * A[j][q]
    else A[i][j]
  }

  /** The whole rotated matrix. */
  function Rotated(A: seq<seq<real>>, n: nat, p: nat, q: nat, c: real, s: real): (R: seq<seq<real>>)
    requires IsMatrix(A, n, n) && p < n && q < n && p != q
    ensures IsMatrix(R, n, n)
  {
    seq(n, i requires 0 <= i < n => seq(n, j requires 0 <= j < n => RotatedEntry(A, n, p, q, c, s, i, j)))
  }

  /** The four entries facing the pivot in row and column k, for k other
      than p and q: (k, p) and (p, k) get c·A[k][p] - s·A[k][q], (k, q) and
      (q, k) get s·A[k][p] + c·A[k][q]; nothing else changes. */
  method RotatePair(a: array2<real>, n: nat, k: nat, p: nat, q: nat, c: real, s: real)
    requires a.Length0 == n && a.Length1 == n && p < n && q < n && k < n && k != p && k != q && p != q
    modifies a
    ensures a[k, p] == c * old(a[k, p]) - s * old(a[k, q]) && a[p, k] == a[k, p]
    ensures a[k, q] == s * old(a[k, p]) + c * old(a[k, q]) && a[q, k] == a[k, q]
    ensures forall i, j :: 0 <= i < n && 0 <= j < n && !(i == k && (j == p || j == q)) && !(j == k && (i == p || i == q)) ==>
      a[i, j] == old(a[i, j])
  {
    var akp, akq := a[k, p], a[k, q];
    a[k, p] := c * akp - s * akq;
    a[p, k] := c * akp - s * akq;
    a[k, q] := s * akp + c * akq;
    a[q, k] := s * akp + c * akq;
  }

  /** Once the rotation loop is done, the groups of entries it keeps track of
      make up the rotated matrix. */
  lemma RotationAssembled(A: seq<seq<real>>, R: seq<seq<real>>, n: nat, p: nat, q: nat, c: real, s: real)
    requires IsMatrix(A, n, n) && IsMatrix(R, n, n) && p < n && q < n && p != q
    requires R[p][p] == NewApp(A[p][p], A[q][q], A[p][q], c, s) && R[q][q] == NewAqq(A[p][p], A[q][q], A[p][q], c, s)
    requires R[p][q] == 0.0 && R[q][p] == 0.0
    requires forall i, j :: 0 <= i < n && 0 <= j < n && i != p && i != q && j != p && j != q ==> R[i][j] == A[i][j]
    requires forall i :: 0 <= i < n && i != p && i != q ==> R[i][p] == c * A[i][p] - s * A[i][q] && R[p][i] == R[i][p]
    requires forall i :: 0 <= i < n && i != p && i != q ==> R[i][q] == s * A[i][p] + c * A[i][q] && R[q][i] == R[i][q]
    ensures R == Rotated(A, n, p, q, c, s)
  {
    forall i | 0 <= i < n
      ensures R[i] == Rotated(A, n, p, q, c, s)[i]
    {
    }
  }

  /** The loop of lines 75-80 of helper.c: rows and columns p and q against
      every other index k are rotated; the pivot entries and everything
      outside rows and columns p and q stay as they are. */
  method RotateOffPivot(a: array2<real>, n: nat, p: nat, q: nat, c: real, s: real)
    requires a.Length0 == n && a.Length1 == n && p < n && q < n && p != q
    modifies a
    ensures forall i :: 0 <= i < n && i != p && i != q ==>
      a[i, p] == c * old(a[i, p]) - s * old(a[i, q]) && a[p, i] == a[i, p]
    ensures forall i :: 0 <= i < n && i != p && i != q ==>
      a[i, q] == s * old(a[i, p]) + c * old(a[i, q]) && a[q, i] == a[i, q]
    ensures forall i, j ::
      (0 <= i < n && 0 <= j < n && !(i != p && i != q && (j == p || j == q)) && !(j != p && j != q && (i == p || i == q)))
      ==> a[i, j] == old(a[i, j])
  {
    var k := 0;
    while k < n
      invariant 0 <= k <= n
      invariant forall i :: 0 <= i < n && i != p && i != q ==>
        a[i, p] == (if i < k then c * old(a[i, p]) - s * old(a[i, q]) else old(a[i, p]))
      invariant forall i :: 0 <= i < n && i != p && i != q ==>
        a[i, q] == (if i < k then s * old(a[i, p]) + c * old(a[i, q]) else old(a[i, q]))
      invariant forall i :: 0 <= i < n && i != p && i != q && i < k ==> a[p, i] == a[i, p] && a[q, i] == a[i, q]
      invariant forall i, j ::
        (0 <= i < n && 0 <= j < n && !(i != p && i != q && (j == p || j == q) && i < k) && !(j != p && j != q && (i == p || i == q) && j < k))
        ==> a[i, j] == old(a[i, j])
    {
      if k != p && k != q {
        RotatePair(a, n, k, p, q, c, s);
      }
      k := k + 1;
    }
  }

  /** Lines 64-80 of helper.c: the rotation of A in place. */
  method RotateMatrix(a: array2<real>, n: nat, p: nat, q: nat, c: real, s: real)
    requires a.Length0 == n && a.Length1 == n && p < n && q < n && p != q
    modifies a
    ensures Grid(a) == Rotated(old(Grid(a)), n, p, q, c, s)
  {
    ghost var A := Grid(a);
    var app, aqq, apq := a[p, p], a[q, q], a[p, q];
    var appNew := NewApp(app, aqq, apq, c, s);
    var aqqNew := NewAqq(app, aqq, apq, c, s);
    SetPivotBlock(a, n, p, q, appNew, aqqNew);
    ghost var M := Grid(a);
    RotateOffPivot(a, n, p, q, c, s);
    PivotThenOffPivot(A, M, Grid(a), n, p, q, c, s);
  }

  /** Lines 71-73 of helper.c: the new pivot diagonal, and A[p][q] = A[q][p] = 0. */
  method SetPivotBlock(a: array2<real>, n: nat, p: nat, q: nat, app: real, aqq: real)
    requires a.Length0 == n && a.Length1 == n && p < n && q < n && p != q
    modifies a
    ensures Grid(a)[p][p] == app && Grid(a)[q][q] == aqq && Grid(a)[p][q] == 0.0 && Grid(a)[q][p] == 0.0
    ensures forall i, j :: 0 <= i < n && 0 <= j < n && !((i == p || i == q) && (j == p || j == q)) ==>
      Grid(a)[i][j] == old(Grid(a))[i][j]
  {
    a[p, p] := app;
    a[q, q] := aqq;
    a[p, q] := 0.0;
    a[q, p] := 0.0;
  }

  /** The two stages of the rotation: M is A with its pivot block replaced,
      R is M with rows and columns p and q rotated against every other index. */
  lemma PivotThenOffPivot(A: seq<seq<real>>, M: seq<seq<real>>, R: seq<seq<real>>, n: nat, p: nat, q: nat, c: real, s: real)
    requires IsMatrix(A, n, n) && IsMatrix(M, n, n) && IsMatrix(R, n, n) && p < n && q < n && p != q
    requires M[p][p] == NewApp(A[p][p], A[q][q], A[p][q], c, s) && M[q][q] == NewAqq(A[p][p], A[q][q], A[p][q], c, s)
    requires M[p][q] == 0.0 && M[q][p] == 0.0
    requires forall i, j :: 0 <= i < n && 0 <= j < n && !((i == p || i == q) && (j == p || j == q)) ==> M[i][j] == A[i][j]
    requires forall i :: 0 <= i < n && i != p && i != q ==> R[i][p] == c * M[i][p] - s * M[i][q] && R[p][i] == R[i][p]
    requires forall i :: 0 <= i < n && i != p && i != q ==> R[i][q] == s * M[i][p] + c * M[i][q] && R[q][i] == R[i][q]
    requires forall i, j ::
      (0 <= i < n && 0 <= j < n && !(i != p && i != q && (j == p || j == q)) && !(j != p && j != q && (i == p || i == q)))
      ==> R[i][j] == M[i][j]
    ensures R == Rotated(A, n, p, q, c, s)
  {
    RotationAssembled(A, R, n, p, q, c, s);
  }

  /** V after rotating its columns p and q with cosine c and sine s. */
  function RotatedColumns(V: seq<seq<real>>, n: nat, p: nat, q: nat, c: real, s: real): (R: seq<seq<real>>)
    requires IsMatrix(V, n, n) && p < n && q < n && p != q
    ensures IsMatrix(R, n, n)
  {
    seq(n, k requires 0 <= k < n => seq(n, j requires 0 <= j < n =>
      if j == p then c * V[k][p] - s * V[k][q]
      else if j == q then s * V[k][p] + c * V[k][q]
      else V[k][j]))
  }

  /** Lines 82-87 of helper.c: the rotation of the eigenvector columns in place. */
  method RotateColumns(v: array2<real>, n: nat, p: nat, q: nat, c: real, s: real)
    requires v.Length0 == n && v.Length1 == n && p < n && q < n && p != q
    modifies v
    ensures Grid(v) == RotatedColumns(old(Grid(v)), n, p, q, c, s)
  {
    ghost var V := Grid(v);
    var k := 0;
    while k < n
      invariant 0 <= k <= n
      invariant forall k', j :: 0 <= k' < n && 0 <= j < n ==>
        v[k', j] == if k' < k then RotatedColumns(V, n, p, q, c, s)[k'][j] else V[k'][j]
    {
      var vip, viq := v[k, p], v[k, q];
      v[k, p] := c * vip - s * viq;
      v[k, q] := s * vip + c * viq;
      k := k + 1;
    }
    ghost var R := Grid(v);
    forall k | 0 <= k < n
      ensures R[k] == RotatedColumns(V, n, p, q, c, s)[k]
    {
    }
  }

  /** One rotation step of the sweep loop, for the pivot (p, q) and a given
      cosine and sine: A is rotated in place and so are columns p and q of
      the eigenvectors. */
  method Rotate(a: array2<real>, v: array2<real>, n: nat, p: nat, q: nat, c: real, s: real)
    requires a != v && a.Length0 == n && a.Length1 == n && v.Length0 == n && v.Length1 == n
    requires p < n && q < n && p != q
    modifies a, v
    ensures Grid(a) == Rotated(old(Grid(a)), n, p, q, c, s)
    ensures Grid(v) == RotatedColumns(old(Grid(v)), n, p, q, c, s)
  {
    RotateMatrix(a, n, p, q, c, s);
    RotateColumns(v, n, p, q, c, s);
  }

  // ---------------------------------------------------------------------------
  // Properties of one rotation

  /** The rotation clears the pivot pair and writes only rows and columns p
      and q. */
  lemma RotationClearsPivot(A: seq<seq<real>>, n: nat, p: nat, q: nat, c: real, s: real)
    requires IsMatrix(A, n, n) && p < n && q < n && p != q
    ensures Rotated(A, n, p, q, c, s)[p][q] == 0.0 && Rotated(A, n, p, q, c, s)[q][p] == 0.0
    ensures forall i, j :: 0 <= i < n && 0 <= j < n && i != p && i != q && j != p && j != q ==>
      Rotated(A, n, p, q, c, s)[i][j] == A[i][j]
  {
  }

  /** A symmetric matrix stays symmetric. */
  lemma RotationKeepsSymmetry(A: seq<seq<real>>, n: nat, p: nat, q: nat, c: real, s: real)
    requires IsMatrix(A, n, n) && p < n && q < n && p != q && Symmetric(A, n)
    ensures Symmetric(Rotated(A, n, p, q, c, s), n)
  {
    var R := Rotated(A, n, p, q, c, s);
    forall i, j | 0 <= i < n && 0 <= j < n
      ensures R[i][j] == R[j][i]
    {
      assert A[i][j] == A[j][i];
    }
  }

  /** Σ A[i][i] for i < k. */
  function DiagonalSum(A: seq<seq<real>>, n: nat, k: nat): real
    requires IsMatrix(A, n, n) && k <= n
  {
    if k == 0 then 0.0 else DiagonalSum(A, n, k - 1) + A[k - 1][k - 1]
  }

  /** Two matrices whose diagonals differ only at p and q: their diagonal
      sums differ by the difference there. */
  lemma {:induction false} DiagonalSumChange(A: seq<seq<real>>, B: seq<seq<real>>, n: nat, p: nat, q: nat, k: nat)
    requires IsMatrix(A, n, n) && IsMatrix(B, n, n) && p < n && q < n && p != q && k <= n
    requires forall i :: 0 <= i < n && i != p && i != q ==> A[i][i] == B[i][i]
    ensures DiagonalSum(B, n, k) - DiagonalSum(A, n, k) ==
      (if p < k then B[p][p] - A[p][p] else 0.0) + (if q < k then B[q][q] - A[q][q] else 0.0)
  {
    if k > 0 {
      DiagonalSumChange(A, B, n, p, q, k - 1);
    }
  }

  /** For a true rotation (c² + s² = 1) the new diagonal pair has the old sum,
      whatever A[p][q] is. */
  lemma PivotPairSum(app: real, aqq: real, apq: real, c: real, s: real)
    requires c * c + s * s == 1.0
    ensures NewApp(app, aqq, apq, c, s) + NewAqq(app, aqq, apq, c, s) == app + aqq
  {
    calc {
      NewApp(app, aqq, apq, c, s) + NewAqq(app, aqq, apq, c, s);
      == (c * c * app - 2.0 * c * s * apq + s * s * aqq) + (s * s * app + 2.0 * c * s * apq + c * c * aqq);
      == (c * c + s * s) * app + (c * c + s * s) * aqq;
      == app + aqq;
    }
  }

  /** For a true rotation the trace, the sum of the eigenvalues, is kept. */
  lemma RotationKeepsTrace(A: seq<seq<real>>, n: nat, p: nat, q: nat, c: real, s: real)
    requires IsMatrix(A, n, n) && p < n && q < n && p != q && c * c + s * s == 1.0
    ensures DiagonalSum(Rotated(A, n, p, q, c, s), n, n) == DiagonalSum(A, n, n)
  {
    var R := Rotated(A, n, p, q, c, s);
    DiagonalSumChange(A, R, n, p, q, n);
    PivotPairSum(A[p][p], A[q][q], A[p][q], c, s);
  }

  /** Rotating the columns back, with sine -s, undoes a true rotation. */
  lemma RotateColumnsBack(V: seq<seq<real>>, n: nat, p: nat, q: nat, c: real, s: real)
    requires IsMatrix(V, n, n) && p < n && q < n && p != q && c * c + s * s == 1.0
    ensures RotatedColumns(RotatedColumns(V, n, p, q, c, s), n, p, q, c, -s) == V
  {
    var R := RotatedColumns(V, n, p, q, c, s);
    var B := RotatedColumns(R, n, p, q, c, -s);
    forall k | 0 <= k < n
      ensures B[k] == V[k]
    {
      var x, y := V[k][p], V[k][q];
      calc {
        B[k][p];
        == c * (c * x - s * y) - (-s) * (s * x + c * y);
        == (c * c + s * s) * x;
        == x;
      }
      calc {
        B[k][q];
        == (-s) * (c * x - s * y) + c * (s * x + c * y);
        == (c * c + s * s) * y;
        == y;
      }
    }
  }

  // ---------------------------------------------------------------------------
  // Eigenvalues

  /** eigvals[i] = A[i][i]: the diagonal the sweeps leave. */
  method ExtractEigenvalues(a: array2<real>, eigvals: array<real>, n: nat)
    requires a.Length0 == n && a.Length1 == n && eigvals.Length == n
    modifies eigvals
    ensures forall i :: 0 <= i < n ==> eigvals[i] == a[i, i]
  {
    var i := 0;
    while i < n
      invariant 0 <= i <= n
      invariant forall i' :: 0 <= i' < i ==> eigvals[i'] == a[i', i']
    {
      eigvals[i] := a[i, i];
      i := i + 1;
    }
  }

  /** Column j of v (holding c) over its norm, when that norm is positive;
      left as it is otherwise. */
  method NormalizeColumn(v: array2<real>, n: nat, j: nat, sqrt: real -> real, ghost c: seq<real>)
    requires v.Length0 == n && v.Length1 == n && j < n && |c| == n
    requires forall i :: 0 <= i < n ==> v[i, j] == c[i]
    modifies v
    ensures forall i :: 0 <= i < n ==> v[i, j] == NormalizedColumn(c, sqrt)[i]
    ensures forall i, x :: 0 <= i < n && 0 <= x < n && x != j ==> v[i, x] == old(v[i, x])
  {
    var norm := 0.0;
    for i := 0 to n
      invariant norm == SumSquares(c[..i])
    {
      assert c[..i + 1][..i] == c[..i];
      norm := norm + v[i, j] * v[i, j];
    }
    assert c[..n] == c;
    norm := sqrt(norm);
    if norm > 0.0 {
      for i := 0 to n
        invariant forall i' :: 0 <= i' < i ==> v[i', j] == c[i'] / norm
        invariant forall i' :: i <= i' < n ==> v[i', j] == c[i']
        invariant forall i', x :: 0 <= i' < n && 0 <= x < n && x != j ==> v[i', x] == old(v[i', x])
      {
        v[i, j] := v[i, j] / norm;
      }
    }
  }

  /** c over its norm when the norm is positive, c otherwise. */
  function NormalizedColumn(c: seq<real>, sqrt: real -> real): (y: seq<real>)
    ensures |y| == |c|
  {
    var norm := sqrt(SumSquares(c));
    if norm > 0.0 then Divided(c, norm) else c
  }

  /** A non-zero eigenvector column becomes a unit vector; a zero column
      stays zero. */
  lemma NormalizedColumnIsUnit(c: seq<real>, sqrt: real -> real)
    requires IsSqrt(sqrt)
    ensures (exists i :: 0 <= i < |c| && c[i] != 0.0) ==> SumSquares(NormalizedColumn(c, sqrt)) == 1.0
    ensures (forall i :: 0 <= i < |c| ==> c[i] == 0.0) ==> NormalizedColumn(c, sqrt) == c
  {
    SumSquaresZero(c);
    var norm := sqrt(SumSquares(c));
    if SumSquares(c) > 0.0 {
      SqrtPositive(sqrt, SumSquares(c));
      NormalizedIsUnit(c, norm);
    }
  }

  /** The last loop of jacobi: every eigenvector column with a non-zero
      entry is scaled to a unit vector; zero columns are left alone. */
  method NormalizeColumns(v: array2<real>, n: nat, sqrt: real -> real)
    requires IsSqrt(sqrt) && v.Length0 == n && v.Length1 == n
    modifies v
    ensures forall j :: 0 <= j < n ==> Column(Grid(v), n, j) == NormalizedColumn(Column(old(Grid(v)), n, j), sqrt)
  {
    ghost var G := Grid(v);
    for j := 0 to n
      invariant forall i, j' :: 0 <= i < n && 0 <= j' < j ==> v[i, j'] == NormalizedColumn(Column(G, n, j'), sqrt)[i]
      invariant forall i, x :: 0 <= i < n && j <= x < n ==> v[i, x] == G[i][x]
    {
      NormalizeColumn(v, n, j, sqrt, Column(G, n, j));
    }
    forall j | 0 <= j < n
      ensures Column(Grid(v), n, j) == NormalizedColumn(Column(G, n, j), sqrt)
    {
    }
  }
}
