/** The dense matrix helpers of the SVD pipeline (lib/matrix/helper.c):
    multiply, transpose, normalize and frobenius_norm. A `double **` with
    known extents is an `array2<real>`; `double` arithmetic is read as exact
    real arithmetic, and the libm `sqrt` is a parameter that satisfies
    `IsSqrt`. */
module Matrix {
  import opened Grids

  /** An m by n matrix, row by row. */
  predicate IsMatrix(A: seq<seq<real>>, m: nat, n: nat) {
    |A| == m && forall i :: 0 <= i < m ==> |A[i]| == n
  }

  /** A square matrix equal to its transpose. */
  predicate Symmetric(A: seq<seq<real>>, n: nat)
    requires IsMatrix(A, n, n)
  {
    forall i, j :: 0 <= i < n && 0 <= j < n ==> A[i][j] == A[j][i]
  }

  /** x times x. */
  function Square(x: real): real {
    x * x
  }

  /** A square is never negative, and vanishes exactly at zero. */
  lemma SquareFacts(x: real)
    ensures Square(x) >= 0.0
    ensures Square(x) == 0.0 <==> x == 0.0
  {
    if x < 0.0 {
      calc { Square(x); == (-x) * (-x); > 0.0; }
    } else if x > 0.0 {
      calc { Square(x); == x * x; > 0.0; }
    } else {
      calc { Square(x); == 0.0 * 0.0; == 0.0; }
    }
  }

  /** What the program expects of the libm square root on the values it
      passes: a non-negative result whose square is the argument. */
  ghost predicate IsSqrt(sqrt: real -> real) {
    forall x :: 0.0 <= x ==> 0.0 <= sqrt(x) && Square(sqrt(x)) == x
  }

  // ---------------------------------------------------------------------------
  // Products

  /** The first k terms of row i of A times column j of B. */
  function MulSum(A: seq<seq<real>>, B: seq<seq<real>>, i: nat, j: nat, k: nat): real
    requires i < |A| && k <= |A[i]| && k <= |B|
    requires forall t :: 0 <= t < k ==> j < |B[t]|
  {
    if k == 0 then 0.0 else MulSum(A, B, i, j, k - 1) + A[i][k - 1] * B[k - 1][j]
  }

  /** The matrix product of an m by n and an n by p matrix. */
  function Product(A: seq<seq<real>>, B: seq<seq<real>>, m: nat, n: nat, p: nat): (C: seq<seq<real>>)
    requires IsMatrix(A, m, n) && IsMatrix(B, n, p)
    ensures IsMatrix(C, m, p)
  {
    seq(m, i requires 0 <= i < m => seq(p, j requires 0 <= j < p => MulSum(A, B, i, j, n)))
  }

  /** The n by m transpose of an m by n matrix. */
  function Transposed(A: seq<seq<real>>, m: nat, n: nat): (T: seq<seq<real>>)
    requires IsMatrix(A, m, n)
    ensures IsMatrix(T, n, m)
  {
    seq(n, i requires 0 <= i < n => seq(m, j requires 0 <= j < m => A[j][i]))
  }

  /** Column x of G, for G with n rows. */
  function Column(G: seq<seq<real>>, n: nat, x: nat): (c: seq<real>)
    requires |G| == n && forall k :: 0 <= k < n ==> x < |G[k]|
    ensures |c| == n && forall k :: 0 <= k < n ==> c[k] == G[k][x]
  {
    seq(n, k requires 0 <= k < n => G[k][x])
  }

  /** The n by n identity. */
  function Identity(n: nat): (I: seq<seq<real>>)
    ensures IsMatrix(I, n, n)
  {
    seq(n, i requires 0 <= i < n => seq(n, j requires 0 <= j < n => if i == j then 1.0 else 0.0))
  }

  /** Transposing twice gives back the matrix. */
  lemma TransposeTwice(A: seq<seq<real>>, m: nat, n: nat)
    requires IsMatrix(A, m, n)
    ensures Transposed(Transposed(A, m, n), n, m) == A
  {
    var T := Transposed(Transposed(A, m, n), n, m);
    forall i | 0 <= i < m
      ensures T[i] == A[i]
    {
    }
  }

  /** One entry of AᵗA, summed over the first k rows of A, is symmetric in (i, j). */
  lemma {:induction false} GramEntrySymmetric(A: seq<seq<real>>, m: nat, n: nat, i: nat, j: nat, k: nat)
    requires IsMatrix(A, m, n) && i < n && j < n && k <= m
    ensures MulSum(Transposed(A, m, n), A, i, j, k) == MulSum(Transposed(A, m, n), A, j, i, k)
  {
    if k > 0 {
      GramEntrySymmetric(A, m, n, i, j, k - 1);
    }
  }

  /** AᵗA is square and symmetric: what the Jacobi method needs of the matrix
      svd hands it. */
  lemma GramSymmetric(A: seq<seq<real>>, m: nat, n: nat)
    requires IsMatrix(A, m, n)
    ensures Symmetric(Product(Transposed(A, m, n), A, n, m, n), n)
  {
    forall i, j | 0 <= i < n && 0 <= j < n
      ensures MulSum(Transposed(A, m, n), A, i, j, m) == MulSum(Transposed(A, m, n), A, j, i, m)
    {
      GramEntrySymmetric(A, m, n, i, j, m);
    }
  }

  /** Row i of the identity picks out row i of A, once k passes i. */
  lemma {:induction false} MulSumIdentity(A: seq<seq<real>>, m: nat, n: nat, i: nat, j: nat, k: nat)
    requires IsMatrix(A, m, n) && i < m && j < n && k <= m
    ensures MulSum(Identity(m), A, i, j, k) == if i < k then A[i][j] else 0.0
  {
    if k > 0 {
      MulSumIdentity(A, m, n, i, j, k - 1);
    }
  }

  /** The identity the Jacobi method starts from is neutral for the product. */
  lemma IdentityProduct(A: seq<seq<real>>, m: nat, n: nat)
    requires IsMatrix(A, m, n)
    ensures Product(Identity(m), A, m, m, n) == A
  {
    var P := Product(Identity(m), A, m, m, n);
    forall i | 0 <= i < m
      ensures P[i] == A[i]
    {
      forall j | 0 <= j < n
        ensures P[i][j] == A[i][j]
      {
        MulSumIdentity(A, m, n, i, j, m);
      }
    }
  }

  /** One entry of multiply: the sum of A[i][k] * B[k][j] for k = 0 .. n1 - 1,
      accumulated from 0 in the order of the source's inner loop. */
  method EntrySum(a: array2<real>, b: array2<real>, i: nat, j: nat) returns (s: real)
    requires a.Length1 == b.Length0 && i < a.Length0 && j < b.Length1
    ensures s == MulSum(Grid(a), Grid(b), i, j, a.Length1)
  {
    ghost var A, B := Grid(a), Grid(b);
    s := 0.0;
    var k := 0;
    while k < a.Length1
      invariant 0 <= k <= a.Length1
      invariant s == MulSum(A, B, i, j, k)
    {
      s := s + a[i, k] * b[k, j];
      k := k + 1;
    }
  }

  /** Row i of multiply. */
  method MultiplyRow(a: array2<real>, b: array2<real>, c: array2<real>, i: nat,
                     ghost A: seq<seq<real>>, ghost B: seq<seq<real>>)
    requires c != a && c != b && A == Grid(a) && B == Grid(b)
    requires a.Length1 == b.Length0 && i < a.Length0 == c.Length0 && b.Length1 == c.Length1
    modifies c
    ensures forall j :: 0 <= j < c.Length1 ==> c[i, j] == MulSum(A, B, i, j, a.Length1)
    ensures forall i', j :: 0 <= i' < c.Length0 && i' != i && 0 <= j < c.Length1 ==> c[i', j] == old(c[i', j])
  {
    var j := 0;
    while j < b.Length1
      invariant 0 <= j <= b.Length1
      invariant forall j' :: 0 <= j' < j ==> c[i, j'] == MulSum(A, B, i, j', a.Length1)
      invariant forall i', j' :: 0 <= i' < c.Length0 && i' != i && 0 <= j' < c.Length1 ==> c[i', j'] == old(c[i', j'])
    {
      c[i, j] := EntrySum(a, b, i, j);
      j := j + 1;
    }
  }

  /** multiply: no product (null) when the inner dimensions differ, otherwise
      a fresh m1 by n2 matrix holding A times B. */
  method Multiply(m1: nat, n1: nat, a: array2<real>, m2: nat, n2: nat, b: array2<real>) returns (c: array2?<real>)
    requires a.Length0 == m1 && a.Length1 == n1 && b.Length0 == m2 && b.Length1 == n2
    ensures c == null <==> n1 != m2
    ensures c != null ==>
      fresh(c) && c.Length0 == m1 && c.Length1 == n2 && Grid(c) == Product(Grid(a), Grid(b), m1, n1, n2)
  {
    if n1 != m2 {
      return null;
    }
    ghost var A, B := Grid(a), Grid(b);
    c := new real[m1, n2];
    var i := 0;
    while i < m1
      invariant 0 <= i <= m1
      invariant forall i', j :: 0 <= i' < i && 0 <= j < n2 ==> c[i', j] == MulSum(A, B, i', j, n1)
    {
      MultiplyRow(a, b, c, i, A, B);
      i := i + 1;
    }
    ghost var C := Grid(c);
    forall i | 0 <= i < m1
      ensures C[i] == Product(A, B, m1, n1, n2)[i]
    {
    }
  }

  /** transpose: a fresh n by m matrix with T[i][j] = A[j][i]. */
  method Transpose(m: nat, n: nat, a: array2<real>) returns (t: array2<real>)
    requires a.Length0 == m && a.Length1 == n
    ensures fresh(t) && t.Length0 == n && t.Length1 == m
    ensures Grid(t) == Transposed(Grid(a), m, n)
  {
    t := new real[n, m];
    var i := 0;
    while i < n
      invariant 0 <= i <= n
      invariant forall i', j :: 0 <= i' < i && 0 <= j < m ==> t[i', j] == a[j, i']
    {
      var j := 0;
      while j < m
        invariant 0 <= j <= m
        invariant forall i', j' :: 0 <= i' < i && 0 <= j' < m ==> t[i', j'] == a[j', i']
        invariant forall j' :: 0 <= j' < j ==> t[i, j'] == a[j', i]
      {
        t[i, j] := a[j, i];
        j := j + 1;
      }
      i := i + 1;
    }
    ghost var T, A := Grid(t), Grid(a);
    forall i | 0 <= i < n
      ensures T[i] == Transposed(A, m, n)[i]
    {
    }
  }

  // ---------------------------------------------------------------------------
  // Sums of squares

  /** Σ x[i]² over the whole of x. */
  function SumSquares(x: seq<real>): (r: real)
    ensures r >= 0.0
  {
    if |x| == 0 then 0.0 else SumSquares(x[..|x| - 1]) + Square(x[|x| - 1])
  }

  /** A sum of squares vanishes exactly when every entry does. */
  lemma {:induction false} SumSquaresZero(x: seq<real>)
    ensures SumSquares(x) == 0.0 <==> forall i :: 0 <= i < |x| ==> x[i] == 0.0
  {
    if |x| > 0 {
      var y := x[..|x| - 1];
      SumSquaresZero(y);
      SquareFacts(x[|x| - 1]);
      if SumSquares(x) == 0.0 {
        forall i | 0 <= i < |x|
          ensures x[i] == 0.0
        {
          if i < |x| - 1 {
            assert x[i] == y[i];
          }
        }
      }
    }
  }

  /** x with every entry divided by r. */
  function Divided(x: seq<real>, r: real): (y: seq<real>)
    requires r != 0.0
    ensures |y| == |x|
  {
    seq(|x|, i requires 0 <= i < |x| => x[i] / r)
  }

  /** Dividing every entry by r divides the sum of squares by r². */
  lemma {:induction false} SumSquaresDivided(x: seq<real>, r: real)
    requires r != 0.0
    ensures SumSquares(Divided(x, r)) * Square(r) == SumSquares(x)
  {
    if |x| > 0 {
      var n := |x| - 1;
      SumSquaresDivided(x[..n], r);
      assert Divided(x, r)[..n] == Divided(x[..n], r);
      var q := x[n] / r;
      calc {
        Square(q) * Square(r);
        == (q * q) * (r * r);
        == (q * r) * (q * r);
        == { assert q * r == x[n]; }
        Square(x[n]);
      }
    }
  }

  /** Dividing a non-zero vector by the square root of its sum of squares
      leaves a unit vector. */
  lemma NormalizedIsUnit(x: seq<real>, r: real)
    requires r != 0.0 && Square(r) == SumSquares(x)
    ensures SumSquares(Divided(x, r)) == 1.0
  {
    SquareFacts(r);
    SumSquaresDivided(x, r);
    CancelFactor(SumSquares(Divided(x, r)), Square(r), SumSquares(x));
  }

  /** s·q = t = q with q non-zero leaves s = 1. */
  lemma CancelFactor(s: real, q: real, t: real)
    requires q != 0.0 && s * q == t && q == t
    ensures s == 1.0
  {
    calc {
      s;
      == (s * q) / q;
      == q / q;
      == 1.0;
    }
  }

  /** A square root of a positive number is not zero. */
  lemma SqrtPositive(sqrt: real -> real, x: real)
    requires IsSqrt(sqrt) && 0.0 < x
    ensures 0.0 < sqrt(x)
  {
    assert Square(sqrt(x)) == x;
    SquareFacts(sqrt(x));
  }

  /** The first loop of normalize and of the norms: Σ v[i]² for i < n. */
  method SquaredNorm(v: array<real>, n: nat) returns (s: real)
    requires n <= v.Length
    ensures s == SumSquares(v[..n])
  {
    s := 0.0;
    var i := 0;
    while i < n
      invariant 0 <= i <= n
      invariant s == SumSquares(v[..i])
    {
      assert v[..i + 1][..i] == v[..i];
      s := s + v[i] * v[i];
      i := i + 1;
    }
  }

  /** normalize: divides the first n entries of v, in place, by their
      Euclidean norm. The source divides by zero for a zero vector, so a
      non-zero entry is required; the result is then a unit vector. */
  method Normalize(v: array<real>, n: nat, sqrt: real -> real)
    requires IsSqrt(sqrt) && n <= v.Length
    requires exists i :: 0 <= i < n && v[i] != 0.0
    modifies v
    ensures 0.0 < SumSquares(old(v[..n]))
    ensures v[..n] == Divided(old(v[..n]), sqrt(SumSquares(old(v[..n]))))
    ensures v[n..] == old(v[n..])
    ensures SumSquares(v[..n]) == 1.0
  {
    ghost var x := v[..n];
    SumSquaresZero(x);
    var norm := SquaredNorm(v, n);
    SqrtPositive(sqrt, norm);
    norm := sqrt(norm);
    var i := 0;
    while i < n
      invariant 0 <= i <= n
      invariant v[..i] == Divided(x, norm)[..i]
      invariant v[i..] == old(v[i..])
    {
      v[i] := v[i] / norm;
      assert v[..i + 1] == v[..i] + [v[i]];
      assert v[i + 1..] == old(v[i + 1..]) by {
        assert forall k :: i + 1 <= k < v.Length ==> v[k] == old(v[k]);
      }
      i := i + 1;
    }
    NormalizedIsUnit(x, norm);
  }

  /** Σ A[i][j]² over the first `rows` rows. */
  function MatrixSquares(A: seq<seq<real>>, rows: nat): (r: real)
    requires rows <= |A|
    ensures r >= 0.0
  {
    if rows == 0 then 0.0 else MatrixSquares(A, rows - 1) + SumSquares(A[rows - 1])
  }

  /** The radicand of frobenius_norm vanishes exactly when every entry does. */
  lemma {:induction false} MatrixSquaresZero(A: seq<seq<real>>, rows: nat)
    requires rows <= |A|
    ensures MatrixSquares(A, rows) == 0.0 <==>
      forall i, j :: 0 <= i < rows && 0 <= j < |A[i]| ==> A[i][j] == 0.0
  {
    if rows > 0 {
      MatrixSquaresZero(A, rows - 1);
      SumSquaresZero(A[rows - 1]);
    }
  }

  /** frobenius_norm: the square root of the sum of the squares of all m by n
      entries; it is zero exactly for the zero matrix. */
  method FrobeniusNorm(m: nat, n: nat, a: array2<real>, sqrt: real -> real) returns (norm: real)
    requires IsSqrt(sqrt) && a.Length0 == m && a.Length1 == n
    ensures norm == sqrt(MatrixSquares(Grid(a), m))
    ensures 0.0 <= norm && Square(norm) == MatrixSquares(Grid(a), m)
    ensures norm == 0.0 <==> forall i, j :: 0 <= i < m && 0 <= j < n ==> a[i, j] == 0.0
  {
    ghost var A := Grid(a);
    var sum := 0.0;
    var i := 0;
    while i < m
      invariant 0 <= i <= m
      invariant sum == MatrixSquares(A, i)
    {
      var j := 0;
      while j < n
        invariant 0 <= j <= n
        invariant sum == MatrixSquares(A, i) + SumSquares(A[i][..j])
      {
        assert A[i][..j + 1][..j] == A[i][..j];
        sum := sum + a[i, j] * a[i, j];
        j := j + 1;
      }
      assert A[i][..n] == A[i];
      i := i + 1;
    }
    norm := sqrt(sum);
    MatrixSquaresZero(A, m);
    SquareFacts(norm);
  }
}
