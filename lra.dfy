/** low_rank_approx (lib/matrix/lra.c): the rank-k approximation
    A_k = Σ_{t<k} σ_t · u_t · v_tᵗ built from the three factors svd returns. */
module LowRank {
  import opened Grids
  import opened Matrix

  function Min(a: int, b: int): int {
    if a < b then a else b
  }

  /** The rank the source uses: k, capped at min(m, n). */
  function ClampRank(m: int, n: int, k: int): (r: int)
    ensures r <= k && r <= Min(m, n)
    ensures r == k || r == Min(m, n)
  {
    if k > Min(m, n) then Min(m, n) else k
  }

  /** U has m rows, V has n rows, and U, V and S have at least r columns,
      S at least r rows: every entry the accumulation reads exists. */
  predicate Factors(U: seq<seq<real>>, S: seq<seq<real>>, V: seq<seq<real>>, m: nat, n: nat, r: nat) {
    m <= |U| && (forall i :: 0 <= i < m ==> r <= |U[i]|) &&
    r <= |S| && (forall t :: 0 <= t < r ==> r <= |S[t]|) &&
    n <= |V| && (forall j :: 0 <= j < n ==> r <= |V[j]|)
  }

  /** Term t at (i, j): (σ_t · U[i][t]) · V[j][t], as the source groups it. */
  function Term(U: seq<seq<real>>, S: seq<seq<real>>, V: seq<seq<real>>, m: nat, n: nat, r: nat,
                t: nat, i: nat, j: nat): real
    requires Factors(U, S, V, m, n, r) && t < r && i < m && j < n
  {
    (S[t][t] * U[i][t]) * V[j][t]
  }

  /** Entry (i, j) of the sum of the first k terms. */
  function Approx(U: seq<seq<real>>, S: seq<seq<real>>, V: seq<seq<real>>, m: nat, n: nat, r: nat,
                  k: nat, i: nat, j: nat): real
    requires Factors(U, S, V, m, n, r) && k <= r && i < m && j < n
  {
    if k == 0 then 0.0 else Approx(U, S, V, m, n, r, k - 1, i, j) + Term(U, S, V, m, n, r, k - 1, i, j)
  }

  /** The whole m by n approximation of rank k. */
  function LowRankMatrix(U: seq<seq<real>>, S: seq<seq<real>>, V: seq<seq<real>>, m: nat, n: nat, r: nat, k: nat)
    : (A: seq<seq<real>>)
    requires Factors(U, S, V, m, n, r) && k <= r
    ensures IsMatrix(A, m, n)
  {
    seq(m, i requires 0 <= i < m => seq(n, j requires 0 <= j < n => Approx(U, S, V, m, n, r, k, i, j)))
  }

  // ---------------------------------------------------------------------------
  // The source

  /** The guards of low_rank_approx: the triple U, S, V and each of its
      three factors present, and m, n and k positive. */
  predicate Usable(m: int, n: int, svd: array?<array2?<real>>, k: int)
    requires svd != null ==> svd.Length == 3
    reads svd
  {
    svd != null && svd[0] != null && svd[1] != null && svd[2] != null &&
    m > 0 && n > 0 && k > 0
  }

  /** The shapes low_rank_approx reads: U with m rows, V with n rows, and
      U, V and S with at least min(m, n) columns, S with min(m, n) rows. */
  predicate Shaped(m: int, n: int, u: array2<real>, s: array2<real>, v: array2<real>) {
    m <= u.Length0 && Min(m, n) <= u.Length1 && Min(m, n) <= s.Length0 && Min(m, n) <= s.Length1 &&
    n <= v.Length0 && Min(m, n) <= v.Length1
  }

  /** Arrays of those shapes are factors for rank min(m, n). */
  lemma ArraysAreFactors(m: nat, n: nat, u: array2<real>, s: array2<real>, v: array2<real>)
    requires Shaped(m, n, u, s, v)
    ensures Factors(Grid(u), Grid(s), Grid(v), m, n, Min(m, n))
  {
  }

  /** The rank-k approximation the arrays u, s and v stand for. */
  function Approximation(m: nat, n: nat, u: array2<real>, s: array2<real>, v: array2<real>, k: nat)
    : (A: seq<seq<real>>)
    requires Shaped(m, n, u, s, v) && k <= Min(m, n)
    reads u, s, v
    ensures IsMatrix(A, m, n)
  {
    ArraysAreFactors(m, n, u, s, v);
    LowRankMatrix(Grid(u), Grid(s), Grid(v), m, n, Min(m, n), k)
  }

  /** Adds coeff · V[j][t] to entry (i, j) for every j < n: the innermost loop. */
  method AddRow(ak: array2<real>, v: array2<real>, i: nat, t: nat, n: nat, coeff: real, ghost V: seq<seq<real>>)
    requires ak != v && i < ak.Length0 && n == ak.Length1 && n <= v.Length0 && t < v.Length1 && V == Grid(v)
    modifies ak
    ensures forall j :: 0 <= j < n ==> ak[i, j] == old(ak[i, j]) + coeff * V[j][t]
    ensures forall i', j :: 0 <= i' < ak.Length0 && i' != i && 0 <= j < n ==> ak[i', j] == old(ak[i', j])
  {
    for j := 0 to n
      invariant forall j' :: 0 <= j' < j ==> ak[i, j'] == old(ak[i, j']) + coeff * V[j'][t]
      invariant forall j' :: j <= j' < n ==> ak[i, j'] == old(ak[i, j'])
      invariant forall i', j' :: 0 <= i' < ak.Length0 && i' != i && 0 <= j' < n ==> ak[i', j'] == old(ak[i', j'])
    {
      ak[i, j] := ak[i, j] + coeff * v[j, t];
    }
  }

  /** Row i of the loop over rows: nothing when U[i][t] is zero, otherwise
      σ_t U[i][t] V[j][t] added to every entry of the row. */
  method AddTermRow(ak: array2<real>, u: array2<real>, v: array2<real>, sigma: real, t: nat, m: nat, n: nat, i: nat,
                    ghost U: seq<seq<real>>, ghost S: seq<seq<real>>, ghost V: seq<seq<real>>, ghost r: nat)
    requires ak != u && ak != v && ak.Length0 == m && ak.Length1 == n && i < m
    requires m <= u.Length0 && t < u.Length1 && n <= v.Length0 && t < v.Length1
    requires U == Grid(u) && V == Grid(v) && Factors(U, S, V, m, n, r) && t < r && sigma == S[t][t]
    requires forall j :: 0 <= j < n ==> ak[i, j] == Approx(U, S, V, m, n, r, t, i, j)
    modifies ak
    ensures forall j :: 0 <= j < n ==> ak[i, j] == Approx(U, S, V, m, n, r, t + 1, i, j)
    ensures forall i', j :: 0 <= i' < m && i' != i && 0 <= j < n ==> ak[i', j] == old(ak[i', j])
  {
    var ui := u[i, t];
    if ui == 0.0 {
      RowStep(U, S, V, m, n, r, t, i, 0.0);
      return;
    }
    var coeff := sigma * ui;
    RowStep(U, S, V, m, n, r, t, i, coeff);
    AddRow(ak, v, i, t, n, coeff, V);
  }

  /** Adds term t to every entry, taking the sum of t terms to the sum of
      t + 1: the loop over rows, which skips a row whose U[i][t] is zero. */
  method AddTerm(ak: array2<real>, u: array2<real>, v: array2<real>, sigma: real, t: nat, m: nat, n: nat,
                 ghost U: seq<seq<real>>, ghost S: seq<seq<real>>, ghost V: seq<seq<real>>, ghost r: nat)
    requires ak != u && ak != v && ak.Length0 == m && ak.Length1 == n
    requires m <= u.Length0 && t < u.Length1 && n <= v.Length0 && t < v.Length1
    requires U == Grid(u) && V == Grid(v) && Factors(U, S, V, m, n, r) && t < r && sigma == S[t][t]
    requires forall i, j :: 0 <= i < m && 0 <= j < n ==> ak[i, j] == Approx(U, S, V, m, n, r, t, i, j)
    modifies ak
    ensures forall i, j :: 0 <= i < m && 0 <= j < n ==> ak[i, j] == Approx(U, S, V, m, n, r, t + 1, i, j)
  {
    for i := 0 to m
      invariant forall i', j :: 0 <= i' < i && 0 <= j < n ==> ak[i', j] == Approx(U, S, V, m, n, r, t + 1, i', j)
      invariant forall i', j :: i <= i' < m && 0 <= j < n ==> ak[i', j] == Approx(U, S, V, m, n, r, t, i', j)
    {
      AddTermRow(ak, u, v, sigma, t, m, n, i, U, S, V, r);
    }
  }

  /** Row i of the sum of t + 1 terms is row i of the sum of t terms plus
      coeff V[j][t], for coeff = σ_t U[i][t]. */
  lemma RowStep(U: seq<seq<real>>, S: seq<seq<real>>, V: seq<seq<real>>, m: nat, n: nat, r: nat, t: nat, i: nat,
                coeff: real)
    requires Factors(U, S, V, m, n, r) && t < r && i < m && coeff == S[t][t] * U[i][t]
    ensures forall j :: 0 <= j < n ==>
      Approx(U, S, V, m, n, r, t + 1, i, j) == Approx(U, S, V, m, n, r, t, i, j) + coeff * V[j][t]
  {
  }

  /** A zero σ_t adds nothing: the sums of t and of t + 1 terms agree. */
  lemma ZeroSigmaStep(U: seq<seq<real>>, S: seq<seq<real>>, V: seq<seq<real>>, m: nat, n: nat, r: nat, t: nat)
    requires Factors(U, S, V, m, n, r) && t < r && S[t][t] == 0.0
    ensures forall i, j :: 0 <= i < m && 0 <= j < n ==>
      Approx(U, S, V, m, n, r, t + 1, i, j) == Approx(U, S, V, m, n, r, t, i, j)
  {
  }

  /** The loops of low_rank_approx: a fresh m by n matrix, zero to start
      with, to which each term t < k with a non-zero σ_t is added. */
  method Accumulate(m: nat, n: nat, u: array2<real>, s: array2<real>, v: array2<real>, k: nat)
    returns (ak: array2<real>)
    requires Shaped(m, n, u, s, v) && k <= Min(m, n)
    ensures fresh(ak) && ak.Length0 == m && ak.Length1 == n
    ensures Grid(ak) == Approximation(m, n, u, s, v, k)
  {
    ghost var r := Min(m, n);
    ghost var U, S, V := Grid(u), Grid(s), Grid(v);
    ArraysAreFactors(m, n, u, s, v);
    ak := new real[m, n]((i, j) => 0.0);
    for t := 0 to k
      invariant forall i, j :: 0 <= i < m && 0 <= j < n ==> ak[i, j] == Approx(U, S, V, m, n, r, t, i, j)
    {
      var sigma := s[t, t];
      if sigma == 0.0 {
        ZeroSigmaStep(U, S, V, m, n, r, t);
        continue;
      }
      AddTerm(ak, u, v, sigma, t, m, n, U, S, V, r);
    }
    GridIsLowRank(ak, m, n, u, s, v, k);
  }

  /** low_rank_approx: no matrix (null) unless the guards hold; otherwise a
      fresh m by n matrix holding the rank-k approximation for k capped at
      min(m, n). The factors are only read. */
  method LowRankApprox(m: int, n: int, svd: array?<array2?<real>>, k: int) returns (ak: array2?<real>)
    requires svd != null ==> svd.Length == 3
    requires Usable(m, n, svd, k) ==> Shaped(m, n, svd[0], svd[1], svd[2])
    ensures ak == null <==> !Usable(m, n, svd, k)
    ensures ak != null ==>
      Usable(m, n, svd, k) && fresh(ak) && ak.Length0 == m && ak.Length1 == n &&
      Grid(ak) == Approximation(m, n, svd[0], svd[1], svd[2], ClampRank(m, n, k))
  {
    if svd == null || svd[0] == null || svd[1] == null || svd[2] == null {
      return null;
    }
    if m <= 0 || n <= 0 {
      return null;
    }
    var r := if m < n then m else n;
    if k <= 0 {
      return null;
    }
    var rank := k;
    if rank > r {
      rank := r;
    }
    ak := Accumulate(m, n, svd[0], svd[1], svd[2], rank);
  }

  /** An array holding the approximation entry by entry holds the matrix. */
  lemma GridIsLowRank(ak: array2<real>, m: nat, n: nat, u: array2<real>, s: array2<real>, v: array2<real>, k: nat)
    requires Shaped(m, n, u, s, v) && k <= Min(m, n) && ak.Length0 == m && ak.Length1 == n
    requires Factors(Grid(u), Grid(s), Grid(v), m, n, Min(m, n))
    requires forall i, j :: 0 <= i < m && 0 <= j < n ==>
      ak[i, j] == Approx(Grid(u), Grid(s), Grid(v), m, n, Min(m, n), k, i, j)
    ensures Grid(ak) == Approximation(m, n, u, s, v, k)
  {
    var A, L := Grid(ak), Approximation(m, n, u, s, v, k);
    forall i | 0 <= i < m
      ensures A[i] == L[i]
    {
    }
  }

  // ---------------------------------------------------------------------------
  // Properties

  /** The terms the source skips are zero: a zero σ_t, or a zero U[i][t]. */
  lemma SkippedTermsVanish(U: seq<seq<real>>, S: seq<seq<real>>, V: seq<seq<real>>, m: nat, n: nat, r: nat,
                           t: nat, i: nat, j: nat)
    requires Factors(U, S, V, m, n, r) && t < r && i < m && j < n
    requires S[t][t] == 0.0 || U[i][t] == 0.0
    ensures Term(U, S, V, m, n, r, t, i, j) == 0.0
  {
  }

  /** Every k at or above min(m, n) gives the same approximation as
      k = min(m, n). */
  lemma ClampedRanksAgree(m: int, n: int, k: int)
    requires Min(m, n) <= k
    ensures ClampRank(m, n, k) == ClampRank(m, n, Min(m, n)) == Min(m, n)
  {
  }

  /** σ · u · vᵗ, the rank-one matrix of term t. */
  function RankOne(U: seq<seq<real>>, S: seq<seq<real>>, V: seq<seq<real>>, m: nat, n: nat, r: nat, t: nat)
    : (R: seq<seq<real>>)
    requires Factors(U, S, V, m, n, r) && t < r
    ensures IsMatrix(R, m, n)
  {
    seq(m, i requires 0 <= i < m => seq(n, j requires 0 <= j < n => (S[t][t] * U[i][t]) * V[j][t]))
  }

  /** The entrywise sum of two m by n matrices. */
  function Sum(A: seq<seq<real>>, B: seq<seq<real>>, m: nat, n: nat): (C: seq<seq<real>>)
    requires IsMatrix(A, m, n) && IsMatrix(B, m, n)
    ensures IsMatrix(C, m, n)
  {
    seq(m, i requires 0 <= i < m => seq(n, j requires 0 <= j < n => A[i][j] + B[i][j]))
  }

  /** One more rank adds one more rank-one matrix: A_{k+1} = A_k + σ_k u_k v_kᵗ. */
  lemma LowRankStep(U: seq<seq<real>>, S: seq<seq<real>>, V: seq<seq<real>>, m: nat, n: nat, r: nat, k: nat)
    requires Factors(U, S, V, m, n, r) && k < r
    ensures LowRankMatrix(U, S, V, m, n, r, k + 1) ==
      Sum(LowRankMatrix(U, S, V, m, n, r, k), RankOne(U, S, V, m, n, r, k), m, n)
  {
    var L := LowRankMatrix(U, S, V, m, n, r, k + 1);
    var R := Sum(LowRankMatrix(U, S, V, m, n, r, k), RankOne(U, S, V, m, n, r, k), m, n);
    forall i | 0 <= i < m
      ensures L[i] == R[i]
    {
      forall j | 0 <= j < n
        ensures L[i][j] == R[i][j]
      {
      }
    }
  }

  /** The leading rows by cols block of A. */
  function Leading(A: seq<seq<real>>, rows: nat, cols: nat): (B: seq<seq<real>>)
    requires rows <= |A| && forall i :: 0 <= i < rows ==> cols <= |A[i]|
    ensures IsMatrix(B, rows, cols)
  {
    seq(rows, i requires 0 <= i < rows => A[i][..cols])
  }

  /** S is zero off the diagonal within its leading k by k block. */
  predicate DiagonalUpTo(S: seq<seq<real>>, k: nat)
    requires k <= |S| && forall t :: 0 <= t < k ==> k <= |S[t]|
  {
    forall t, t' :: 0 <= t < k && 0 <= t' < k && t != t' ==> S[t][t'] == 0.0
  }

  /** Against a diagonal S, row i of U_k Σ_k keeps U[i][t] σ_t. */
  lemma {:induction false} DiagonalProductEntry(U: seq<seq<real>>, S: seq<seq<real>>, m: nat, k: nat,
                                                i: nat, t: nat, l: nat)
    requires m <= |U| && (forall i' :: 0 <= i' < m ==> k <= |U[i']|)
    requires k <= |S| && (forall t' :: 0 <= t' < k ==> k <= |S[t']|) && DiagonalUpTo(S, k)
    requires i < m && t < k && l <= k
    ensures MulSum(Leading(U, m, k), Leading(S, k, k), i, t, l) == if t < l then U[i][t] * S[t][t] else 0.0
  {
    if l > 0 {
      DiagonalProductEntry(U, S, m, k, i, t, l - 1);
    }
  }

  /** Summing U_k Σ_k against V_kᵗ term by term gives the approximation. */
  lemma {:induction false} FactoredSum(U: seq<seq<real>>, S: seq<seq<real>>, V: seq<seq<real>>, m: nat, n: nat,
                                       k: nat, i: nat, j: nat, l: nat)
    requires Factors(U, S, V, m, n, k) && DiagonalUpTo(S, k) && i < m && j < n && l <= k
    ensures MulSum(Product(Leading(U, m, k), Leading(S, k, k), m, k, k), Transposed(Leading(V, n, k), n, k), i, j, l)
      == Approx(U, S, V, m, n, k, l, i, j)
  {
    if l > 0 {
      FactoredSum(U, S, V, m, n, k, i, j, l - 1);
      DiagonalProductEntry(U, S, m, k, i, l - 1, k);
    }
  }

  /** The approximation is the product of the leading factors:
      A_k = U_k Σ_k V_kᵗ whenever S is diagonal, as svd builds it. */
  lemma LowRankIsProduct(U: seq<seq<real>>, S: seq<seq<real>>, V: seq<seq<real>>, m: nat, n: nat, k: nat)
    requires Factors(U, S, V, m, n, k) && DiagonalUpTo(S, k)
    ensures LowRankMatrix(U, S, V, m, n, k, k) ==
      Product(Product(Leading(U, m, k), Leading(S, k, k), m, k, k), Transposed(Leading(V, n, k), n, k), m, k, n)
  {
    var L := LowRankMatrix(U, S, V, m, n, k, k);
    var P := Product(Product(Leading(U, m, k), Leading(S, k, k), m, k, k), Transposed(Leading(V, n, k), n, k), m, k, n);
    forall i | 0 <= i < m
      ensures L[i] == P[i]
    {
      forall j | 0 <= j < n
        ensures L[i][j] == P[i][j]
      {
        FactoredSum(U, S, V, m, n, k, i, j, k);
      }
    }
  }
}
