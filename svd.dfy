/** svd (lib/matrix/svd.c): the steps that turn the eigenpairs of AᵗA into
    the three factors U, S and V. */
module Svd {
  import opened Grids
  import opened Matrix
  import LowRank

  /** The threshold below which a singular value or a norm counts as zero. */
  const Eps: real := 0.000_000_000_001

  // ---------------------------------------------------------------------------
  // Sorting the eigenpairs

  predicate NonIncreasing(E: seq<real>) {
    forall a, b :: 0 <= a < b < |E| ==> E[a] >= E[b]
  }

  /** perm lists 0 .. n-1, each once. */
  predicate IsPermutation(perm: seq<nat>, n: nat) {
    |perm| == n && (forall x :: 0 <= x < n ==> perm[x] < n) &&
    (forall x, y :: 0 <= x < y < n ==> perm[x] != perm[y])
  }

  /** s with its entries j and j + 1 exchanged. */
  function SwapAt<T>(s: seq<T>, j: nat): (t: seq<T>)
    requires j + 1 < |s|
    ensures |t| == |s| && t[j] == s[j + 1] && t[j + 1] == s[j]
    ensures forall x :: 0 <= x < |s| && x != j && x != j + 1 ==> t[x] == s[x]
  {
    s[j := s[j + 1]][j + 1 := s[j]]
  }

  /** G with its columns j and j + 1 exchanged. */
  function SwapColumns(G: seq<seq<real>>, n: nat, j: nat): (H: seq<seq<real>>)
    requires IsMatrix(G, n, n) && j + 1 < n
    ensures IsMatrix(H, n, n)
  {
    seq(n, k requires 0 <= k < n => SwapAt(G[k], j))
  }

  /** E and the columns of G are E0 and the columns of G0 reordered by perm:
      position x holds the eigenpair that started at perm[x], and equal
      eigenvalues keep the order they started in. */
  ghost predicate Rearranged(E: seq<real>, G: seq<seq<real>>, E0: seq<real>, G0: seq<seq<real>>,
                             perm: seq<nat>, n: nat)
  {
    |E| == n && |E0| == n && IsMatrix(G, n, n) && IsMatrix(G0, n, n) && IsPermutation(perm, n) &&
    (forall x :: 0 <= x < n ==> E[x] == E0[perm[x]]) &&
    (forall k, x :: 0 <= k < n && 0 <= x < n ==> G[k][x] == G0[k][perm[x]]) &&
    (forall a, b :: 0 <= a < b < n && E[a] == E[b] ==> perm[a] < perm[b])
  }

  /** The identity arrangement. */
  lemma RearrangedStart(E: seq<real>, G: seq<seq<real>>, n: nat)
    requires |E| == n && IsMatrix(G, n, n)
    ensures Rearranged(E, G, E, G, seq(n, x => x), n)
  {
  }

  /** Exchanging two neighbouring eigenpairs whose eigenvalues are out of
      order keeps the arrangement a stable permutation. */
  lemma SwapRearranged(E: seq<real>, G: seq<seq<real>>, E0: seq<real>, G0: seq<seq<real>>,
                       perm: seq<nat>, n: nat, j: nat)
    requires Rearranged(E, G, E0, G0, perm, n) && j + 1 < n && E[j] < E[j + 1]
    ensures Rearranged(SwapAt(E, j), SwapColumns(G, n, j), E0, G0, SwapAt(perm, j), n)
  {
    var E', G', perm' := SwapAt(E, j), SwapColumns(G, n, j), SwapAt(perm, j);
    assert IsPermutation(perm', n) by {
      forall x, y | 0 <= x < y < n
        ensures perm'[x] != perm'[y]
      {
        var x' := if x == j then j + 1 else if x == j + 1 then j else x;
        var y' := if y == j then j + 1 else if y == j + 1 then j else y;
        assert perm'[x] == perm[x'] && perm'[y] == perm[y'] && x' != y';
      }
    }
    forall a, b | 0 <= a < b < n && E'[a] == E'[b]
      ensures perm'[a] < perm'[b]
    {
      var a' := if a == j then j + 1 else if a == j + 1 then j else a;
      var b' := if b == j then j + 1 else if b == j + 1 then j else b;
      assert E'[a] == E[a'] && E'[b] == E[b'] && perm'[a] == perm[a'] && perm'[b] == perm[b'];
      assert a' < b';
    }
  }

  /** Entry by entry, H is G with columns j and j + 1 exchanged. */
  lemma ColumnsSwapped(G: seq<seq<real>>, H: seq<seq<real>>, n: nat, j: nat)
    requires IsMatrix(G, n, n) && IsMatrix(H, n, n) && j + 1 < n
    requires forall k :: 0 <= k < n ==> H[k][j] == G[k][j + 1] && H[k][j + 1] == G[k][j]
    requires forall k, x :: 0 <= k < n && 0 <= x < n && x != j && x != j + 1 ==> H[k][x] == G[k][x]
    ensures H == SwapColumns(G, n, j)
  {
    var S := SwapColumns(G, n, j);
    forall k | 0 <= k < n
      ensures H[k] == S[k]
    {
    }
  }

  /** The first column loop of the swap: a fresh copy of column j. */
  method ReadColumn(evec: array2<real>, n: nat, j: nat) returns (col: array<real>)
    requires evec.Length0 == n && j < evec.Length1
    ensures fresh(col) && col.Length == n
    ensures forall k :: 0 <= k < n ==> col[k] == evec[k, j]
  {
    col := new real[n];
    for k := 0 to n
      invariant forall k' :: 0 <= k' < k ==> col[k'] == evec[k', j]
    {
      col[k] := evec[k, j];
    }
  }

  /** The second column loop of the swap: column `from` copied over column `to`. */
  method CopyColumnWithin(evec: array2<real>, n: nat, from: nat, to: nat)
    requires evec.Length0 == n && evec.Length1 == n && from < n && to < n && from != to
    modifies evec
    ensures forall k :: 0 <= k < n ==> evec[k, to] == old(evec[k, from])
    ensures forall k, x :: 0 <= k < n && 0 <= x < n && x != to ==> evec[k, x] == old(evec[k, x])
  {
    for k := 0 to n
      invariant forall k' :: 0 <= k' < k ==> evec[k', to] == old(evec[k', from])
      invariant forall k', x :: 0 <= k' < n && 0 <= x < n && x != to ==> evec[k', x] == old(evec[k', x])
    {
      evec[k, to] := evec[k, from];
    }
  }

  /** The third column loop of the swap: the saved column written into column `to`. */
  method LoadColumn(evec: array2<real>, n: nat, to: nat, col: array<real>)
    requires evec.Length0 == n && evec.Length1 == n && to < n && col.Length == n
    modifies evec
    ensures forall k :: 0 <= k < n ==> evec[k, to] == col[k]
    ensures forall k, x :: 0 <= k < n && 0 <= x < n && x != to ==> evec[k, x] == old(evec[k, x])
  {
    for k := 0 to n
      invariant forall k' :: 0 <= k' < k ==> evec[k', to] == col[k']
      invariant forall k', x :: 0 <= k' < n && 0 <= x < n && x != to ==> evec[k', x] == old(evec[k', x])
    {
      evec[k, to] := col[k];
    }
  }

  /** Exchanges the eigenpairs at j and j + 1: the eigenvalues through a
      temporary, the eigenvector columns through a temporary column. */
  method SwapEigenpairs(ev: array<real>, evec: array2<real>, n: nat, j: nat)
    requires ev.Length == n && evec.Length0 == n && evec.Length1 == n && j + 1 < n
    modifies ev, evec
    ensures ev[..] == SwapAt(old(ev[..]), j)
    ensures Grid(evec) == SwapColumns(old(Grid(evec)), n, j)
  {
    ghost var G := Grid(evec);
    var temp := ev[j];
    ev[j] := ev[j + 1];
    ev[j + 1] := temp;
    var tempVec := ReadColumn(evec, n, j);
    CopyColumnWithin(evec, n, j + 1, j);
    LoadColumn(evec, n, j + 1, tempVec);
    ColumnsSwapped(G, Grid(evec), n, j);
  }

  /** Positions from t on are in non-increasing order, and every entry
      before t is at least every entry from t on. */
  predicate SortedFrom(E: seq<real>, t: nat) {
    (forall a, b :: t <= a < b < |E| ==> E[a] >= E[b]) &&
    (forall a, b :: 0 <= a < t <= b < |E| ==> E[a] >= E[b])
  }

  /** One pass of the bubble sort over positions 0 .. last: the smallest of
      them ends at last. */
  method BubblePass(ev: array<real>, evec: array2<real>, n: nat, last: nat,
                    ghost E0: seq<real>, ghost G0: seq<seq<real>>, ghost perm0: seq<nat>)
    returns (ghost perm: seq<nat>)
    requires ev.Length == n && evec.Length0 == n && evec.Length1 == n && last < n
    requires SortedFrom(ev[..], last + 1) && Rearranged(ev[..], Grid(evec), E0, G0, perm0, n)
    modifies ev, evec
    ensures SortedFrom(ev[..], last) && Rearranged(ev[..], Grid(evec), E0, G0, perm, n)
  {
    perm := perm0;
    for j := 0 to last
      invariant SortedFrom(ev[..], last + 1) && Rearranged(ev[..], Grid(evec), E0, G0, perm, n)
      invariant SmallestLast(ev[..], j)
    {
      ghost var E := ev[..];
      BubbleStep(E, last, j);
      if ev[j] < ev[j + 1] {
        SwapRearranged(E, Grid(evec), E0, G0, perm, n, j);
        SwapEigenpairs(ev, evec, n, j);
        perm := SwapAt(perm, j);
      }
    }
  }

  /** Position j holds the smallest of positions 0 .. j. */
  predicate SmallestLast(E: seq<real>, j: nat)
    requires j < |E|
  {
    forall a :: 0 <= a <= j ==> E[a] >= E[j]
  }

  /** One compare-and-swap of the pass carries the smallest value along and
      leaves the sorted tail alone. */
  lemma BubbleStep(E: seq<real>, last: nat, j: nat)
    requires j < last < |E| && SortedFrom(E, last + 1) && SmallestLast(E, j)
    ensures var E' := if E[j] < E[j + 1] then SwapAt(E, j) else E;
      SortedFrom(E', last + 1) && SmallestLast(E', j + 1)
  {
    if E[j] < E[j + 1] {
      var E' := SwapAt(E, j);
      assert forall a :: 0 <= a < |E| && a != j && a != j + 1 ==> E'[a] == E[a];
    }
  }

  /** The bubble sort of svd: eigenvalues in non-increasing order, each
      eigenvector column moved with its eigenvalue, equal eigenvalues in
      their original order (the swap needs a strict <). */
  method SortEigenpairs(ev: array<real>, evec: array2<real>, n: nat) returns (ghost perm: seq<nat>)
    requires ev.Length == n && evec.Length0 == n && evec.Length1 == n
    modifies ev, evec
    ensures NonIncreasing(ev[..])
    ensures Rearranged(ev[..], Grid(evec), old(ev[..]), old(Grid(evec)), perm, n)
  {
    ghost var E0, G0 := ev[..], Grid(evec);
    perm := seq(n, x => x);
    RearrangedStart(E0, G0, n);
    var i := 0;
    while i < n - 1
      invariant i <= n && (n == 0 || i <= n - 1)
      invariant SortedFrom(ev[..], n - i) && Rearranged(ev[..], Grid(evec), E0, G0, perm, n)
    {
      perm := BubblePass(ev, evec, n, n - i - 1, E0, G0, perm);
      i := i + 1;
    }
  }

  /** Column x of G is an eigenvector of M for eigenvalue lambda. */
  predicate IsEigenpair(M: seq<seq<real>>, G: seq<seq<real>>, n: nat, x: nat, lambda: real)
    requires IsMatrix(M, n, n) && IsMatrix(G, n, n) && x < n
  {
    forall i :: 0 <= i < n ==> MulSum(M, G, i, x, n) == lambda * G[i][x]
  }

  /** Row i of M times column x of G depends only on that column. */
  lemma {:induction false} MulSumSameColumn(M: seq<seq<real>>, G: seq<seq<real>>, H: seq<seq<real>>, n: nat,
                                            i: nat, x: nat, y: nat, l: nat)
    requires IsMatrix(M, n, n) && IsMatrix(G, n, n) && IsMatrix(H, n, n) && i < n && x < n && y < n && l <= n
    requires forall k :: 0 <= k < n ==> G[k][x] == H[k][y]
    ensures MulSum(M, G, i, x, l) == MulSum(M, H, i, y, l)
  {
    if l > 0 {
      MulSumSameColumn(M, G, H, n, i, x, y, l - 1);
    }
  }

  /** The sort keeps eigenpairs intact: if every (E0[x], column x of G0) is
      an eigenpair of M, so is every (E[x], column x of G). */
  lemma EigenpairsKept(M: seq<seq<real>>, E: seq<real>, G: seq<seq<real>>, E0: seq<real>, G0: seq<seq<real>>,
                       perm: seq<nat>, n: nat)
    requires IsMatrix(M, n, n) && Rearranged(E, G, E0, G0, perm, n)
    requires forall x :: 0 <= x < n ==> IsEigenpair(M, G0, n, x, E0[x])
    ensures forall x :: 0 <= x < n ==> IsEigenpair(M, G, n, x, E[x])
  {
    forall x | 0 <= x < n
      ensures IsEigenpair(M, G, n, x, E[x])
    {
      var y := perm[x];
      assert IsEigenpair(M, G0, n, y, E0[y]);
      forall i | 0 <= i < n
        ensures MulSum(M, G, i, x, n) == E[x] * G[i][x]
      {
        MulSumSameColumn(M, G, G0, n, i, x, y, n);
      }
    }
  }

  // ---------------------------------------------------------------------------
  // V and S

  /** V: an entry-by-entry copy of the sorted eigenvector matrix. */
  method BuildV(evec: array2<real>, n: nat) returns (v: array2<real>)
    requires evec.Length0 == n && evec.Length1 == n
    ensures fresh(v) && v.Length0 == n && v.Length1 == n && Grid(v) == Grid(evec)
  {
    v := new real[n, n];
    for i := 0 to n
      invariant forall i', j :: 0 <= i' < i && 0 <= j < n ==> v[i', j] == evec[i', j]
    {
      for j := 0 to n
        invariant forall i', j' :: 0 <= i' < i && 0 <= j' < n ==> v[i', j'] == evec[i', j']
        invariant forall j' :: 0 <= j' < j ==> v[i, j'] == evec[i, j']
      {
        v[i, j] := evec[i, j];
      }
    }
    assert forall i :: 0 <= i < n ==> Grid(v)[i] == Grid(evec)[i];
  }

  /** The singular value of eigenvalue e: its square root when e is
      positive, zero otherwise. */
  function SingularValue(e: real, sqrt: real -> real): real {
    if e > 0.0 then sqrt(e) else 0.0
  }

  /** S: m by n, the singular values of E on the diagonal, zero elsewhere. */
  function SMatrix(E: seq<real>, m: nat, n: nat, sqrt: real -> real): (S: seq<seq<real>>)
    requires |E| == n
    ensures IsMatrix(S, m, n)
  {
    seq(m, i requires 0 <= i < m => seq(n, j requires 0 <= j < n => if i == j then SingularValue(E[i], sqrt) else 0.0))
  }

  /** Builds S row by row. */
  method BuildS(ev: array<real>, m: nat, n: nat, sqrt: real -> real) returns (s: array2<real>)
    requires ev.Length == n
    ensures fresh(s) && s.Length0 == m && s.Length1 == n && Grid(s) == SMatrix(ev[..], m, n, sqrt)
  {
    s := new real[m, n];
    ghost var S := SMatrix(ev[..], m, n, sqrt);
    for i := 0 to m
      invariant forall i', j :: 0 <= i' < i && 0 <= j < n ==> s[i', j] == S[i'][j]
    {
      for j := 0 to n
        invariant forall i', j' :: 0 <= i' < i && 0 <= j' < n ==> s[i', j'] == S[i'][j']
        invariant forall j' :: 0 <= j' < j ==> s[i, j'] == S[i][j']
      {
        if i == j {
          s[i, j] := if ev[i] > 0.0 then sqrt(ev[i]) else 0.0;
        } else {
          s[i, j] := 0.0;
        }
      }
    }
    assert forall i :: 0 <= i < m ==> Grid(s)[i] == S[i];
  }

  /** A singular value is non-negative, squares back to its positive
      eigenvalue, and is zero for an eigenvalue that is not positive. */
  lemma SingularValueSquares(e: real, sqrt: real -> real)
    requires IsSqrt(sqrt)
    ensures SingularValue(e, sqrt) >= 0.0
    ensures e > 0.0 ==> SingularValue(e, sqrt) > 0.0 && Square(SingularValue(e, sqrt)) == e
    ensures e <= 0.0 ==> SingularValue(e, sqrt) == 0.0
  {
    if e > 0.0 {
      SqrtPositive(sqrt, e);
    }
  }

  /** Squaring is strictly increasing on the non-negative reals. */
  lemma SquareIncreasing(x: real, y: real)
    requires 0.0 <= x < y
    ensures Square(x) < Square(y)
  {
    calc {
      Square(x);
      == x * x;
      <= x * y;
      < y * y;
      == Square(y);
    }
  }

  /** A larger eigenvalue never has a smaller singular value. */
  lemma SingularValueMonotone(a: real, b: real, sqrt: real -> real)
    requires IsSqrt(sqrt) && b <= a
    ensures SingularValue(b, sqrt) <= SingularValue(a, sqrt)
  {
    SingularValueSquares(a, sqrt);
    SingularValueSquares(b, sqrt);
    var x, y := SingularValue(a, sqrt), SingularValue(b, sqrt);
    if b > 0.0 && x < y {
      SquareIncreasing(x, y);
    }
  }

  /** Every entry of S is non-negative, S is zero off its diagonal, and for
      sorted eigenvalues its diagonal is non-increasing. */
  lemma SMatrixShape(E: seq<real>, m: nat, n: nat, sqrt: real -> real)
    requires IsSqrt(sqrt) && |E| == n && NonIncreasing(E)
    ensures forall i, j :: 0 <= i < m && 0 <= j < n ==> SMatrix(E, m, n, sqrt)[i][j] >= 0.0
    ensures forall i, j :: 0 <= i < m && 0 <= j < n && i != j ==> SMatrix(E, m, n, sqrt)[i][j] == 0.0
    ensures forall i, i' :: 0 <= i < i' < m && i' < n ==>
      SMatrix(E, m, n, sqrt)[i][i] >= SMatrix(E, m, n, sqrt)[i'][i']
  {
    var S := SMatrix(E, m, n, sqrt);
    forall i, j | 0 <= i < m && 0 <= j < n
      ensures S[i][j] >= 0.0
    {
      SingularValueSquares(E[j], sqrt);
    }
    forall i, i' | 0 <= i < i' < m && i' < n
      ensures S[i][i] >= S[i'][i']
    {
      SingularValueMonotone(E[i], E[i'], sqrt);
    }
  }

  // ---------------------------------------------------------------------------
  // The first r columns of U

  /** Entry (row, i) of U before orthonormalisation: row of A times column i
      of V, over σ_i; zero when σ_i is below Eps. */
  function LeftEntry(A: seq<seq<real>>, V: seq<seq<real>>, m: nat, n: nat, sigma: real, row: nat, i: nat): real
    requires IsMatrix(A, m, n) && IsMatrix(V, n, n) && row < m && i < n
  {
    if sigma < Eps then 0.0 else MulSum(A, V, row, i, n) / sigma
  }

  /** σ_i u_i = A v_i for a σ_i at or above Eps, and u_i = 0 below it. */
  lemma LeftEntryScales(A: seq<seq<real>>, V: seq<seq<real>>, m: nat, n: nat, sigma: real, row: nat, i: nat)
    requires IsMatrix(A, m, n) && IsMatrix(V, n, n) && row < m && i < n
    ensures sigma >= Eps ==> sigma * LeftEntry(A, V, m, n, sigma, row, i) == Product(A, V, m, n, n)[row][i]
    ensures sigma < Eps ==> LeftEntry(A, V, m, n, sigma, row, i) == 0.0
  {
  }

  /** Column i of U: zeros for a σ below Eps, otherwise A v_i / σ. */
  method LeftColumn(a: array2<real>, v: array2<real>, u: array2<real>, m: nat, n: nat, i: nat, sigma: real)
    requires a.Length0 == m && a.Length1 == n && v.Length0 == n && v.Length1 == n
    requires u.Length0 == m && u.Length1 == m && i < m && i < n && u != a && u != v
    modifies u
    ensures forall row :: 0 <= row < m ==> u[row, i] == LeftEntry(Grid(a), Grid(v), m, n, sigma, row, i)
    ensures forall row, x :: 0 <= row < m && 0 <= x < m && x != i ==> u[row, x] == old(u[row, x])
  {
    if sigma < Eps {
      for row := 0 to m
        invariant forall row' :: 0 <= row' < row ==> u[row', i] == 0.0
        invariant forall row', x :: 0 <= row' < m && 0 <= x < m && x != i ==> u[row', x] == old(u[row', x])
      {
        u[row, i] := 0.0;
      }
      return;
    }
    for row := 0 to m
      invariant forall row' :: 0 <= row' < row ==> u[row', i] == LeftEntry(Grid(a), Grid(v), m, n, sigma, row', i)
      invariant forall row', x :: 0 <= row' < m && 0 <= x < m && x != i ==> u[row', x] == old(u[row', x])
    {
      var sum := EntrySum(a, v, row, i);
      u[row, i] := sum / sigma;
    }
  }

  /** The first r = min(m, n) columns of U, from the diagonal of S. */
  method LeftColumns(a: array2<real>, v: array2<real>, s: array2<real>, u: array2<real>, m: nat, n: nat)
    requires a.Length0 == m && a.Length1 == n && v.Length0 == n && v.Length1 == n
    requires s.Length0 == m && s.Length1 == n && u.Length0 == m && u.Length1 == m
    requires u != a && u != v && u != s
    modifies u
    ensures forall row, i :: 0 <= row < m && 0 <= i < m && i < n ==>
      u[row, i] == LeftEntry(Grid(a), Grid(v), m, n, s[i, i], row, i)
    ensures forall row, x :: 0 <= row < m && n <= x < m ==> u[row, x] == old(u[row, x])
  {
    var r := if m < n then m else n;
    for i := 0 to r
      invariant forall row, i' :: 0 <= row < m && 0 <= i' < i ==>
        u[row, i'] == LeftEntry(Grid(a), Grid(v), m, n, s[i', i'], row, i')
      invariant forall row, x :: 0 <= row < m && i <= x < m ==> u[row, x] == old(u[row, x])
    {
      var sigma := s[i, i];
      LeftColumn(a, v, u, m, n, i, sigma);
    }
  }

  // ---------------------------------------------------------------------------
  // Gram-Schmidt on the first r columns

  /** Σ x[t]·y[t]. */
  function Dot(x: seq<real>, y: seq<real>): real
    requires |x| == |y|
  {
    if |x| == 0 then 0.0 else Dot(x[..|x| - 1], y[..|x| - 1]) + x[|x| - 1] * y[|x| - 1]
  }

  /** c - d·b, entry by entry. */
  function Subtracted(c: seq<real>, d: real, b: seq<real>): (y: seq<real>)
    requires |b| == |c|
    ensures |y| == |c|
  {
    seq(|c|, t requires 0 <= t < |c| => c[t] - d * b[t])
  }

  /** One projection step: c minus its component along b. */
  function Project(c: seq<real>, b: seq<real>): (y: seq<real>)
    requires |b| == |c|
    ensures |y| == |c|
  {
    Subtracted(c, Dot(b, c), b)
  }

  /** c after the projection steps against columns 0 .. j-1 of G, in order
      (modified Gram-Schmidt). */
  function ProjectAll(c: seq<real>, G: seq<seq<real>>, j: nat): (y: seq<real>)
    requires IsMatrix(G, |c|, |c|) && j <= |c|
    ensures |y| == |c|
  {
    if j == 0 then c else Project(ProjectAll(c, G, j - 1), Column(G, |c|, j - 1))
  }

  /** The unit vector e_i of length m (all zeros when i is not below m). */
  function Unit(m: nat, i: nat): (e: seq<real>)
    ensures |e| == m
  {
    seq(m, row => if row == i then 1.0 else 0.0)
  }

  /** The Euclidean norm. */
  function Norm(x: seq<real>, sqrt: real -> real): real {
    sqrt(SumSquares(x))
  }

  /** The normalisation step: c over its norm, or e_i when the norm is
      below Eps. */
  function Finish(c: seq<real>, i: nat, sqrt: real -> real): (y: seq<real>)
    ensures |y| == |c|
  {
    var norm := Norm(c, sqrt);
    if norm < Eps then Unit(|c|, i) else Divided(c, norm)
  }

  /** A vector's dot product with itself is its sum of squares. */
  lemma {:induction false} DotSelf(x: seq<real>)
    ensures Dot(x, x) == SumSquares(x)
  {
    if |x| > 0 {
      DotSelf(x[..|x| - 1]);
    }
  }

  /** Dot products distribute over a difference in their second argument. */
  lemma {:induction false} DotMinus(b: seq<real>, c: seq<real>, e: seq<real>)
    requires |b| == |c| == |e|
    ensures Dot(b, seq(|c|, t requires 0 <= t < |c| => c[t] - e[t])) == Dot(b, c) - Dot(b, e)
  {
    var y := seq(|c|, t requires 0 <= t < |c| => c[t] - e[t]);
    if |b| > 0 {
      var k := |b| - 1;
      DotMinus(b[..k], c[..k], e[..k]);
      assert y[..k] == seq(k, t requires 0 <= t < k => c[..k][t] - e[..k][t]);
      DistributeMinus(b[k], c[k], e[k], y[k]);
    }
  }

  /** Dot products scale with a factor of their second argument. */
  lemma {:induction false} DotScaled(b: seq<real>, x: seq<real>, d: real)
    requires |b| == |x|
    ensures Dot(b, seq(|x|, t requires 0 <= t < |x| => d * x[t])) == d * Dot(b, x)
  {
    var y := seq(|x|, t requires 0 <= t < |x| => d * x[t]);
    if |b| > 0 {
      var k := |b| - 1;
      DotScaled(b[..k], x[..k], d);
      var y' := seq(k, t requires 0 <= t < k => d * x[..k][t]);
      assert forall t :: 0 <= t < k ==> y[..k][t] == y'[t];
      assert y[..k] == y';
      DistributeScale(b[k], x[k], d, y[k], Dot(b[..k], x[..k]));
    }
  }

  lemma DistributeMinus(bk: real, ck: real, ek: real, yk: real)
    requires yk == ck - ek
    ensures bk * yk == bk * ck - bk * ek
  {
  }

  lemma DistributeScale(bk: real, xk: real, d: real, yk: real, rest: real)
    requires yk == d * xk
    ensures d * rest + bk * yk == d * (rest + bk * xk)
  {
  }

  /** Dot products are linear in their second argument: a·(c - d·b). */
  lemma DotSubtractedBy(a: seq<real>, c: seq<real>, d: real, b: seq<real>)
    requires |a| == |b| == |c|
    ensures Dot(a, Subtracted(c, d, b)) == Dot(a, c) - d * Dot(a, b)
  {
    var e := seq(|b|, t requires 0 <= t < |b| => d * b[t]);
    var z := seq(|c|, t requires 0 <= t < |c| => c[t] - e[t]);
    forall t | 0 <= t < |c|
      ensures Subtracted(c, d, b)[t] == z[t]
    {
    }
    assert Subtracted(c, d, b) == z;
    DotScaled(a, b, d);
    DotMinus(a, c, e);
  }

  /** The same with a = b: b·(c - d·b) = b·c - d·(b·b). */
  lemma DotSubtracted(b: seq<real>, c: seq<real>, d: real)
    requires |b| == |c|
    ensures Dot(b, Subtracted(c, d, b)) == Dot(b, c) - d * Dot(b, b)
  {
    DotSubtractedBy(b, c, d, b);
  }

  /** After a projection step against a unit vector b, the result is
      orthogonal to b. */
  lemma ProjectionOrthogonal(c: seq<real>, b: seq<real>)
    requires |b| == |c| && SumSquares(b) == 1.0
    ensures Dot(b, Project(c, b)) == 0.0
  {
    DotSubtracted(b, c, Dot(b, c));
    DotSelf(b);
  }

  /** The sum of squares of the first k entries of e_i. */
  lemma {:induction false} UnitPrefixSquares(m: nat, i: nat, k: nat)
    requires k <= m
    ensures SumSquares(Unit(m, i)[..k]) == if i < k then 1.0 else 0.0
  {
    if k > 0 {
      UnitPrefixSquares(m, i, k - 1);
      assert Unit(m, i)[..k][..k - 1] == Unit(m, i)[..k - 1];
    }
  }

  /** e_i is a unit vector when i < m. */
  lemma UnitIsUnit(m: nat, i: nat)
    requires i < m
    ensures SumSquares(Unit(m, i)) == 1.0
  {
    UnitPrefixSquares(m, i, m);
    assert Unit(m, i)[..m] == Unit(m, i);
  }

  /** The normalisation step always ends in a unit vector: either c over a
      norm of at least Eps, or the fallback e_i. */
  lemma FinishIsUnit(c: seq<real>, i: nat, sqrt: real -> real)
    requires IsSqrt(sqrt) && i < |c|
    ensures SumSquares(Finish(c, i, sqrt)) == 1.0
  {
    var norm := Norm(c, sqrt);
    if norm < Eps {
      UnitIsUnit(|c|, i);
    } else {
      NormalizedIsUnit(c, norm);
    }
  }

  /** A zero column stays zero under projection, so it falls back to e_i:
      the fate of a column whose σ was below Eps. */
  lemma {:induction false} ZeroColumnFallsBack(G: seq<seq<real>>, m: nat, i: nat, j: nat, sqrt: real -> real)
    requires IsSqrt(sqrt) && IsMatrix(G, m, m) && j <= m
    ensures ProjectAll(Unit(m, m), G, j) == Unit(m, m)
    ensures Finish(ProjectAll(Unit(m, m), G, j), i, sqrt) == Unit(m, i)
  {
    var z := Unit(m, m);
    if j > 0 {
      ZeroColumnFallsBack(G, m, i, j - 1, sqrt);
      var b := Column(G, m, j - 1);
      DotZero(b, z);
      assert Project(z, b) == z;
    }
    UnitPrefixSquares(m, m, m);
    assert z[..m] == z;
    SquareFacts(sqrt(0.0));
  }

  /** Anything dotted with the zero vector is zero. */
  lemma {:induction false} DotZero(b: seq<real>, z: seq<real>)
    requires |b| == |z| && forall t :: 0 <= t < |z| ==> z[t] == 0.0
    ensures Dot(b, z) == 0.0
  {
    if |b| > 0 {
      DotZero(b[..|b| - 1], z[..|b| - 1]);
    }
  }

  /** Columns 0 .. j-1 of G are pairwise orthogonal. */
  ghost predicate OrthogonalColumns(G: seq<seq<real>>, m: nat, j: nat)
    requires IsMatrix(G, m, m) && j <= m
  {
    forall l, k :: 0 <= l < k < j ==> Dot(Column(G, m, l), Column(G, m, k)) == 0.0
  }

  /** Columns 0 .. j-1 of G are unit vectors. */
  ghost predicate UnitColumns(G: seq<seq<real>>, m: nat, j: nat)
    requires IsMatrix(G, m, m) && j <= m
  {
    forall l :: 0 <= l < j ==> SumSquares(Column(G, m, l)) == 1.0
  }

  /** Against orthonormal columns 0 .. j-1, the projection steps leave c
      orthogonal to each of them: step l clears the component along column
      l, and the later steps, along columns orthogonal to it, keep it
      cleared. */
  lemma {:induction false} ProjectAllOrthogonal(c: seq<real>, G: seq<seq<real>>, j: nat, l: nat)
    requires IsMatrix(G, |c|, |c|) && l < j <= |c|
    requires OrthogonalColumns(G, |c|, j) && UnitColumns(G, |c|, j)
    ensures Dot(Column(G, |c|, l), ProjectAll(c, G, j)) == 0.0
    decreases j
  {
    var y := ProjectAll(c, G, j - 1);
    var b := Column(G, |c|, j - 1);
    var a := Column(G, |c|, l);
    assert ProjectAll(c, G, j) == Project(y, b);
    if l == j - 1 {
      assert SumSquares(b) == 1.0;
      ProjectionOrthogonal(y, b);
      assert Dot(a, Project(y, b)) == 0.0;
    } else {
      assert Dot(a, b) == 0.0;
      ProjectAllOrthogonal(c, G, j - 1, l);
      ProjectKeepsOrthogonal(a, y, b);
    }
  }

  /** A projection step along b keeps a vector orthogonal to a when b is. */
  lemma ProjectKeepsOrthogonal(a: seq<real>, y: seq<real>, b: seq<real>)
    requires |a| == |y| == |b| && Dot(a, b) == 0.0 && Dot(a, y) == 0.0
    ensures Dot(a, Project(y, b)) == 0.0
  {
    var d := Dot(b, y);
    assert Project(y, b) == Subtracted(y, d, b);
    DotSubtractedBy(a, y, d, b);
    assert d * Dot(a, b) == 0.0;
  }

  /** Scaling to unit length keeps a vector orthogonal to b, as long as the
      norm is not below Eps (no fallback). */
  lemma FinishOrthogonal(b: seq<real>, c: seq<real>, i: nat, sqrt: real -> real)
    requires |b| == |c| && Dot(b, c) == 0.0 && Norm(c, sqrt) >= Eps
    ensures Dot(b, Finish(c, i, sqrt)) == 0.0
  {
    var norm := Norm(c, sqrt);
    assert Finish(c, i, sqrt) == Divided(c, norm);
    DotDivided(b, c, norm);
  }

  /** Dividing the second argument by r divides the dot product by r. */
  lemma {:induction false} DotDivided(b: seq<real>, c: seq<real>, r: real)
    requires |b| == |c| && r != 0.0
    ensures Dot(b, Divided(c, r)) == (1.0 / r) * Dot(b, c)
  {
    if |b| > 0 {
      var k := |b| - 1;
      DotDivided(b[..k], c[..k], r);
      assert Divided(c, r)[..k] == Divided(c[..k], r);
      assert Dot(b, Divided(c, r)) == Dot(b[..k], Divided(c[..k], r)) + b[k] * Divided(c, r)[k];
      assert Dot(b, c) == Dot(b[..k], c[..k]) + b[k] * c[k];
      DivideTerm(b[k], c[k], r, Divided(c, r)[k], Dot(b[..k], c[..k]));
    }
  }

  lemma DivideTerm(bk: real, ck: real, r: real, yk: real, rest: real)
    requires r != 0.0 && yk == ck / r
    ensures (1.0 / r) * rest + bk * yk == (1.0 / r) * (rest + bk * ck)
  {
  }

  /** A Gram-Schmidt step that takes no fallback extends an orthonormal set:
      the new column is orthogonal to every column before it. */
  lemma OrthonormalizeStep(G: seq<seq<real>>, m: nat, i: nat, sqrt: real -> real)
    requires IsMatrix(G, m, m) && i < m
    requires OrthogonalColumns(G, m, i) && UnitColumns(G, m, i)
    requires Norm(ProjectAll(Column(G, m, i), G, i), sqrt) >= Eps
    ensures forall l :: 0 <= l < i ==>
      Dot(Column(G, m, l), Finish(ProjectAll(Column(G, m, i), G, i), i, sqrt)) == 0.0
  {
    var p := ProjectAll(Column(G, m, i), G, i);
    forall l | 0 <= l < i
      ensures Dot(Column(G, m, l), Finish(p, i, sqrt)) == 0.0
    {
      ProjectAllOrthogonal(Column(G, m, i), G, i, l);
      FinishOrthogonal(Column(G, m, l), p, i, sqrt);
    }
  }

  /** A fallback can break orthogonality: e_i is not projected against the
      earlier columns, so it fails whenever one of them is non-zero at row i.
      Column 0 is the unit vector (h, h) with h = √½; column 1 is zero, as
      U's column is when its σ was below Eps. The step on column 1 falls
      back to e_1, whose dot product with column 0 is h, not 0. */
  lemma FallbackNotOrthogonal(sqrt: real -> real)
    requires IsSqrt(sqrt)
    ensures var h := sqrt(0.5); var G := [[h, 0.0], [h, 0.0]];
      UnitColumns(G, 2, 1) &&
      Finish(ProjectAll(Column(G, 2, 1), G, 1), 1, sqrt) == Unit(2, 1) &&
      Dot(Column(G, 2, 0), Finish(ProjectAll(Column(G, 2, 1), G, 1), 1, sqrt)) == h > 0.0
  {
    var h := sqrt(0.5);
    var G := [[h, 0.0], [h, 0.0]];
    SquareFacts(h);
    assert Square(h) == 0.5;
    var c0 := Column(G, 2, 0);
    assert c0 == [h, h];
    assert c0[..1] == [h] && [h][..0] == [];
    assert SumSquares([h]) == Square(h);
    assert SumSquares(c0) == Square(h) + Square(h);
    assert Column(G, 2, 1) == Unit(2, 2);
    ZeroColumnFallsBack(G, 2, 1, 1, sqrt);
    var e := Unit(2, 1);
    assert e == [0.0, 1.0];
    assert Dot(c0, e) == Dot([h], [0.0]) + h * 1.0;
    assert [h][..0] == [] && [0.0][..0] == [];
  }

  /** Σ over rows of u[row, j]·u[row, i]: the dot loop of Gram-Schmidt,
      for columns j and i holding b and c. */
  method ColumnsDot(u: array2<real>, m: nat, j: nat, i: nat, ghost b: seq<real>, ghost c: seq<real>)
    returns (dot: real)
    requires u.Length0 == m && j < u.Length1 && i < u.Length1 && |b| == m && |c| == m
    requires forall row :: 0 <= row < m ==> u[row, j] == b[row] && u[row, i] == c[row]
    ensures dot == Dot(b, c)
  {
    dot := 0.0;
    for row := 0 to m
      invariant dot == Dot(b[..row], c[..row])
    {
      assert b[..row + 1][..row] == b[..row] && c[..row + 1][..row] == c[..row];
      dot := dot + u[row, j] * u[row, i];
    }
    assert b[..m] == b && c[..m] == c;
  }

  /** One projection step of Gram-Schmidt, in place: column i (holding ci)
      loses its component along column j (holding cj). */
  method ProjectColumn(u: array2<real>, m: nat, j: nat, i: nat, ghost cj: seq<real>, ghost ci: seq<real>)
    requires u.Length0 == m && u.Length1 == m && i < m && j < m && i != j && |cj| == m && |ci| == m
    requires forall row :: 0 <= row < m ==> u[row, j] == cj[row] && u[row, i] == ci[row]
    modifies u
    ensures forall row :: 0 <= row < m ==> u[row, i] == Project(ci, cj)[row]
    ensures forall row, x :: 0 <= row < m && 0 <= x < m && x != i ==> u[row, x] == old(u[row, x])
  {
    var dot := ColumnsDot(u, m, j, i, cj, ci);
    ghost var P := Project(ci, cj);
    assert forall row :: 0 <= row < m ==> P[row] == ci[row] - dot * cj[row];
    for row := 0 to m
      invariant forall row' :: 0 <= row' < row ==> u[row', i] == P[row']
      invariant forall row' :: row <= row' < m ==> u[row', i] == ci[row']
      invariant forall row', x :: 0 <= row' < m && 0 <= x < m && x != i ==> u[row', x] == old(u[row', x])
    {
      assert u[row, j] == old(u[row, j]) == cj[row] && u[row, i] == ci[row];
      assert P[row] == ci[row] - dot * cj[row];
      u[row, i] := u[row, i] - dot * u[row, j];
    }
  }

  /** The normalisation step of Gram-Schmidt, in place on column i (holding
      c): divide by the norm, or fall back to e_i when the norm is below Eps. */
  method NormalizeColumn(u: array2<real>, m: nat, i: nat, sqrt: real -> real, ghost c: seq<real>)
    requires u.Length0 == m && u.Length1 == m && i < m && |c| == m
    requires forall row :: 0 <= row < m ==> u[row, i] == c[row]
    modifies u
    ensures forall row :: 0 <= row < m ==> u[row, i] == Finish(c, i, sqrt)[row]
    ensures forall row, x :: 0 <= row < m && 0 <= x < m && x != i ==> u[row, x] == old(u[row, x])
  {
    var norm := 0.0;
    for row := 0 to m
      invariant norm == SumSquares(c[..row])
    {
      assert c[..row + 1][..row] == c[..row];
      norm := norm + u[row, i] * u[row, i];
    }
    assert c[..m] == c;
    norm := sqrt(norm);
    if norm < Eps {
      for row := 0 to m
        invariant forall row' :: 0 <= row' < row ==> u[row', i] == 0.0
        invariant forall row', x :: 0 <= row' < m && 0 <= x < m && x != i ==> u[row', x] == old(u[row', x])
      {
        u[row, i] := 0.0;
      }
      if i < m {
        u[i, i] := 1.0;
      }
    } else {
      for row := 0 to m
        invariant forall row' :: 0 <= row' < row ==> u[row', i] == c[row'] / norm
        invariant forall row' :: row <= row' < m ==> u[row', i] == c[row']
        invariant forall row', x :: 0 <= row' < m && 0 <= x < m && x != i ==> u[row', x] == old(u[row', x])
      {
        u[row, i] := u[row, i] / norm;
      }
    }
  }

  /** The projection loop of Gram-Schmidt on column i: column i loses its
      components along columns 0 .. i-1 in turn; the other columns stay. */
  method ProjectPrevious(u: array2<real>, m: nat, i: nat, ghost G: seq<seq<real>>)
    requires u.Length0 == m && u.Length1 == m && i < m && IsMatrix(G, m, m)
    requires forall row, x :: 0 <= row < m && 0 <= x < m ==> u[row, x] == G[row][x]
    modifies u
    ensures forall row :: 0 <= row < m ==> u[row, i] == ProjectAll(Column(G, m, i), G, i)[row]
    ensures forall row, x :: 0 <= row < m && 0 <= x < m && x != i ==> u[row, x] == G[row][x]
  {
    ghost var c0 := Column(G, m, i);
    ghost var cur := c0;
    for j := 0 to i
      invariant cur == ProjectAll(c0, G, j)
      invariant forall row :: 0 <= row < m ==> u[row, i] == cur[row]
      invariant forall row, x :: 0 <= row < m && 0 <= x < m && x != i ==> u[row, x] == G[row][x]
    {
      ghost var cj := Column(G, m, j);
      ProjectColumn(u, m, j, i, cj, cur);
      ProjectAllStep(c0, G, j);
      cur := Project(cur, cj);
    }
  }

  /** One more column projected out. */
  lemma ProjectAllStep(c: seq<real>, G: seq<seq<real>>, j: nat)
    requires IsMatrix(G, |c|, |c|) && j < |c|
    ensures ProjectAll(c, G, j + 1) == Project(ProjectAll(c, G, j), Column(G, |c|, j))
  {
  }

  /** Gram-Schmidt on column i: project out columns 0 .. i-1 in turn, then
      normalise. */
  method OrthonormalizeColumn(u: array2<real>, m: nat, i: nat, sqrt: real -> real, ghost G: seq<seq<real>>)
    returns (ghost H: seq<seq<real>>)
    requires u.Length0 == m && u.Length1 == m && i < m && IsMatrix(G, m, m)
    requires forall row, x :: 0 <= row < m && 0 <= x < m ==> u[row, x] == G[row][x]
    modifies u
    ensures IsMatrix(H, m, m) && forall row, x :: 0 <= row < m && 0 <= x < m ==> u[row, x] == H[row][x]
    ensures forall row :: 0 <= row < m ==> H[row][i] == Finish(ProjectAll(Column(G, m, i), G, i), i, sqrt)[row]
    ensures forall row, x :: 0 <= row < m && 0 <= x < m && x != i ==> H[row][x] == G[row][x]
  {
    ProjectPrevious(u, m, i, G);
    NormalizeColumn(u, m, i, sqrt, ProjectAll(Column(G, m, i), G, i));
    H := Grid(u);
  }

  /** The vectors are pairwise orthogonal. */
  ghost predicate PairwiseOrthogonal(cols: seq<seq<real>>) {
    forall l, k :: 0 <= l < k < |cols| && |cols[l]| == |cols[k]| ==> Dot(cols[l], cols[k]) == 0.0
  }

  /** Columns 0 .. r-1 of G. */
  function Columns(G: seq<seq<real>>, m: nat, r: nat): (cols: seq<seq<real>>)
    requires IsMatrix(G, m, m) && r <= m
    ensures |cols| == r && forall i :: 0 <= i < r ==> cols[i] == Column(G, m, i)
  {
    seq(r, i requires 0 <= i < r => Column(G, m, i))
  }

  /** The projections against columns 0 .. j-1 read only those columns. */
  lemma {:induction false} ProjectAllFrame(c: seq<real>, G: seq<seq<real>>, H: seq<seq<real>>, j: nat)
    requires IsMatrix(G, |c|, |c|) && IsMatrix(H, |c|, |c|) && j <= |c|
    requires forall row, l :: 0 <= row < |c| && 0 <= l < j ==> G[row][l] == H[row][l]
    ensures ProjectAll(c, G, j) == ProjectAll(c, H, j)
  {
    if j > 0 {
      ProjectAllFrame(c, G, H, j - 1);
      assert Column(G, |c|, j - 1) == Column(H, |c|, j - 1);
    }
  }

  /** Step i of the pass takes the fallback: c, the column it starts from,
      projected against columns 0 .. i-1 of U (as the pass left them), has a
      norm below Eps. */
  ghost predicate PassFellBack(c: seq<real>, U: seq<seq<real>>, m: nat, i: nat, sqrt: real -> real)
    requires IsMatrix(U, m, m) && |c| == m && i <= m
  {
    Norm(ProjectAll(c, U, i), sqrt) < Eps
  }

  /** Some step i' < i of the pass that started from G0 took the fallback. */
  ghost predicate AnyPassFellBack(G0: seq<seq<real>>, U: seq<seq<real>>, m: nat, i: nat, sqrt: real -> real)
    requires IsMatrix(G0, m, m) && IsMatrix(U, m, m) && i <= m
  {
    exists i' :: 0 <= i' < i && PassFellBack(Column(G0, m, i'), U, m, i', sqrt)
  }

  /** The fallback record of the pass over the first i columns depends only
      on those columns of the matrix it is read from. */
  lemma PassFrame(G0: seq<seq<real>>, G: seq<seq<real>>, H: seq<seq<real>>, m: nat, i: nat, sqrt: real -> real)
    requires IsMatrix(G0, m, m) && IsMatrix(G, m, m) && IsMatrix(H, m, m) && i <= m
    requires forall row, l :: 0 <= row < m && 0 <= l < i ==> G[row][l] == H[row][l]
    ensures AnyPassFellBack(G0, G, m, i, sqrt) <==> AnyPassFellBack(G0, H, m, i, sqrt)
    ensures forall i' :: 0 <= i' < i ==>
      (PassFellBack(Column(G0, m, i'), G, m, i', sqrt) <==> PassFellBack(Column(G0, m, i'), H, m, i', sqrt))
  {
    forall i' | 0 <= i' < i
      ensures PassFellBack(Column(G0, m, i'), G, m, i', sqrt) <==> PassFellBack(Column(G0, m, i'), H, m, i', sqrt)
    {
      ProjectAllFrame(Column(G0, m, i'), G, H, i');
    }
  }

  /** The Gram-Schmidt pass over the first r columns of U: each ends as a
      unit vector, and they are pairwise orthogonal unless some step took the
      fallback; fellBack says whether one did. The other columns are
      untouched. */
  method GramSchmidt(u: array2<real>, m: nat, r: nat, sqrt: real -> real) returns (ghost fellBack: bool)
    requires IsSqrt(sqrt) && u.Length0 == m && u.Length1 == m && r <= m
    modifies u
    ensures forall i :: 0 <= i < r ==> SumSquares(Column(Grid(u), m, i)) == 1.0
    ensures fellBack <==> AnyPassFellBack(old(Grid(u)), Grid(u), m, r, sqrt)
    ensures !fellBack ==> PairwiseOrthogonal(Columns(Grid(u), m, r))
    ensures forall row, x :: 0 <= row < m && r <= x < m ==> u[row, x] == old(u[row, x])
  {
    ghost var G0 := Grid(u);
    ghost var G := G0;
    ghost var cols: seq<seq<real>> := [];
    fellBack := false;
    for i := 0 to r
      invariant IsMatrix(G, m, m) && forall row, x :: 0 <= row < m && 0 <= x < m ==> u[row, x] == G[row][x]
      invariant |cols| == i
      invariant forall i' :: 0 <= i' < i ==> |cols[i']| == m && SumSquares(cols[i']) == 1.0
      invariant forall row, i' :: 0 <= row < m && 0 <= i' < i ==> G[row][i'] == cols[i'][row]
      invariant forall row, x :: 0 <= row < m && i <= x < m ==> G[row][x] == G0[row][x]
      invariant fellBack <==> AnyPassFellBack(G0, G, m, i, sqrt)
      invariant !fellBack ==> PairwiseOrthogonal(cols)
    {
      cols, fellBack, G := GramSchmidtColumn(u, m, i, sqrt, G0, G, cols, fellBack);
    }
    PassFrame(G0, G, Grid(u), m, r, sqrt);
    forall i | 0 <= i < r
      ensures Column(Grid(u), m, i) == cols[i]
    {
    }
    assert Columns(Grid(u), m, r) == cols;
  }

  /** One column of the pass, with the columns produced so far and whether
      an earlier step fell back: column i is orthonormalised, and the pass's
      invariant extends to it. */
  method GramSchmidtColumn(u: array2<real>, m: nat, i: nat, sqrt: real -> real, ghost G0: seq<seq<real>>,
                           ghost G: seq<seq<real>>, ghost cols: seq<seq<real>>, ghost fellBack: bool)
    returns (ghost next: seq<seq<real>>, ghost nextFellBack: bool, ghost H: seq<seq<real>>)
    requires IsSqrt(sqrt) && u.Length0 == m && u.Length1 == m && i < m && |cols| == i
    requires IsMatrix(G0, m, m) && IsMatrix(G, m, m)
    requires forall row, x :: 0 <= row < m && 0 <= x < m ==> u[row, x] == G[row][x]
    requires forall l :: 0 <= l < i ==> |cols[l]| == m && SumSquares(cols[l]) == 1.0
    requires forall row, l :: 0 <= row < m && 0 <= l < i ==> G[row][l] == cols[l][row]
    requires forall row :: 0 <= row < m ==> G[row][i] == G0[row][i]
    requires fellBack <==> AnyPassFellBack(G0, G, m, i, sqrt)
    requires !fellBack ==> PairwiseOrthogonal(cols)
    modifies u
    ensures IsMatrix(H, m, m) && forall row, x :: 0 <= row < m && 0 <= x < m ==> u[row, x] == H[row][x]
    ensures |next| == i + 1
    ensures forall l :: 0 <= l <= i ==> |next[l]| == m && SumSquares(next[l]) == 1.0
    ensures forall row, l :: 0 <= row < m && 0 <= l <= i ==> H[row][l] == next[l][row]
    ensures forall row, x :: 0 <= row < m && i < x < m ==> H[row][x] == G[row][x]
    ensures nextFellBack <==> AnyPassFellBack(G0, H, m, i + 1, sqrt)
    ensures !nextFellBack ==> PairwiseOrthogonal(next)
  {
    H := OrthonormalizeColumn(u, m, i, sqrt, G);
    next, nextFellBack := GramSchmidtTracked(G0, G, H, m, i, sqrt, cols, fellBack);
  }

  /** The ghost side of one step of the pass, from the matrix before (G) to
      the matrix after (H): the columns so far gain the orthonormalised
      column, and the fallback record gains its step. */
  lemma GramSchmidtTracked(G0: seq<seq<real>>, G: seq<seq<real>>, H: seq<seq<real>>, m: nat, i: nat,
                           sqrt: real -> real, cols: seq<seq<real>>, fellBack: bool)
    returns (next: seq<seq<real>>, nextFellBack: bool)
    requires IsSqrt(sqrt) && IsMatrix(G0, m, m) && IsMatrix(G, m, m) && IsMatrix(H, m, m) && i < m && |cols| == i
    requires forall row :: 0 <= row < m ==> H[row][i] == Finish(ProjectAll(Column(G, m, i), G, i), i, sqrt)[row]
    requires forall row, x :: 0 <= row < m && 0 <= x < m && x != i ==> H[row][x] == G[row][x]
    requires forall l :: 0 <= l < i ==> |cols[l]| == m && SumSquares(cols[l]) == 1.0
    requires forall row, l :: 0 <= row < m && 0 <= l < i ==> G[row][l] == cols[l][row]
    requires forall row :: 0 <= row < m ==> G[row][i] == G0[row][i]
    requires fellBack <==> AnyPassFellBack(G0, G, m, i, sqrt)
    requires !fellBack ==> PairwiseOrthogonal(cols)
    ensures |next| == i + 1
    ensures forall l :: 0 <= l <= i ==> |next[l]| == m && SumSquares(next[l]) == 1.0
    ensures forall row, l :: 0 <= row < m && 0 <= l <= i ==> H[row][l] == next[l][row]
    ensures nextFellBack <==> AnyPassFellBack(G0, H, m, i + 1, sqrt)
    ensures !nextFellBack ==> PairwiseOrthogonal(next)
  {
    var p := ProjectAll(Column(G, m, i), G, i);
    var c := Finish(p, i, sqrt);
    GramSchmidtStep(cols, G, m, i, sqrt);
    next := cols + [c];
    assert next[i] == c && forall l :: 0 <= l < i ==> next[l] == cols[l];
    nextFellBack := fellBack || Norm(p, sqrt) < Eps;
    PassStep(G0, G, H, m, i, sqrt);
  }

  /** The fallback record gains step i: read from the matrix H after the
      step, it holds for the first i + 1 steps exactly when it held for the
      first i in the matrix G before, or step i itself fell back. */
  lemma PassStep(G0: seq<seq<real>>, G: seq<seq<real>>, H: seq<seq<real>>, m: nat, i: nat, sqrt: real -> real)
    requires IsMatrix(G0, m, m) && IsMatrix(G, m, m) && IsMatrix(H, m, m) && i < m
    requires forall row, l :: 0 <= row < m && 0 <= l < i ==> G[row][l] == H[row][l]
    requires forall row :: 0 <= row < m ==> G[row][i] == G0[row][i]
    ensures AnyPassFellBack(G0, H, m, i + 1, sqrt) <==>
      AnyPassFellBack(G0, G, m, i, sqrt) || Norm(ProjectAll(Column(G, m, i), G, i), sqrt) < Eps
  {
    PassFrame(G0, G, H, m, i, sqrt);
    ProjectAllFrame(Column(G0, m, i), G, H, i);
    assert Column(G, m, i) == Column(G0, m, i);
    if AnyPassFellBack(G0, H, m, i + 1, sqrt) {
      var i' :| 0 <= i' < i + 1 && PassFellBack(Column(G0, m, i'), H, m, i', sqrt);
      if i' < i {
        assert PassFellBack(Column(G0, m, i'), G, m, i', sqrt);
      }
    }
    if AnyPassFellBack(G0, G, m, i, sqrt) {
      var i' :| 0 <= i' < i && PassFellBack(Column(G0, m, i'), G, m, i', sqrt);
      assert PassFellBack(Column(G0, m, i'), H, m, i', sqrt);
    }
    if Norm(ProjectAll(Column(G, m, i), G, i), sqrt) < Eps {
      assert PassFellBack(Column(G0, m, i), H, m, i, sqrt);
    }
  }

  /** The step of the pass in terms of the columns it has produced so far:
      the new column is a unit vector, and when it takes no fallback it is
      orthogonal to each earlier column, so orthogonal columns stay so. */
  lemma GramSchmidtStep(cols: seq<seq<real>>, G: seq<seq<real>>, m: nat, i: nat, sqrt: real -> real)
    requires IsSqrt(sqrt) && IsMatrix(G, m, m) && i < m && |cols| == i
    requires forall l :: 0 <= l < i ==> |cols[l]| == m && SumSquares(cols[l]) == 1.0
    requires forall row, l :: 0 <= row < m && 0 <= l < i ==> G[row][l] == cols[l][row]
    ensures var p := ProjectAll(Column(G, m, i), G, i); var c := Finish(p, i, sqrt);
      |c| == m && SumSquares(c) == 1.0 &&
      (PairwiseOrthogonal(cols) && Norm(p, sqrt) >= Eps ==> PairwiseOrthogonal(cols + [c]))
  {
    var p := ProjectAll(Column(G, m, i), G, i);
    var c := Finish(p, i, sqrt);
    FinishIsUnit(p, i, sqrt);
    if PairwiseOrthogonal(cols) && Norm(p, sqrt) >= Eps {
      var next := cols + [c];
      assert forall l :: 0 <= l < i ==> next[l] == cols[l];
      assert next[i] == c;
      forall l | 0 <= l < i
        ensures Column(G, m, l) == cols[l]
      {
      }
      OrthonormalizeStep(G, m, i, sqrt);
    }
  }

  /** A fallback need not break orthogonality: with column 0 = e_0 and a
      zero column 1, as for A = diag(1, 0), the step on column 1 falls back
      to e_1, which is orthogonal to column 0. */
  lemma FallbackMayStayOrthogonal(sqrt: real -> real)
    requires IsSqrt(sqrt)
    ensures var G := [[1.0, 0.0], [0.0, 0.0]]; var p := ProjectAll(Column(G, 2, 1), G, 1);
      UnitColumns(G, 2, 1) && Norm(p, sqrt) < Eps &&
      Finish(p, 1, sqrt) == Unit(2, 1) && Dot(Column(G, 2, 0), Finish(p, 1, sqrt)) == 0.0
  {
    var G := [[1.0, 0.0], [0.0, 0.0]];
    assert Column(G, 2, 0) == [1.0, 0.0];
    assert [1.0, 0.0][..1] == [1.0] && [1.0][..0] == [];
    assert SumSquares(Column(G, 2, 0)) == 1.0;
    assert Column(G, 2, 1) == Unit(2, 2);
    ZeroColumnFallsBack(G, 2, 1, 1, sqrt);
    var e := Unit(2, 1);
    assert e == [0.0, 1.0];
    assert Dot([1.0, 0.0], e) == Dot([1.0], [0.0]) + 0.0 * 1.0;
    assert [1.0][..0] == [] && [0.0][..0] == [];
  }

  // ---------------------------------------------------------------------------
  // Completing U with seeds from the standard basis

  /** Seed e_seed with its components along columns 0 .. col-1 of G
      projected out. */
  function Candidate(G: seq<seq<real>>, m: nat, col: nat, seed: nat): (v: seq<real>)
    requires IsMatrix(G, m, m) && col <= m
    ensures |v| == m
  {
    ProjectAll(Unit(m, seed), G, col)
  }

  /** The loop over seeds 0, 1, ... that runs while the norm stays below Eps,
      from the vector vec it starts with. */
  function SeedLoop(G: seq<seq<real>>, m: nat, col: nat, sqrt: real -> real, vec: seq<real>, seed: nat)
    : (v: seq<real>)
    requires IsMatrix(G, m, m) && col <= m && |vec| == m
    ensures |v| == m
    decreases m - seed
  {
    if seed < m && Norm(vec, sqrt) < Eps then SeedLoop(G, m, col, sqrt, Candidate(G, m, col, seed), seed + 1)
    else vec
  }

  /** The vector the completion of column col ends with, before the final
      normalisation: e_col; if that is degenerate, the seed loop; if that is
      degenerate, e_0 once more. */
  function CompletionVector(G: seq<seq<real>>, m: nat, col: nat, sqrt: real -> real): (v: seq<real>)
    requires IsMatrix(G, m, m) && col <= m
    ensures |v| == m
  {
    var v0 := Candidate(G, m, col, col);
    var v1 := if Norm(v0, sqrt) < Eps then SeedLoop(G, m, col, sqrt, v0, 0) else v0;
    if Norm(v1, sqrt) < Eps then Candidate(G, m, col, 0) else v1
  }

  /** The column stored at col: the vector over its norm, or e_col as the last
      resort. */
  function CompletionColumn(G: seq<seq<real>>, m: nat, col: nat, sqrt: real -> real): (c: seq<real>)
    requires IsMatrix(G, m, m) && col <= m
    ensures |c| == m
  {
    Finish(CompletionVector(G, m, col, sqrt), col, sqrt)
  }

  /** Every completed column is a unit vector. */
  lemma CompletionIsUnit(G: seq<seq<real>>, m: nat, col: nat, sqrt: real -> real)
    requires IsSqrt(sqrt) && IsMatrix(G, m, m) && col < m
    ensures SumSquares(CompletionColumn(G, m, col, sqrt)) == 1.0
  {
    FinishIsUnit(CompletionVector(G, m, col, sqrt), col, sqrt);
  }

  /** The seed loop, started from a candidate, ends with a candidate. */
  lemma {:induction false} SeedLoopIsCandidate(G: seq<seq<real>>, m: nat, col: nat, sqrt: real -> real,
                                               vec: seq<real>, seed: nat, s0: nat)
    returns (s: nat)
    requires IsMatrix(G, m, m) && col <= m && vec == Candidate(G, m, col, s0)
    ensures SeedLoop(G, m, col, sqrt, vec, seed) == Candidate(G, m, col, s)
    decreases m - seed
  {
    if seed < m && Norm(vec, sqrt) < Eps {
      s := SeedLoopIsCandidate(G, m, col, sqrt, Candidate(G, m, col, seed), seed + 1, seed);
    } else {
      s := s0;
    }
  }

  /** Whichever branch the completion takes, its vector is the candidate of
      some seed. */
  lemma CompletionIsCandidate(G: seq<seq<real>>, m: nat, col: nat, sqrt: real -> real) returns (s: nat)
    requires IsMatrix(G, m, m) && col <= m
    ensures CompletionVector(G, m, col, sqrt) == Candidate(G, m, col, s)
  {
    var v0 := Candidate(G, m, col, col);
    var v1 := if Norm(v0, sqrt) < Eps then SeedLoop(G, m, col, sqrt, v0, 0) else v0;
    var s1 := col;
    if Norm(v0, sqrt) < Eps {
      s1 := SeedLoopIsCandidate(G, m, col, sqrt, v0, 0, col);
    }
    s := if Norm(v1, sqrt) < Eps then 0 else s1;
  }

  /** A completed column that takes no fallback is orthogonal to every
      column before it, when those are orthonormal. */
  lemma CompletionOrthogonal(G: seq<seq<real>>, m: nat, col: nat, sqrt: real -> real)
    requires IsMatrix(G, m, m) && col < m
    requires OrthogonalColumns(G, m, col) && UnitColumns(G, m, col)
    requires Norm(CompletionVector(G, m, col, sqrt), sqrt) >= Eps
    ensures forall l :: 0 <= l < col ==> Dot(Column(G, m, l), CompletionColumn(G, m, col, sqrt)) == 0.0
  {
    var s := CompletionIsCandidate(G, m, col, sqrt);
    var v := CompletionVector(G, m, col, sqrt);
    forall l | 0 <= l < col
      ensures Dot(Column(G, m, l), CompletionColumn(G, m, col, sqrt)) == 0.0
    {
      ProjectAllOrthogonal(Unit(m, s), G, col, l);
      FinishOrthogonal(Column(G, m, l), v, col, sqrt);
    }
  }

  /** When the seed loop started at seed ends degenerate, it tried every
      seed from there to m - 1 and found each candidate degenerate. */
  lemma {:induction false} SeedLoopTried(G: seq<seq<real>>, m: nat, col: nat, sqrt: real -> real,
                                         vec: seq<real>, seed: nat)
    requires IsMatrix(G, m, m) && col <= m && |vec| == m
    requires Norm(SeedLoop(G, m, col, sqrt, vec, seed), sqrt) < Eps
    ensures forall s :: seed <= s < m ==> Norm(Candidate(G, m, col, s), sqrt) < Eps
    decreases m - seed
  {
    SeedLoopStarts(G, m, col, sqrt, vec, seed);
    if seed < m {
      var next := Candidate(G, m, col, seed);
      assert SeedLoop(G, m, col, sqrt, vec, seed) == SeedLoop(G, m, col, sqrt, next, seed + 1);
      SeedLoopStarts(G, m, col, sqrt, next, seed + 1);
      SeedLoopTried(G, m, col, sqrt, next, seed + 1);
    }
  }

  /** A seed loop that ends degenerate started from a degenerate vector: a
      vector of norm at least Eps stops it at once. */
  lemma SeedLoopStarts(G: seq<seq<real>>, m: nat, col: nat, sqrt: real -> real, vec: seq<real>, seed: nat)
    requires IsMatrix(G, m, m) && col <= m && |vec| == m
    requires Norm(SeedLoop(G, m, col, sqrt, vec, seed), sqrt) < Eps
    ensures Norm(vec, sqrt) < Eps
  {
  }

  /** The retry with e_0 never rescues a column: once the seed loop from e_col
      ends degenerate, the candidate of seed 0 is degenerate too, and the
      column falls back to e_col. With an exact square root the hypothesis
      itself needs m > 10^24: some unit w is orthogonal to the col < m
      earlier columns, the projections fix w, so some seed's candidate has
      norm at least 1/√m, which is at least Eps for smaller m. That dimension
      argument is not carried out here; for any image both fallbacks are
      dead code in exact arithmetic. */
  lemma RetryRedundant(G: seq<seq<real>>, m: nat, col: nat, sqrt: real -> real)
    requires IsSqrt(sqrt) && IsMatrix(G, m, m) && col < m
    requires Norm(SeedLoop(G, m, col, sqrt, Candidate(G, m, col, col), 0), sqrt) < Eps
    ensures Norm(Candidate(G, m, col, 0), sqrt) < Eps
    ensures CompletionColumn(G, m, col, sqrt) == Unit(m, col)
  {
    var v0 := Candidate(G, m, col, col);
    SeedLoopTried(G, m, col, sqrt, v0, 0);
  }

  /** Σ over rows of u[row, j]·vec[row]: the dot loop of the completion. */
  method ColumnDot(u: array2<real>, m: nat, j: nat, vec: array<real>, ghost b: seq<real>) returns (dot: real)
    requires u.Length0 == m && j < u.Length1 && vec.Length == m && |b| == m
    requires b == Column(Grid(u), m, j)
    ensures dot == Dot(b, vec[..])
  {
    dot := 0.0;
    for row := 0 to m
      invariant dot == Dot(b[..row], vec[..row])
    {
      assert b[..row + 1][..row] == b[..row] && vec[..row + 1][..row] == vec[..row];
      dot := dot + u[row, j] * vec[row];
    }
    assert b[..m] == b && vec[..m] == vec[..];
  }

  /** vec minus dot times column j of u (holding b). */
  method SubtractColumn(u: array2<real>, vec: array<real>, m: nat, j: nat, dot: real, ghost b: seq<real>)
    requires u.Length0 == m && j < u.Length1 && vec.Length == m && |b| == m
    requires b == Column(Grid(u), m, j)
    modifies vec
    ensures vec[..] == Subtracted(old(vec[..]), dot, b)
  {
    ghost var c := vec[..];
    for row := 0 to m
      invariant forall row' :: 0 <= row' < row ==> vec[row'] == c[row'] - dot * b[row']
      invariant forall row' :: row <= row' < m ==> vec[row'] == c[row']
    {
      vec[row] := vec[row] - dot * u[row, j];
    }
    assert forall row :: 0 <= row < m ==> vec[..][row] == Subtracted(c, dot, b)[row];
  }

  /** Projects vec against columns 0 .. count-1 of u in turn. */
  method ProjectVector(u: array2<real>, vec: array<real>, m: nat, count: nat, ghost G: seq<seq<real>>)
    requires u.Length0 == m && u.Length1 == m && vec.Length == m && count <= m && G == Grid(u)
    modifies vec
    ensures vec[..] == ProjectAll(old(vec[..]), G, count)
  {
    ghost var c0 := vec[..];
    for j := 0 to count
      invariant vec[..] == ProjectAll(c0, G, j)
    {
      ghost var b := Column(G, m, j);
      var dot := ColumnDot(u, m, j, vec, b);
      SubtractColumn(u, vec, m, j, dot, b);
    }
  }

  /** Loads e_seed into vec, projects it against columns 0 .. col-1 and
      returns its norm: the block the completion runs for e_col, for each
      seed and for e_0. */
  method TrySeed(u: array2<real>, vec: array<real>, m: nat, col: nat, seed: nat, sqrt: real -> real,
                 ghost G: seq<seq<real>>) returns (norm: real)
    requires u.Length0 == m && u.Length1 == m && vec.Length == m && col <= m && seed < m && G == Grid(u)
    modifies vec
    ensures vec[..] == Candidate(G, m, col, seed) && norm == Norm(vec[..], sqrt)
  {
    for row := 0 to m
      invariant forall row' :: 0 <= row' < row ==> vec[row'] == 0.0
    {
      vec[row] := 0.0;
    }
    vec[seed] := 1.0;
    assert vec[..] == Unit(m, seed);
    ProjectVector(u, vec, m, col, G);
    norm := SquaredNorm(vec, m);
    assert vec[..m] == vec[..];
    norm := sqrt(norm);
  }

  /** Stores vec over its norm in column col, or e_col when the norm is
      below Eps. */
  method StoreColumn(u: array2<real>, vec: array<real>, m: nat, col: nat, norm: real, sqrt: real -> real)
    requires u.Length0 == m && u.Length1 == m && vec.Length == m && col < m && norm == Norm(vec[..], sqrt)
    modifies u
    ensures forall row :: 0 <= row < m ==> u[row, col] == Finish(vec[..], col, sqrt)[row]
    ensures forall row, x :: 0 <= row < m && 0 <= x < m && x != col ==> u[row, x] == old(u[row, x])
  {
    if norm < Eps {
      for row := 0 to m
        invariant forall row' :: 0 <= row' < row ==> u[row', col] == 0.0
        invariant forall row', x :: 0 <= row' < m && 0 <= x < m && x != col ==> u[row', x] == old(u[row', x])
      {
        u[row, col] := 0.0;
      }
      if col < m {
        u[col, col] := 1.0;
      }
    } else {
      for row := 0 to m
        invariant forall row' :: 0 <= row' < row ==> u[row', col] == vec[row'] / norm
        invariant forall row', x :: 0 <= row' < m && 0 <= x < m && x != col ==> u[row', x] == old(u[row', x])
      {
        u[row, col] := vec[row] / norm;
      }
    }
  }

  /** Completes column col of U from the columns before it. */
  method CompleteColumn(u: array2<real>, m: nat, col: nat, sqrt: real -> real)
    requires u.Length0 == m && u.Length1 == m && col < m
    modifies u
    ensures forall row :: 0 <= row < m ==> u[row, col] == CompletionColumn(old(Grid(u)), m, col, sqrt)[row]
    ensures forall row, x :: 0 <= row < m && 0 <= x < m && x != col ==> u[row, x] == old(u[row, x])
  {
    ghost var G := Grid(u);
    ghost var v0 := Candidate(G, m, col, col);
    var vec := new real[m];
    var norm := TrySeed(u, vec, m, col, col, sqrt, G);
    if norm < Eps {
      var seed := 0;
      while seed < m && norm < Eps
        modifies vec
        invariant seed <= m && norm == Norm(vec[..], sqrt)
        invariant SeedLoop(G, m, col, sqrt, vec[..], seed) == SeedLoop(G, m, col, sqrt, v0, 0)
        decreases m - seed
      {
        norm := TrySeed(u, vec, m, col, seed, sqrt, G);
        seed := seed + 1;
      }
    }
    if norm < Eps {
      norm := TrySeed(u, vec, m, col, 0, sqrt, G);
    }
    assert vec[..] == CompletionVector(G, m, col, sqrt);
    StoreColumn(u, vec, m, col, norm, sqrt);
  }

  /** The seed loop reads only columns 0 .. col-1. */
  lemma {:induction false} SeedLoopFrame(G: seq<seq<real>>, H: seq<seq<real>>, m: nat, col: nat, sqrt: real -> real,
                                         vec: seq<real>, seed: nat)
    requires IsMatrix(G, m, m) && IsMatrix(H, m, m) && col <= m && |vec| == m
    requires forall row, l :: 0 <= row < m && 0 <= l < col ==> G[row][l] == H[row][l]
    ensures SeedLoop(G, m, col, sqrt, vec, seed) == SeedLoop(H, m, col, sqrt, vec, seed)
    decreases m - seed
  {
    if seed < m && Norm(vec, sqrt) < Eps {
      ProjectAllFrame(Unit(m, seed), G, H, col);
      SeedLoopFrame(G, H, m, col, sqrt, Candidate(G, m, col, seed), seed + 1);
    }
  }

  /** So does the whole completion of column col. */
  lemma CompletionFrame(G: seq<seq<real>>, H: seq<seq<real>>, m: nat, col: nat, sqrt: real -> real)
    requires IsMatrix(G, m, m) && IsMatrix(H, m, m) && col <= m
    requires forall row, l :: 0 <= row < m && 0 <= l < col ==> G[row][l] == H[row][l]
    ensures CompletionVector(G, m, col, sqrt) == CompletionVector(H, m, col, sqrt)
  {
    ProjectAllFrame(Unit(m, col), G, H, col);
    ProjectAllFrame(Unit(m, 0), G, H, col);
    SeedLoopFrame(G, H, m, col, sqrt, Candidate(G, m, col, col), 0);
  }

  /** The completion of column col takes the last resort: the vector it
      ends with, computed from columns 0 .. col-1 of U, has a norm below
      Eps, and e_col is stored. */
  ghost predicate CompletionFellBack(U: seq<seq<real>>, m: nat, col: nat, sqrt: real -> real)
    requires IsMatrix(U, m, m) && col <= m
  {
    Norm(CompletionVector(U, m, col, sqrt), sqrt) < Eps
  }

  /** Some completion of a column in r .. k-1 took the last resort. */
  ghost predicate AnyCompletionFellBack(U: seq<seq<real>>, m: nat, r: nat, k: nat, sqrt: real -> real)
    requires IsMatrix(U, m, m) && k <= m
  {
    exists col :: r <= col < k && CompletionFellBack(U, m, col, sqrt)
  }

  /** The last-resort record gains column col: read from the matrix H after
      the step, it holds for columns r .. col exactly when it held for r ..
      col-1 in the matrix G before, or column col itself fell back. */
  lemma CompletionFlagStep(G: seq<seq<real>>, H: seq<seq<real>>, m: nat, r: nat, col: nat, sqrt: real -> real)
    requires IsMatrix(G, m, m) && IsMatrix(H, m, m) && col < m
    requires forall row, l :: 0 <= row < m && 0 <= l < col ==> G[row][l] == H[row][l]
    ensures AnyCompletionFellBack(H, m, r, col + 1, sqrt) <==>
      AnyCompletionFellBack(G, m, r, col, sqrt) || (r <= col && CompletionFellBack(G, m, col, sqrt))
  {
    forall c | r <= c <= col
      ensures CompletionFellBack(G, m, c, sqrt) <==> CompletionFellBack(H, m, c, sqrt)
    {
      CompletionFrame(G, H, m, c, sqrt);
    }
    if AnyCompletionFellBack(H, m, r, col + 1, sqrt) {
      var c :| r <= c < col + 1 && CompletionFellBack(H, m, c, sqrt);
      if c < col {
        assert CompletionFellBack(G, m, c, sqrt);
      }
    }
    if AnyCompletionFellBack(G, m, r, col, sqrt) {
      var c :| r <= c < col && CompletionFellBack(G, m, c, sqrt);
      assert CompletionFellBack(H, m, c, sqrt);
    }
    if r <= col && CompletionFellBack(G, m, col, sqrt) {
      assert CompletionFellBack(H, m, col, sqrt);
    }
  }

  /** The completion of U: columns r .. m-1, each a unit vector; the first r
      columns are untouched. fellBack says whether some column took the
      last resort; when none did and the first r columns come in
      orthonormal, all m columns end pairwise orthogonal. */
  method Complete(u: array2<real>, m: nat, r: nat, sqrt: real -> real) returns (ghost fellBack: bool)
    requires IsSqrt(sqrt) && u.Length0 == m && u.Length1 == m && r <= m
    modifies u
    ensures forall col :: r <= col < m ==> SumSquares(Column(Grid(u), m, col)) == 1.0
    ensures forall row, x :: 0 <= row < m && 0 <= x < r ==> u[row, x] == old(u[row, x])
    ensures fellBack <==> AnyCompletionFellBack(Grid(u), m, r, m, sqrt)
    ensures UnitColumns(old(Grid(u)), m, r) && PairwiseOrthogonal(Columns(old(Grid(u)), m, r)) && !fellBack ==>
      PairwiseOrthogonal(Columns(Grid(u), m, m))
  {
    ghost var G0 := Grid(u);
    ghost var cols := Columns(G0, m, r);
    ghost var hyp := UnitColumns(G0, m, r) && PairwiseOrthogonal(cols);
    fellBack := false;
    for col := r to m
      invariant Columns(Grid(u), m, col) == cols
      invariant forall c :: r <= c < col ==> SumSquares(cols[c]) == 1.0
      invariant forall row, x :: 0 <= row < m && 0 <= x < r ==> u[row, x] == old(u[row, x])
      invariant hyp ==> forall c :: 0 <= c < col ==> SumSquares(cols[c]) == 1.0
      invariant fellBack <==> AnyCompletionFellBack(Grid(u), m, r, col, sqrt)
      invariant hyp && !fellBack ==> PairwiseOrthogonal(cols)
    {
      cols, fellBack := CompleteColumnTracked(u, m, r, col, sqrt, cols, hyp, fellBack);
    }
  }

  /** One column of the completion, with the columns so far and whether an
      earlier column took the last resort: column col is completed, and when
      `tracked` the completion's invariant extends to it. */
  method CompleteColumnTracked(u: array2<real>, m: nat, r: nat, col: nat, sqrt: real -> real,
                               ghost cols: seq<seq<real>>, ghost tracked: bool, ghost fellBack: bool)
    returns (ghost next: seq<seq<real>>, ghost nextFellBack: bool)
    requires IsSqrt(sqrt) && u.Length0 == m && u.Length1 == m && r <= col < m
    requires Columns(Grid(u), m, col) == cols
    requires forall c :: r <= c < col ==> SumSquares(cols[c]) == 1.0
    requires tracked ==> forall c :: 0 <= c < col ==> SumSquares(cols[c]) == 1.0
    requires fellBack <==> AnyCompletionFellBack(Grid(u), m, r, col, sqrt)
    requires tracked && !fellBack ==> PairwiseOrthogonal(cols)
    modifies u
    ensures Columns(Grid(u), m, col + 1) == next
    ensures forall c :: r <= c <= col ==> SumSquares(next[c]) == 1.0
    ensures forall row, x :: 0 <= row < m && 0 <= x < m && x != col ==> u[row, x] == old(u[row, x])
    ensures tracked ==> forall c :: 0 <= c <= col ==> SumSquares(next[c]) == 1.0
    ensures nextFellBack <==> AnyCompletionFellBack(Grid(u), m, r, col + 1, sqrt)
    ensures tracked && !nextFellBack ==> PairwiseOrthogonal(next)
  {
    ghost var G := Grid(u);
    CompleteColumn(u, m, col, sqrt);
    next, nextFellBack := CompletionTracked(G, Grid(u), m, r, col, sqrt, cols, tracked, fellBack);
  }

  /** The ghost side of one completion step, from the matrix before (G) to
      the matrix after (H): the columns so far gain the completed column,
      and the last-resort record gains its step. */
  lemma CompletionTracked(G: seq<seq<real>>, H: seq<seq<real>>, m: nat, r: nat, col: nat, sqrt: real -> real,
                          cols: seq<seq<real>>, tracked: bool, fellBack: bool)
    returns (next: seq<seq<real>>, nextFellBack: bool)
    requires IsSqrt(sqrt) && IsMatrix(G, m, m) && IsMatrix(H, m, m) && r <= col < m
    requires forall row :: 0 <= row < m ==> H[row][col] == CompletionColumn(G, m, col, sqrt)[row]
    requires forall row, x :: 0 <= row < m && 0 <= x < m && x != col ==> H[row][x] == G[row][x]
    requires Columns(G, m, col) == cols
    requires forall c :: r <= c < col ==> SumSquares(cols[c]) == 1.0
    requires tracked ==> forall c :: 0 <= c < col ==> SumSquares(cols[c]) == 1.0
    requires fellBack <==> AnyCompletionFellBack(G, m, r, col, sqrt)
    requires tracked && !fellBack ==> PairwiseOrthogonal(cols)
    ensures Columns(H, m, col + 1) == next
    ensures forall c :: r <= c <= col ==> SumSquares(next[c]) == 1.0
    ensures tracked ==> forall c :: 0 <= c <= col ==> SumSquares(next[c]) == 1.0
    ensures nextFellBack <==> AnyCompletionFellBack(H, m, r, col + 1, sqrt)
    ensures tracked && !nextFellBack ==> PairwiseOrthogonal(next)
  {
    CompletionIsUnit(G, m, col, sqrt);
    var c := CompletionColumn(G, m, col, sqrt);
    if tracked {
      CompletionStep(cols, G, m, col, sqrt);
    }
    next := cols + [c];
    nextFellBack := fellBack || CompletionFellBack(G, m, col, sqrt);
    CompletionFlagStep(G, H, m, r, col, sqrt);
    assert next[col] == c && forall c' :: 0 <= c' < col ==> next[c'] == cols[c'];
    forall c' | 0 <= c' <= col
      ensures Column(H, m, c') == next[c']
    {
      if c' < col {
        assert cols[c'] == Column(G, m, c');
      }
    }
  }

  /** The completion step in terms of the columns so far: when it takes no
      last resort, the new column is orthogonal to each earlier column, so
      orthogonal columns stay so. */
  lemma CompletionStep(cols: seq<seq<real>>, G: seq<seq<real>>, m: nat, col: nat, sqrt: real -> real)
    requires IsSqrt(sqrt) && IsMatrix(G, m, m) && col < m && |cols| == col
    requires Columns(G, m, col) == cols
    requires forall l :: 0 <= l < col ==> SumSquares(cols[l]) == 1.0
    ensures var c := CompletionColumn(G, m, col, sqrt);
      PairwiseOrthogonal(cols) && !CompletionFellBack(G, m, col, sqrt) ==> PairwiseOrthogonal(cols + [c])
  {
    var c := CompletionColumn(G, m, col, sqrt);
    if PairwiseOrthogonal(cols) && !CompletionFellBack(G, m, col, sqrt) {
      var next := cols + [c];
      assert forall l :: 0 <= l < col ==> next[l] == cols[l];
      assert next[col] == c;
      CompletionOrthogonal(G, m, col, sqrt);
    }
  }

  // ---------------------------------------------------------------------------
  // svd

  /** S is zero off its diagonal within its leading min(m, n) square, as
      low_rank_approx's factored form needs. */
  lemma SMatrixDiagonal(E: seq<real>, m: nat, n: nat, sqrt: real -> real)
    requires |E| == n
    ensures LowRank.DiagonalUpTo(SMatrix(E, m, n, sqrt), LowRank.Min(m, n))
  {
  }

  /** Column i of U as the first stage leaves it, before Gram-Schmidt:
      zeros for a σ_i below Eps, otherwise A v_i / σ_i. */
  function LeftInput(A: seq<seq<real>>, V: seq<seq<real>>, S: seq<seq<real>>, m: nat, n: nat, i: nat)
    : (c: seq<real>)
    requires IsMatrix(A, m, n) && IsMatrix(V, n, n) && IsMatrix(S, m, n) && i < m && i < n
    ensures |c| == m && forall row :: 0 <= row < m ==> c[row] == LeftEntry(A, V, m, n, S[i][i], row, i)
  {
    seq(m, row requires 0 <= row < m => LeftEntry(A, V, m, n, S[i][i], row, i))
  }

  /** Some Gram-Schmidt step on a column i < r of U took the fallback, for
      U built from A, V and S; read from the finished U, whose columns
      before each step are the ones that step projected against. */
  ghost predicate LeftPassFellBack(A: seq<seq<real>>, V: seq<seq<real>>, S: seq<seq<real>>, U: seq<seq<real>>,
                                   m: nat, n: nat, r: nat, sqrt: real -> real)
    requires IsMatrix(A, m, n) && IsMatrix(V, n, n) && IsMatrix(S, m, n) && IsMatrix(U, m, m)
    requires r <= m && r <= n
  {
    exists i :: 0 <= i < r && PassFellBack(LeftInput(A, V, S, m, n, i), U, m, i, sqrt)
  }

  /** Building U from A, V and S took a fallback: some Gram-Schmidt step on
      a column i < min(m, n) fell back to e_i, or some completed column took
      the last resort. */
  ghost predicate UFellBack(A: seq<seq<real>>, V: seq<seq<real>>, S: seq<seq<real>>, U: seq<seq<real>>,
                            m: nat, n: nat, sqrt: real -> real)
    requires IsMatrix(A, m, n) && IsMatrix(V, n, n) && IsMatrix(S, m, n) && IsMatrix(U, m, m)
  {
    LeftPassFellBack(A, V, S, U, m, n, LowRank.Min(m, n), sqrt) ||
    AnyCompletionFellBack(U, m, LowRank.Min(m, n), m, sqrt)
  }

  /** What svd promises of U, as far as it holds with the fallbacks: an
      m×m matrix of unit columns, pairwise orthogonal unless a fallback was
      taken while building it. */
  ghost predicate LeftFactor(U: seq<seq<real>>, m: nat, fellBack: bool) {
    IsMatrix(U, m, m) &&
    (forall col :: 0 <= col < m ==> SumSquares(Column(U, m, col)) == 1.0) &&
    (!fellBack ==> PairwiseOrthogonal(Columns(U, m, m)))
  }

  /** svd from the eigen-decomposition of AᵗA on: ev and evec hold the
      eigenvalues and eigenvector columns; they are sorted in place, and the
      triple (U, S, V) is returned. V is the sorted eigenvector matrix, S
      holds the singular values of the sorted eigenvalues, and every column
      of U is a unit vector; U's columns are pairwise orthogonal unless a
      fallback was taken while building it, which fellBack records. */
  method Factorize(m: nat, n: nat, a: array2<real>, ev: array<real>, evec: array2<real>, sqrt: real -> real)
    returns (ret: array<array2?<real>>, ghost perm: seq<nat>, ghost fellBack: bool)
    requires IsSqrt(sqrt) && a.Length0 == m && a.Length1 == n
    requires ev.Length == n && evec.Length0 == n && evec.Length1 == n
    modifies ev, evec
    ensures NonIncreasing(ev[..]) && Rearranged(ev[..], Grid(evec), old(ev[..]), old(Grid(evec)), perm, n)
    ensures fresh(ret) && ret.Length == 3 && ret[0] != null && ret[1] != null && ret[2] != null
    ensures fresh(ret[0]) && fresh(ret[1]) && fresh(ret[2])
    ensures ret[0].Length0 == m && ret[0].Length1 == m && LeftFactor(Grid(ret[0]), m, fellBack)
    ensures Grid(ret[1]) == SMatrix(ev[..], m, n, sqrt)
    ensures Grid(ret[2]) == Grid(evec)
    ensures LowRank.Shaped(m, n, ret[0], ret[1], ret[2])
    ensures fellBack <==> UFellBack(Grid(a), Grid(ret[2]), Grid(ret[1]), Grid(ret[0]), m, n, sqrt)
  {
    perm := SortEigenpairs(ev, evec, n);
    var v := BuildV(evec, n);
    var s := BuildS(ev, m, n, sqrt);
    var u;
    u, fellBack := BuildU(a, v, s, m, n, sqrt);
    ret := new array2?<real>[3][u, s, v];
  }

  /** U: its first min(m, n) columns from A, V and S, orthonormalised, the
      rest completed; every column ends as a unit vector, and the columns
      are pairwise orthogonal unless a fallback was taken, which fellBack
      records. */
  method BuildU(a: array2<real>, v: array2<real>, s: array2<real>, m: nat, n: nat, sqrt: real -> real)
    returns (u: array2<real>, ghost fellBack: bool)
    requires IsSqrt(sqrt) && a.Length0 == m && a.Length1 == n && v.Length0 == n && v.Length1 == n
    requires s.Length0 == m && s.Length1 == n
    ensures fresh(u) && u.Length0 == m && u.Length1 == m
    ensures LeftFactor(Grid(u), m, fellBack)
    ensures fellBack <==> UFellBack(Grid(a), Grid(v), Grid(s), Grid(u), m, n, sqrt)
  {
    var r := if m < n then m else n;
    u := new real[m, m];
    ghost var passFell := FirstColumns(a, v, s, u, m, n, r, sqrt);
    ghost var M := Grid(u);
    ghost var completionFell := Complete(u, m, r, sqrt);
    fellBack := passFell || completionFell;
    UBuilt(Grid(a), Grid(v), Grid(s), M, Grid(u), m, n, r, sqrt, passFell, completionFell);
  }

  /** The first stage of U: its first r = min(m, n) columns from A, V and
      S, then the Gram-Schmidt pass over them; they end as unit vectors,
      pairwise orthogonal unless a step fell back, which passFell records. */
  method FirstColumns(a: array2<real>, v: array2<real>, s: array2<real>, u: array2<real>, m: nat, n: nat, r: nat,
                      sqrt: real -> real)
    returns (ghost passFell: bool)
    requires IsSqrt(sqrt) && a.Length0 == m && a.Length1 == n && v.Length0 == n && v.Length1 == n
    requires s.Length0 == m && s.Length1 == n && u.Length0 == m && u.Length1 == m
    requires u != a && u != v && u != s && r == LowRank.Min(m, n)
    modifies u
    ensures UnitColumns(Grid(u), m, r)
    ensures passFell <==> LeftPassFellBack(Grid(a), Grid(v), Grid(s), Grid(u), m, n, r, sqrt)
    ensures !passFell ==> PairwiseOrthogonal(Columns(Grid(u), m, r))
  {
    LeftColumns(a, v, s, u, m, n);
    ghost var L := Grid(u);
    passFell := GramSchmidt(u, m, r, sqrt);
    forall i | 0 <= i < r
      ensures Column(L, m, i) == LeftInput(Grid(a), Grid(v), Grid(s), m, n, i)
    {
    }
    if passFell {
      var i :| 0 <= i < r && PassFellBack(Column(L, m, i), Grid(u), m, i, sqrt);
      assert PassFellBack(LeftInput(Grid(a), Grid(v), Grid(s), m, n, i), Grid(u), m, i, sqrt);
    }
  }

  /** The ghost side of BuildU, from the matrix after the first stage (M)
      to the finished U: the fallback records of the two stages make up
      UFellBack, and U is a left factor. */
  lemma UBuilt(A: seq<seq<real>>, V: seq<seq<real>>, S: seq<seq<real>>, M: seq<seq<real>>, U: seq<seq<real>>,
               m: nat, n: nat, r: nat, sqrt: real -> real, passFell: bool, completionFell: bool)
    requires IsMatrix(A, m, n) && IsMatrix(V, n, n) && IsMatrix(S, m, n)
    requires IsMatrix(M, m, m) && IsMatrix(U, m, m) && r == LowRank.Min(m, n)
    requires UnitColumns(M, m, r)
    requires passFell <==> LeftPassFellBack(A, V, S, M, m, n, r, sqrt)
    requires !passFell ==> PairwiseOrthogonal(Columns(M, m, r))
    requires forall row, x :: 0 <= row < m && 0 <= x < r ==> U[row][x] == M[row][x]
    requires forall col :: r <= col < m ==> SumSquares(Column(U, m, col)) == 1.0
    requires completionFell <==> AnyCompletionFellBack(U, m, r, m, sqrt)
    requires PairwiseOrthogonal(Columns(M, m, r)) && !completionFell ==> PairwiseOrthogonal(Columns(U, m, m))
    ensures LeftFactor(U, m, passFell || completionFell)
    ensures passFell || completionFell <==> UFellBack(A, V, S, U, m, n, sqrt)
  {
    forall i | 0 <= i < r
      ensures PassFellBack(LeftInput(A, V, S, m, n, i), M, m, i, sqrt) <==>
              PassFellBack(LeftInput(A, V, S, m, n, i), U, m, i, sqrt)
    {
      ProjectAllFrame(LeftInput(A, V, S, m, n, i), M, U, i);
    }
    forall col | 0 <= col < r
      ensures SumSquares(Column(U, m, col)) == 1.0
    {
      assert Column(U, m, col) == Column(M, m, col);
    }
  }
}
