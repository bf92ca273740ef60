/**
 * The recurrences behind RScode's decoder (RScode.hh:221-302), written as
 * functions of the matrices they read:
 *
 *  - LUFactorization: Doolittle's factorisation without pivoting, A = L U with
 *    L unit lower triangular and U upper triangular;
 *  - inverseLMatrix: the inverse of a unit lower triangular matrix by forward
 *    substitution;
 *  - inverseUMatrix: the inverse of an upper triangular matrix by backward
 *    substitution.
 *
 * Each entry is defined exactly as the source's loops compute it, with sums
 * accumulated in the source's order, and the lemmas prove what the in-code
 * debug checks print: L U = A, L Linv = I and U Uinv = I.
 */
module LU {
  import opened GF28Tables
  import opened GF28
  import opened Matrix

  // ===================================================================
  // LU factorisation
  // ===================================================================

  /** The first m entries of row r of L. */
  function LRow(t: Tables, a: Mat, n: nat, r: nat, m: nat): (row: seq<GF28Value>)
    requires Sized(t) && IsMatrix(a, n, n) && r < n && m <= n
    ensures |row| == m
    decreases m, 0
  {
    seq(m, k requires 0 <= k < m => LEntry(t, a, n, r, k))
  }

  /** The first m entries of column c of U. */
  function UCol(t: Tables, a: Mat, n: nat, c: nat, m: nat): (col: seq<GF28Value>)
    requires Sized(t) && IsMatrix(a, n, n) && c < n && m <= n
    ensures |col| == m
    decreases m, 0
  {
    seq(m, k requires 0 <= k < m => UEntry(t, a, n, k, c))
  }

  /** u[i][j]: zero below the diagonal, otherwise a[i][j] minus the sum over
      k < i of l[i][k] * u[k][j]. */
  function UEntry(t: Tables, a: Mat, n: nat, i: nat, j: nat): GF28Value
    requires Sized(t) && IsMatrix(a, n, n) && i < n && j < n
    decreases i, 1
  {
    if i > j then Zero
    else Sub(a[i][j], Dot(t, LRow(t, a, n, i, i), UCol(t, a, n, j, i)))
  }

  /** l[r][c]: zero above the diagonal and one on it, except in the first
      column, where the source divides a[0][0] by itself; below the diagonal
      a[r][c] minus the sum over k < c of l[r][k] * u[k][c], divided by the
      pivot u[c][c]. */
  function LEntry(t: Tables, a: Mat, n: nat, r: nat, c: nat): GF28Value
    requires Sized(t) && IsMatrix(a, n, n) && r < n && c < n
    decreases c, 2
  {
    if r < c then Zero
    else if r == c && c > 0 then One
    else Div(t, Sub(a[r][c], Dot(t, LRow(t, a, n, r, c), UCol(t, a, n, c, c))), UEntry(t, a, n, c, c))
  }

  function LMatrix(t: Tables, a: Mat, n: nat): (l: Mat)
    requires Sized(t) && IsMatrix(a, n, n)
    ensures IsMatrix(l, n, n)
    ensures forall r, c :: 0 <= r < n && 0 <= c < n ==> l[r][c] == LEntry(t, a, n, r, c)
  {
    seq(n, r requires 0 <= r < n => seq(n, c requires 0 <= c < n => LEntry(t, a, n, r, c)))
  }

  function UMatrix(t: Tables, a: Mat, n: nat): (u: Mat)
    requires Sized(t) && IsMatrix(a, n, n)
    ensures IsMatrix(u, n, n)
    ensures forall r, c :: 0 <= r < n && 0 <= c < n ==> u[r][c] == UEntry(t, a, n, r, c)
  {
    seq(n, r requires 0 <= r < n => seq(n, c requires 0 <= c < n => UEntry(t, a, n, r, c)))
  }

  /** Every pivot u[i][i] the factorisation divides by is nonzero. */
  ghost predicate Pivots(t: Tables, a: Mat, n: nat)
    requires Sized(t) && IsMatrix(a, n, n)
  {
    forall i :: 0 <= i < n ==> UEntry(t, a, n, i, i) != Zero
  }

  /** The prefixes of the rows of L and the columns of U that the
      factorisation sums over. */
  lemma LUPrefixes(t: Tables, a: Mat, n: nat, r: nat, c: nat, m: nat)
    requires Sized(t) && IsMatrix(a, n, n) && r < n && c < n && m <= n
    ensures LMatrix(t, a, n)[r][..m] == LRow(t, a, n, r, m)
    ensures Col(UMatrix(t, a, n), c)[..m] == UCol(t, a, n, c, m)
  {
  }

  /** One more step of the sum over k < m of l[r][k] * u[k][c], as the
      factorisation's inner loops accumulate it. */
  lemma LUSumStep(t: Tables, a: Mat, n: nat, r: nat, c: nat, m: nat, s: GF28Value, x: GF28Value, y: GF28Value)
    requires Sized(t) && IsMatrix(a, n, n) && r < n && c < n && m < n
    requires s == Dot(t, LRow(t, a, n, r, m), UCol(t, a, n, c, m))
    requires x == LEntry(t, a, n, r, m) && y == UEntry(t, a, n, m, c)
    ensures Add(s, Mul(t, x, y)) == Dot(t, LRow(t, a, n, r, m + 1), UCol(t, a, n, c, m + 1))
  {
    var xs, ys := LRow(t, a, n, r, m + 1), UCol(t, a, n, c, m + 1);
    DotStep(t, xs, ys, m);
    assert xs[..m + 1] == xs && ys[..m + 1] == ys;
    assert xs[..m] == LRow(t, a, n, r, m) && ys[..m] == UCol(t, a, n, c, m);
  }

  /** With nonzero pivots, L is unit lower triangular. */
  lemma LUnitLower(t: Tables, a: Mat, n: nat)
    requires Valid(t) && IsMatrix(a, n, n) && Pivots(t, a, n)
    ensures UnitLower(LMatrix(t, a, n), n)
  {
    if n > 0 {
      assert UEntry(t, a, n, 0, 0) == a[0][0];
      DivSelf(t, a[0][0]);
    }
  }

  /** U is upper triangular, and with nonzero pivots its diagonal is nonzero. */
  lemma UUpper(t: Tables, a: Mat, n: nat)
    requires Sized(t) && IsMatrix(a, n, n)
    ensures Upper(UMatrix(t, a, n), n)
    ensures Pivots(t, a, n) ==> NonzeroDiagonal(UMatrix(t, a, n), n)
  {
  }

  /** One entry of L U on or above the diagonal is the entry of A. */
  lemma LUProductUpper(t: Tables, a: Mat, n: nat, r: nat, c: nat)
    requires Valid(t) && IsMatrix(a, n, n) && Pivots(t, a, n) && r <= c < n
    ensures Dot(t, LMatrix(t, a, n)[r], Col(UMatrix(t, a, n), c)) == a[r][c]
  {
    var l, u := LMatrix(t, a, n), UMatrix(t, a, n);
    var col := Col(u, c);
    LUnitLower(t, a, n);
    DotAround(t, l[r], col, r);
    LUPrefixes(t, a, n, r, c, r);
    MulOne(t, u[r][c]);
    DotZero(t, l[r][r + 1..], col[r + 1..]);
  }

  /** One entry of L U below the diagonal is the entry of A. */
  lemma LUProductLower(t: Tables, a: Mat, n: nat, r: nat, c: nat)
    requires Valid(t) && IsMatrix(a, n, n) && Pivots(t, a, n) && c < r < n
    ensures Dot(t, LMatrix(t, a, n)[r], Col(UMatrix(t, a, n), c)) == a[r][c]
  {
    var l, u := LMatrix(t, a, n), UMatrix(t, a, n);
    var col := Col(u, c);
    DotAround(t, l[r], col, c);
    LUPrefixes(t, a, n, r, c, c);
    var d := Sub(a[r][c], Dot(t, LRow(t, a, n, r, c), UCol(t, a, n, c, c)));
    DivMul(t, d, u[c][c]);
    DotZero(t, l[r][c + 1..], col[c + 1..]);
  }

  /** Doolittle's theorem as the source's debug check prints it: with nonzero
      pivots, L U = A. */
  lemma LUProduct(t: Tables, a: Mat, n: nat)
    requires Valid(t) && IsMatrix(a, n, n) && Pivots(t, a, n)
    ensures MatMul(t, LMatrix(t, a, n), UMatrix(t, a, n), n) == a
  {
    var p := MatMul(t, LMatrix(t, a, n), UMatrix(t, a, n), n);
    forall r | 0 <= r < n
      ensures p[r] == a[r]
    {
      forall c | 0 <= c < n
        ensures p[r][c] == a[r][c]
      {
        if r <= c {
          LUProductUpper(t, a, n, r, c);
        } else {
          LUProductLower(t, a, n, r, c);
        }
      }
    }
  }

  // ===================================================================
  // Inverse of a unit lower triangular matrix
  // ===================================================================

  /** Entries lo..hi-1 of column j of Linv. */
  function LInvCol(t: Tables, l: Mat, n: nat, j: nat, lo: nat, hi: nat): (col: seq<GF28Value>)
    requires Sized(t) && IsMatrix(l, n, n) && j < n && lo <= hi <= n
    ensures |col| == hi - lo
    decreases hi, 0
  {
    seq(hi - lo, d requires 0 <= d < hi - lo => LInvEntry(t, l, n, lo + d, j))
  }

  /** linv[i][j]: zero above the diagonal, one on it, and below it the
      negated sum over j <= k < i of l[i][k] * linv[k][j]. */
  function LInvEntry(t: Tables, l: Mat, n: nat, i: nat, j: nat): GF28Value
    requires Sized(t) && IsMatrix(l, n, n) && i < n && j < n
    decreases i, 1
  {
    if i < j then Zero
    else if i == j then One
    else Sub(Zero, Dot(t, l[i][j..i], LInvCol(t, l, n, j, j, i)))
  }

  function LInverse(t: Tables, l: Mat, n: nat): (li: Mat)
    requires Sized(t) && IsMatrix(l, n, n)
    ensures IsMatrix(li, n, n)
    ensures forall i, j :: 0 <= i < n && 0 <= j < n ==> li[i][j] == LInvEntry(t, l, n, i, j)
  {
    seq(n, i requires 0 <= i < n => seq(n, j requires 0 <= j < n => LInvEntry(t, l, n, i, j)))
  }

  /** A stretch of a column of Linv, as the recurrence sums over it. */
  lemma LInverseColumn(t: Tables, l: Mat, n: nat, j: nat, lo: nat, hi: nat)
    requires Sized(t) && IsMatrix(l, n, n) && j < n && lo <= hi <= n
    ensures Col(LInverse(t, l, n), j)[lo..hi] == LInvCol(t, l, n, j, lo, hi)
  {
  }

  /** A stretch of a column of Linv ends with its entry at hi - 1. */
  lemma LInvColBack(t: Tables, l: Mat, n: nat, j: nat, lo: nat, hi: nat)
    requires Sized(t) && IsMatrix(l, n, n) && j < n && lo < hi <= n
    ensures LInvCol(t, l, n, j, lo, hi)[hi - lo - 1] == LInvEntry(t, l, n, hi - 1, j)
    ensures LInvCol(t, l, n, j, lo, hi)[..hi - lo - 1] == LInvCol(t, l, n, j, lo, hi - 1)
  {
  }

  /** One more step of the sum over j <= k < i of l[i][k] * linv[k][j], as
      inverseLMatrix's inner loop accumulates it. */
  lemma LInvSumStep(t: Tables, l: Mat, n: nat, i: nat, j: nat, m: nat, s: GF28Value, x: GF28Value, y: GF28Value)
    requires Sized(t) && IsMatrix(l, n, n) && j <= m < i < n
    requires s == Dot(t, l[i][j..m], LInvCol(t, l, n, j, j, m))
    requires x == l[i][m] && y == LInvEntry(t, l, n, m, j)
    ensures Add(s, Mul(t, x, y)) == Dot(t, l[i][j..m + 1], LInvCol(t, l, n, j, j, m + 1))
  {
    var xs, ys := l[i][j..m + 1], LInvCol(t, l, n, j, j, m + 1);
    assert xs[..|xs| - 1] == l[i][j..m] && xs[|xs| - 1] == x;
    assert ys[..|xs| - 1] == LInvCol(t, l, n, j, j, m) && ys[|xs| - 1] == y by {
      LInvColBack(t, l, n, j, j, m + 1);
    }
    DotBack(t, xs, ys, s, x, y);
  }

  /** Over a stretch [lo, last] whose last product is minus the dot product
      of the rest, the dot product is zero. */
  lemma WindowCancelBack(t: Tables, xs: seq<GF28Value>, c: seq<GF28Value>, lo: nat, last: nat)
    requires Sized(t) && |xs| == |c| && lo <= last < |xs|
    requires Mul(t, xs[last], c[last]) == Sub(Zero, Dot(t, xs[lo..last], c[lo..last]))
    ensures Dot(t, xs[lo..last + 1], c[lo..last + 1]) == Zero
  {
    DotStepUp(t, xs, c, lo, last);
    AddZero(Dot(t, xs[lo..last], c[lo..last]));
  }

  /** The entry of Linv below the diagonal, times the one on the diagonal of
      L, is minus the sum of the products over the rest of the row. */
  lemma LInverseStep(t: Tables, l: Mat, n: nat, i: nat, j: nat)
    requires Valid(t) && UnitLower(l, n) && j < i < n
    ensures var c := Col(LInverse(t, l, n), j);
      Mul(t, l[i][i], c[i]) == Sub(Zero, Dot(t, l[i][j..i], c[j..i]))
  {
    LInverseColumn(t, l, n, j, j, i);
    MulOne(t, Col(LInverse(t, l, n), j)[i]);
  }

  /** Column j of Linv is zero above the diagonal. */
  lemma LInverseColumnZero(t: Tables, l: Mat, n: nat, j: nat)
    requires Sized(t) && IsMatrix(l, n, n) && j < n
    ensures forall k :: 0 <= k < j ==> Col(LInverse(t, l, n), j)[k] == Zero
  {
  }

  /** Row i of L meets column j of Linv in zero over [j, i]. */
  lemma LInverseWindow(t: Tables, l: Mat, n: nat, i: nat, j: nat)
    requires Valid(t) && UnitLower(l, n) && j < i < n
    ensures var c := Col(LInverse(t, l, n), j);
      Dot(t, l[i][j..i + 1], c[j..i + 1]) == Zero
  {
    LInverseStep(t, l, n, i, j);
    WindowCancelBack(t, l[i], Col(LInverse(t, l, n), j), j, i);
  }

  /** Outside [j, i], row i of L or column j of Linv is zero, so the window
      is the whole dot product. */
  lemma LInverseWindowed(t: Tables, l: Mat, n: nat, i: nat, j: nat)
    requires Sized(t) && UnitLower(l, n) && j < i < n
    ensures var c := Col(LInverse(t, l, n), j);
      Dot(t, l[i], c) == Dot(t, l[i][j..i + 1], c[j..i + 1])
  {
    LInverseColumnZero(t, l, n, j);
    DotWindow(t, l[i], Col(LInverse(t, l, n), j), j, i + 1);
  }

  /** One entry of L Linv below the diagonal is zero. */
  lemma LInverseBelow(t: Tables, l: Mat, n: nat, i: nat, j: nat)
    requires Valid(t) && UnitLower(l, n) && j < i < n
    ensures Dot(t, l[i], Col(LInverse(t, l, n), j)) == Zero
  {
    LInverseWindow(t, l, n, i, j);
    LInverseWindowed(t, l, n, i, j);
  }

  /** One entry of L Linv is the entry of the identity. */
  lemma LInverseEntry(t: Tables, l: Mat, n: nat, i: nat, j: nat)
    requires Valid(t) && UnitLower(l, n) && i < n && j < n
    ensures Dot(t, l[i], Col(LInverse(t, l, n), j)) == (if i == j then One else Zero)
  {
    var c := Col(LInverse(t, l, n), j);
    if i < j {
      assert forall k :: 0 <= k < n ==> l[i][k] == Zero || c[k] == Zero;
      DotZero(t, l[i], c);
    } else if i == j {
      DotAround(t, l[i], c, i);
      MulOne(t, c[i]);
      DotZero(t, l[i][..i], c[..i]);
      DotZero(t, l[i][i + 1..], c[i + 1..]);
    } else {
      LInverseBelow(t, l, n, i, j);
    }
  }

  /** The matrix inverseLMatrix computes is a right inverse of L, as the
      source's debug check prints it: L Linv = I. */
  lemma LInverseRight(t: Tables, l: Mat, n: nat)
    requires Valid(t) && UnitLower(l, n)
    ensures MatMul(t, l, LInverse(t, l, n), n) == Identity(n)
  {
    var p := MatMul(t, l, LInverse(t, l, n), n);
    forall i | 0 <= i < n
      ensures p[i] == Identity(n)[i]
    {
      forall j | 0 <= j < n
        ensures p[i][j] == Identity(n)[i][j]
      {
        LInverseEntry(t, l, n, i, j);
      }
    }
  }

  // ===================================================================
  // Inverse of an upper triangular matrix
  // ===================================================================

  /** Entries lo..hi-1 of column j of Uinv. */
  function UInvCol(t: Tables, u: Mat, n: nat, j: nat, lo: nat, hi: nat): (col: seq<GF28Value>)
    requires Sized(t) && IsMatrix(u, n, n) && j < n && lo <= hi <= n
    ensures |col| == hi - lo
    decreases n - lo, 2
  {
    seq(hi - lo, d requires 0 <= d < hi - lo => UInvEntry(t, u, n, lo + d, j))
  }

  /** uinv[i][j]: zero below the diagonal, 1 / u[i][i] on it, and above it the
      negated sum over i < k <= j of u[i][k] * uinv[k][j], divided by u[i][i]. */
  function UInvEntry(t: Tables, u: Mat, n: nat, i: nat, j: nat): GF28Value
    requires Sized(t) && IsMatrix(u, n, n) && i < n && j < n
    decreases n - i, 1
  {
    if i > j then Zero
    else if i == j then Div(t, One, u[i][i])
    else Div(t, Sub(Zero, Dot(t, u[i][i + 1..j + 1], UInvCol(t, u, n, j, i + 1, j + 1))), u[i][i])
  }

  function UInverse(t: Tables, u: Mat, n: nat): (ui: Mat)
    requires Sized(t) && IsMatrix(u, n, n)
    ensures IsMatrix(ui, n, n)
    ensures forall i, j :: 0 <= i < n && 0 <= j < n ==> ui[i][j] == UInvEntry(t, u, n, i, j)
  {
    seq(n, i requires 0 <= i < n => seq(n, j requires 0 <= j < n => UInvEntry(t, u, n, i, j)))
  }

  /** A stretch of a column of Uinv, as the recurrence sums over it. */
  lemma UInverseColumn(t: Tables, u: Mat, n: nat, j: nat, lo: nat, hi: nat)
    requires Sized(t) && IsMatrix(u, n, n) && j < n && lo <= hi <= n
    ensures Col(UInverse(t, u, n), j)[lo..hi] == UInvCol(t, u, n, j, lo, hi)
  {
  }

  /** A stretch of a column of Uinv starts with its entry at lo. */
  lemma UInvColFront(t: Tables, u: Mat, n: nat, j: nat, lo: nat, hi: nat)
    requires Sized(t) && IsMatrix(u, n, n) && j < n && lo < hi <= n
    ensures UInvCol(t, u, n, j, lo, hi)[0] == UInvEntry(t, u, n, lo, j)
    ensures UInvCol(t, u, n, j, lo, hi)[1..] == UInvCol(t, u, n, j, lo + 1, hi)
  {
  }

  /** One more step of the sum over i < k <= j of u[i][k] * uinv[k][j], taken
      from k = j downwards as inverseUMatrix's inner loop accumulates it. */
  lemma UInvSumStep(t: Tables, u: Mat, n: nat, i: nat, j: nat, m: nat, s: GF28Value, x: GF28Value, y: GF28Value)
    requires Sized(t) && IsMatrix(u, n, n) && i < m <= j < n
    requires s == Dot(t, u[i][m + 1..j + 1], UInvCol(t, u, n, j, m + 1, j + 1))
    requires x == u[i][m] && y == UInvEntry(t, u, n, m, j)
    ensures Add(s, Mul(t, x, y)) == Dot(t, u[i][m..j + 1], UInvCol(t, u, n, j, m, j + 1))
  {
    UInvColFront(t, u, n, j, m, j + 1);
    assert u[i][m..j + 1][1..] == u[i][m + 1..j + 1];
    DotFront(t, u[i][m..j + 1], UInvCol(t, u, n, j, m, j + 1), s, x, y);
  }

  /** Over a stretch [lo, hi) whose first product is minus the dot product
      of the rest, the dot product is zero. */
  lemma WindowCancel(t: Tables, xs: seq<GF28Value>, c: seq<GF28Value>, lo: nat, hi: nat)
    requires Sized(t) && |xs| == |c| && lo < hi <= |xs|
    requires Mul(t, xs[lo], c[lo]) == Sub(Zero, Dot(t, xs[lo + 1..hi], c[lo + 1..hi]))
    ensures Dot(t, xs[lo..hi], c[lo..hi]) == Zero
  {
    DotStepDown(t, xs, c, lo, hi);
    AddZero(Dot(t, xs[lo + 1..hi], c[lo + 1..hi]));
  }

  /** The entry of Uinv above the diagonal, times the pivot, is minus the sum
      of the products over the rest of the row. */
  lemma UInverseStep(t: Tables, u: Mat, n: nat, i: nat, j: nat)
    requires Valid(t) && IsMatrix(u, n, n) && i < j < n && u[i][i] != Zero
    ensures var c := Col(UInverse(t, u, n), j);
      Mul(t, u[i][i], c[i]) == Sub(Zero, Dot(t, u[i][i + 1..j + 1], c[i + 1..j + 1]))
  {
    var c := Col(UInverse(t, u, n), j);
    UInverseColumn(t, u, n, j, i + 1, j + 1);
    DivMul(t, Sub(Zero, Dot(t, u[i][i + 1..j + 1], c[i + 1..j + 1])), u[i][i]);
    MulComm(t, u[i][i], c[i]);
  }

  /** Column j of Uinv is zero below the diagonal. */
  lemma UInverseColumnZero(t: Tables, u: Mat, n: nat, j: nat)
    requires Sized(t) && IsMatrix(u, n, n) && j < n
    ensures forall k :: j < k < n ==> Col(UInverse(t, u, n), j)[k] == Zero
  {
  }

  /** Row i of U meets column j of Uinv in zero over [i, j]. */
  lemma UInverseWindow(t: Tables, u: Mat, n: nat, i: nat, j: nat)
    requires Valid(t) && IsMatrix(u, n, n) && i < j < n && u[i][i] != Zero
    ensures var c := Col(UInverse(t, u, n), j);
      Dot(t, u[i][i..j + 1], c[i..j + 1]) == Zero
  {
    UInverseStep(t, u, n, i, j);
    WindowCancel(t, u[i], Col(UInverse(t, u, n), j), i, j + 1);
  }

  /** Outside [i, j], row i of U or column j of Uinv is zero, so the window
      is the whole dot product. */
  lemma UInverseWindowed(t: Tables, u: Mat, n: nat, i: nat, j: nat)
    requires Sized(t) && Upper(u, n) && i < j < n
    ensures var c := Col(UInverse(t, u, n), j);
      Dot(t, u[i], c) == Dot(t, u[i][i..j + 1], c[i..j + 1])
  {
    UInverseColumnZero(t, u, n, j);
    DotWindow(t, u[i], Col(UInverse(t, u, n), j), i, j + 1);
  }

  /** One entry of U Uinv above the diagonal is zero. */
  lemma UInverseAbove(t: Tables, u: Mat, n: nat, i: nat, j: nat)
    requires Valid(t) && Upper(u, n) && NonzeroDiagonal(u, n) && i < j < n
    ensures Dot(t, u[i], Col(UInverse(t, u, n), j)) == Zero
  {
    UInverseWindow(t, u, n, i, j);
    UInverseWindowed(t, u, n, i, j);
  }

  /** One entry of U Uinv is the entry of the identity. */
  lemma UInverseEntry(t: Tables, u: Mat, n: nat, i: nat, j: nat)
    requires Valid(t) && Upper(u, n) && NonzeroDiagonal(u, n) && i < n && j < n
    ensures Dot(t, u[i], Col(UInverse(t, u, n), j)) == (if i == j then One else Zero)
  {
    var c := Col(UInverse(t, u, n), j);
    if i > j {
      assert forall k :: 0 <= k < n ==> u[i][k] == Zero || c[k] == Zero;
      DotZero(t, u[i], c);
    } else if i == j {
      DotAround(t, u[i], c, i);
      DotZero(t, u[i][..i], c[..i]);
      DotZero(t, u[i][i + 1..], c[i + 1..]);
      DivMul(t, One, u[i][i]);
      MulComm(t, u[i][i], c[i]);
    } else {
      UInverseAbove(t, u, n, i, j);
    }
  }

  /** The matrix inverseUMatrix computes is a right inverse of U, as the
      source's debug check prints it: U Uinv = I. */
  lemma UInverseRight(t: Tables, u: Mat, n: nat)
    requires Valid(t) && Upper(u, n) && NonzeroDiagonal(u, n)
    ensures MatMul(t, u, UInverse(t, u, n), n) == Identity(n)
  {
    var p := MatMul(t, u, UInverse(t, u, n), n);
    forall i | 0 <= i < n
      ensures p[i] == Identity(n)[i]
    {
      forall j | 0 <= j < n
        ensures p[i][j] == Identity(n)[i][j]
      {
        UInverseEntry(t, u, n, i, j);
      }
    }
  }
}
