/**
 * Linear algebra over GF(2^8) as the codec in RScode.hh uses it: sums of
 * field elements, dot products accumulated left to right, matrix products,
 * identity matrices, row gathering and triangular matrices.
 *
 * Matrices are sequences of rows. The codec's flat buffers, addressed
 * through position(p, i, j) with the row stride encodeLineSize, are
 * two-dimensional arrays in the class RS.RScode; their contents are read back
 * into this representation to state what the codec computes.
 */
module Matrix {
  import opened GF28Tables
  import opened GF28

  type Mat = seq<seq<GF28Value>>

  predicate IsMatrix(m: Mat, rows: nat, cols: nat) {
    |m| == rows && forall i :: 0 <= i < rows ==> |m[i]| == cols
  }

  // ===================================================================
  // Sums
  // ===================================================================

  /** The sum of a sequence of elements, accumulated from the left, as the
      source's loops `t = t + ...` accumulate it. */
  function Sum(s: seq<GF28Value>): GF28Value
  {
    if |s| == 0 then Zero else Add(Sum(s[..|s| - 1]), s[|s| - 1])
  }

  /** A sum of zeros is zero. */
  lemma {:induction false} SumZeros(s: seq<GF28Value>)
    requires forall k :: 0 <= k < |s| ==> s[k] == Zero
    ensures Sum(s) == Zero
  {
    if |s| > 0 {
      SumZeros(s[..|s| - 1]);
      AddZero(Zero);
    }
  }

  /** One more step of a left-to-right accumulation. */
  lemma SumStep(s: seq<GF28Value>, k: nat)
    requires k < |s|
    ensures Sum(s[..k + 1]) == Add(Sum(s[..k]), s[k])
  {
    assert s[..k + 1][..k] == s[..k];
  }

  /** A sum splits at any point into the sums of its two parts. */
  lemma {:induction false} SumSplit(s: seq<GF28Value>, m: nat)
    requires m <= |s|
    ensures Sum(s) == Add(Sum(s[..m]), Sum(s[m..]))
  {
    if m == |s| {
      assert s[..m] == s;
    } else {
      var n := |s| - 1;
      SumSplit(s[..n], m);
      assert s[..n][..m] == s[..m];
      assert s[m..][..|s[m..]| - 1] == s[..n][m..];
      AddAssoc(Sum(s[..m]), Sum(s[..n][m..]), s[n]);
    }
  }

  /** The sum taken from the front: the first element plus the sum of the rest. */
  lemma SumFront(s: seq<GF28Value>)
    requires |s| > 0
    ensures Sum(s) == Add(s[0], Sum(s[1..]))
  {
    SumSplit(s, 1);
    assert s[..1][..0] == [];
  }

  /** A sum whose only nonzero term is at q is that term. */
  lemma SumSingle(s: seq<GF28Value>, q: nat)
    requires q < |s|
    requires forall k :: 0 <= k < |s| && k != q ==> s[k] == Zero
    ensures Sum(s) == s[q]
  {
    SumSplit(s, q);
    var rest := s[q..];
    SumFront(rest);
    assert forall k :: 0 <= k < q ==> s[..q][k] == Zero;
    assert forall k :: 0 <= k < |rest| - 1 ==> rest[1..][k] == s[q + 1 + k];
    SumZeros(s[..q]);
    SumZeros(rest[1..]);
  }

  /** Summing two sequences term by term adds their sums. */
  lemma {:induction false} SumPointwise(a: seq<GF28Value>, b: seq<GF28Value>, c: seq<GF28Value>)
    requires |a| == |b| == |c|
    requires forall k :: 0 <= k < |c| ==> c[k] == Add(a[k], b[k])
    ensures Sum(c) == Add(Sum(a), Sum(b))
  {
    if |c| > 0 {
      var n := |c| - 1;
      SumPointwise(a[..n], b[..n], c[..n]);
      var x, y := Sum(a[..n]), Sum(b[..n]);
      calc {
        Sum(c);
        Add(Add(x, y), Add(a[n], b[n]));
        { AddAssoc(x, y, Add(a[n], b[n])); AddAssoc(y, a[n], b[n]);
          AddComm(y, a[n]); AddAssoc(a[n], y, b[n]); AddAssoc(x, a[n], Add(y, b[n])); }
        Add(Add(x, a[n]), Add(y, b[n]));
      }
    }
  }

  /** Multiplying every term by x from the left multiplies the sum by x. */
  lemma {:induction false} SumScale(t: Tables, x: GF28Value, s: seq<GF28Value>, u: seq<GF28Value>)
    requires Valid(t) && |s| == |u|
    requires forall k :: 0 <= k < |u| ==> u[k] == Mul(t, x, s[k])
    ensures Sum(u) == Mul(t, x, Sum(s))
  {
    if |u| > 0 {
      var n := |u| - 1;
      SumScale(t, x, s[..n], u[..n]);
      MulDistrib(t, x, Sum(s[..n]), s[n]);
    } else {
      MulZero(t, x);
    }
  }

  /** Multiplying every term by x from the right multiplies the sum by x. */
  lemma SumScaleRight(t: Tables, x: GF28Value, s: seq<GF28Value>, u: seq<GF28Value>)
    requires Valid(t) && |s| == |u|
    requires forall k :: 0 <= k < |u| ==> u[k] == Mul(t, s[k], x)
    ensures Sum(u) == Mul(t, Sum(s), x)
  {
    forall k | 0 <= k < |u|
      ensures u[k] == Mul(t, x, s[k])
    {
      MulComm(t, s[k], x);
    }
    SumScale(t, x, s, u);
    MulComm(t, x, Sum(s));
  }

  /** Column j of a matrix. */
  function Col(m: Mat, j: nat): (c: seq<GF28Value>)
    requires forall i :: 0 <= i < |m| ==> j < |m[i]|
    ensures |c| == |m| && forall i :: 0 <= i < |m| ==> c[i] == m[i][j]
  {
    seq(|m|, i requires 0 <= i < |m| => m[i][j])
  }

  /** The sums of the rows of a grid, summed. */
  function RowSums(g: Mat): (r: seq<GF28Value>)
    ensures |r| == |g| && forall k :: 0 <= k < |g| ==> r[k] == Sum(g[k])
  {
    seq(|g|, k requires 0 <= k < |g| => Sum(g[k]))
  }

  /** The sums of the columns of a grid with p columns. */
  function ColSums(g: Mat, p: nat): (r: seq<GF28Value>)
    requires forall k :: 0 <= k < |g| ==> |g[k]| == p
    ensures |r| == p && forall l :: 0 <= l < p ==> r[l] == Sum(Col(g, l))
  {
    seq(p, l requires 0 <= l < p => Sum(Col(g, l)))
  }

  /** A finite double sum may be taken row by row or column by column. */
  lemma {:induction false} SumExchange(g: Mat, p: nat)
    requires forall k :: 0 <= k < |g| ==> |g[k]| == p
    ensures Sum(RowSums(g)) == Sum(ColSums(g, p))
  {
    if |g| == 0 {
      assert forall l :: 0 <= l < p ==> Col(g, l) == [];
      SumZeros(ColSums(g, p));
    } else {
      var n := |g| - 1;
      var h := g[..n];
      SumExchange(h, p);
      assert RowSums(g)[..n] == RowSums(h);
      forall l | 0 <= l < p
        ensures ColSums(g, p)[l] == Add(ColSums(h, p)[l], g[n][l])
      {
        assert Col(g, l)[..n] == Col(h, l);
      }
      SumPointwise(ColSums(h, p), g[n], ColSums(g, p));
    }
  }

  // ===================================================================
  // Dot products and matrix products
  // ===================================================================

  /** The termwise products of two vectors of the same length. */
  function Products(t: Tables, xs: seq<GF28Value>, ys: seq<GF28Value>): (r: seq<GF28Value>)
    requires Sized(t) && |xs| == |ys|
    ensures |r| == |xs| && forall k {:trigger r[k]} :: 0 <= k < |xs| ==> r[k] == Mul(t, xs[k], ys[k])
  {
    seq(|xs|, k requires 0 <= k < |xs| => Mul(t, xs[k], ys[k]))
  }

  /** The dot product, accumulated from the left. */
  function Dot(t: Tables, xs: seq<GF28Value>, ys: seq<GF28Value>): GF28Value
    requires Sized(t) && |xs| == |ys|
  {
    Sum(Products(t, xs, ys))
  }

  /** A dot product in which every term has a zero factor is zero. */
  lemma DotZero(t: Tables, xs: seq<GF28Value>, ys: seq<GF28Value>)
    requires Sized(t) && |xs| == |ys|
    requires forall k :: 0 <= k < |xs| ==> xs[k] == Zero || ys[k] == Zero
    ensures Dot(t, xs, ys) == Zero
  {
    var p := Products(t, xs, ys);
    forall k | 0 <= k < |p|
      ensures p[k] == Zero
    {
      MulZero(t, xs[k]);
      MulZero(t, ys[k]);
    }
    SumZeros(p);
  }

  /** A dot product split around index i: the part before i, the term at i
      and the part after i. */
  lemma DotAround(t: Tables, xs: seq<GF28Value>, ys: seq<GF28Value>, i: nat)
    requires Sized(t) && |xs| == |ys| && i < |xs|
    ensures Dot(t, xs, ys) ==
      Add(Add(Dot(t, xs[..i], ys[..i]), Mul(t, xs[i], ys[i])), Dot(t, xs[i + 1..], ys[i + 1..]))
  {
    var s := Products(t, xs, ys);
    SumSplit(s, i);
    SumFront(s[i..]);
    assert s[..i] == Products(t, xs[..i], ys[..i]);
    assert s[i..][1..] == Products(t, xs[i + 1..], ys[i + 1..]);
    AddAssoc(Sum(s[..i]), s[i], Sum(s[i..][1..]));
  }

  /** A dot product splits at any point into the dot products of the two parts. */
  lemma DotSplit(t: Tables, xs: seq<GF28Value>, ys: seq<GF28Value>, m: nat)
    requires Sized(t) && |xs| == |ys| && m <= |xs|
    ensures Dot(t, xs, ys) == Add(Dot(t, xs[..m], ys[..m]), Dot(t, xs[m..], ys[m..]))
  {
    var s := Products(t, xs, ys);
    SumSplit(s, m);
    assert s[..m] == Products(t, xs[..m], ys[..m]);
    assert s[m..] == Products(t, xs[m..], ys[m..]);
  }

  /** One more step of a left-to-right dot-product accumulation. */
  lemma DotStep(t: Tables, xs: seq<GF28Value>, ys: seq<GF28Value>, k: nat)
    requires Sized(t) && |xs| == |ys| && k < |xs|
    ensures Dot(t, xs[..k + 1], ys[..k + 1]) == Add(Dot(t, xs[..k], ys[..k]), Mul(t, xs[k], ys[k]))
  {
    var s := Products(t, xs[..k + 1], ys[..k + 1]);
    SumStep(s, k);
    assert s[..k] == Products(t, xs[..k], ys[..k]);
  }

  /** One more step of a right-to-left dot-product accumulation over [lo, hi). */
  lemma DotStepDown(t: Tables, xs: seq<GF28Value>, ys: seq<GF28Value>, lo: nat, hi: nat)
    requires Sized(t) && |xs| == |ys| && lo < hi <= |xs|
    ensures Dot(t, xs[lo..hi], ys[lo..hi]) == Add(Dot(t, xs[lo + 1..hi], ys[lo + 1..hi]), Mul(t, xs[lo], ys[lo]))
  {
    var s := Products(t, xs[lo..hi], ys[lo..hi]);
    SumFront(s);
    assert s[1..] == Products(t, xs[lo + 1..hi], ys[lo + 1..hi]);
    AddComm(s[0], Sum(s[1..]));
  }

  /** A dot product is its last term added to the dot product of the rest. */
  lemma DotBack(t: Tables, xs: seq<GF28Value>, ys: seq<GF28Value>, s: GF28Value, x: GF28Value, y: GF28Value)
    requires Sized(t) && |xs| == |ys| > 0
    requires s == Dot(t, xs[..|xs| - 1], ys[..|xs| - 1]) && x == xs[|xs| - 1] && y == ys[|xs| - 1]
    ensures Add(s, Mul(t, x, y)) == Dot(t, xs, ys)
  {
    DotStep(t, xs, ys, |xs| - 1);
    assert xs[..|xs|] == xs && ys[..|xs|] == ys;
  }

  /** A dot product is its first term added to the dot product of the rest. */
  lemma DotFront(t: Tables, xs: seq<GF28Value>, ys: seq<GF28Value>, s: GF28Value, x: GF28Value, y: GF28Value)
    requires Sized(t) && |xs| == |ys| > 0
    requires s == Dot(t, xs[1..], ys[1..]) && x == xs[0] && y == ys[0]
    ensures Add(s, Mul(t, x, y)) == Dot(t, xs, ys)
  {
    DotStepDown(t, xs, ys, 0, |xs|);
    assert xs[0..|xs|] == xs && ys[0..|xs|] == ys;
    assert xs[1..|xs|] == xs[1..] && ys[1..|xs|] == ys[1..];
  }

  /** One more step of a left-to-right dot-product accumulation over [lo, hi). */
  lemma DotStepUp(t: Tables, xs: seq<GF28Value>, ys: seq<GF28Value>, lo: nat, hi: nat)
    requires Sized(t) && |xs| == |ys| && lo <= hi < |xs|
    ensures Dot(t, xs[lo..hi + 1], ys[lo..hi + 1]) == Add(Dot(t, xs[lo..hi], ys[lo..hi]), Mul(t, xs[hi], ys[hi]))
  {
    var us, vs := xs[lo..hi + 1], ys[lo..hi + 1];
    var s := Products(t, us, vs);
    var m := hi - lo;
    SumStep(s, m);
    assert s[..m + 1] == s;
    assert us[..m] == xs[lo..hi] && vs[..m] == ys[lo..hi];
    assert s[..m] == Products(t, us[..m], vs[..m]);
  }

  /** Leading terms with a zero factor do not contribute to a dot product. */
  lemma DotDropFront(t: Tables, xs: seq<GF28Value>, ys: seq<GF28Value>, lo: nat)
    requires Sized(t) && |xs| == |ys| && lo <= |xs|
    requires forall k :: 0 <= k < lo ==> xs[k] == Zero || ys[k] == Zero
    ensures Dot(t, xs, ys) == Dot(t, xs[lo..], ys[lo..])
  {
    DotSplit(t, xs, ys, lo);
    DotZero(t, xs[..lo], ys[..lo]);
    AddZero(Dot(t, xs[lo..], ys[lo..]));
  }

  /** Trailing terms with a zero factor do not contribute to a dot product. */
  lemma DotDropBack(t: Tables, xs: seq<GF28Value>, ys: seq<GF28Value>, hi: nat)
    requires Sized(t) && |xs| == |ys| && hi <= |xs|
    requires forall k :: hi <= k < |xs| ==> xs[k] == Zero || ys[k] == Zero
    ensures Dot(t, xs, ys) == Dot(t, xs[..hi], ys[..hi])
  {
    DotSplit(t, xs, ys, hi);
    DotZero(t, xs[hi..], ys[hi..]);
    AddZero(Dot(t, xs[..hi], ys[..hi]));
  }

  /** A dot product whose terms outside [lo, hi) all have a zero factor is the
      dot product over [lo, hi). */
  lemma DotWindow(t: Tables, xs: seq<GF28Value>, ys: seq<GF28Value>, lo: nat, hi: nat)
    requires Sized(t) && |xs| == |ys| && lo <= hi <= |xs|
    requires forall k :: 0 <= k < lo ==> xs[k] == Zero || ys[k] == Zero
    requires forall k :: hi <= k < |xs| ==> xs[k] == Zero || ys[k] == Zero
    ensures Dot(t, xs, ys) == Dot(t, xs[lo..hi], ys[lo..hi])
  {
    DotDropFront(t, xs, ys, lo);
    DotDropBack(t, xs[lo..], ys[lo..], hi - lo);
    assert xs[lo..][..hi - lo] == xs[lo..hi] && ys[lo..][..hi - lo] == ys[lo..hi];
  }

  /** Matrix product of an m x n matrix and an n x p matrix. */
  function MatMul(t: Tables, x: Mat, y: Mat, p: nat): (r: Mat)
    requires Sized(t) && IsMatrix(x, |x|, |y|) && IsMatrix(y, |y|, p)
    ensures IsMatrix(r, |x|, p)
    ensures forall i, j :: 0 <= i < |x| && 0 <= j < p ==> r[i][j] == Dot(t, x[i], Col(y, j))
  {
    seq(|x|, i requires 0 <= i < |x| =>
      seq(p, j requires 0 <= j < p => Dot(t, x[i], Col(y, j))))
  }

  /** The n x n identity matrix. */
  function Identity(n: nat): (r: Mat)
    ensures IsMatrix(r, n, n)
    ensures forall i, j :: 0 <= i < n && 0 <= j < n ==> r[i][j] == (if i == j then One else Zero)
  {
    seq(n, i requires 0 <= i < n => seq(n, j requires 0 <= j < n => if i == j then One else Zero))
  }

  /** A dot product with a unit vector picks one entry. */
  lemma DotUnit(t: Tables, xs: seq<GF28Value>, ys: seq<GF28Value>, q: nat)
    requires Valid(t) && |xs| == |ys| && q < |xs|
    requires xs[q] == One && forall k :: 0 <= k < |xs| && k != q ==> xs[k] == Zero
    ensures Dot(t, xs, ys) == ys[q]
  {
    SumSingle(Products(t, xs, ys), q);
    MulOne(t, ys[q]);
  }

  lemma MatMulIdentityLeft(t: Tables, y: Mat, p: nat)
    requires Valid(t) && IsMatrix(y, |y|, p)
    ensures MatMul(t, Identity(|y|), y, p) == y
  {
    var n := |y|;
    var r := MatMul(t, Identity(n), y, p);
    forall i | 0 <= i < n
      ensures r[i] == y[i]
    {
      forall j | 0 <= j < p
        ensures r[i][j] == y[i][j]
      {
        DotUnit(t, Identity(n)[i], Col(y, j), i);
      }
    }
  }

  lemma MatMulIdentityRight(t: Tables, x: Mat, n: nat)
    requires Valid(t) && IsMatrix(x, |x|, n)
    ensures MatMul(t, x, Identity(n), n) == x
  {
    var r := MatMul(t, x, Identity(n), n);
    forall i | 0 <= i < |x|
      ensures r[i] == x[i]
    {
      forall j | 0 <= j < n
        ensures r[i][j] == x[i][j]
      {
        var c := Col(Identity(n), j);
        SumSingle(Products(t, x[i], c), j);
        MulOne(t, x[i][j]);
      }
    }
  }

  /** The grid of triple products x[i][k] * y[k][l] * z[l][j] for fixed i, j. */
  function TripleGrid(t: Tables, x: Mat, y: Mat, z: Mat, q: nat, i: nat, j: nat): (g: Mat)
    requires Sized(t) && i < |x| && j < q
    requires IsMatrix(x, |x|, |y|) && IsMatrix(y, |y|, |z|) && IsMatrix(z, |z|, q)
    ensures IsMatrix(g, |y|, |z|)
    ensures forall k, l :: 0 <= k < |y| && 0 <= l < |z| ==>
      g[k][l] == Mul(t, x[i][k], Mul(t, y[k][l], z[l][j]))
  {
    seq(|y|, k requires 0 <= k < |y| =>
      seq(|z|, l requires 0 <= l < |z| => Mul(t, x[i][k], Mul(t, y[k][l], z[l][j]))))
  }

  /** One term of the outer sum of (x y) z is a column sum of the grid. */
  lemma AssocColumn(t: Tables, x: Mat, y: Mat, z: Mat, q: nat, i: nat, j: nat, l: nat)
    requires Valid(t) && i < |x| && j < q && l < |z|
    requires IsMatrix(x, |x|, |y|) && IsMatrix(y, |y|, |z|) && IsMatrix(z, |z|, q)
    ensures Mul(t, Dot(t, x[i], Col(y, l)), z[l][j]) == Sum(Col(TripleGrid(t, x, y, z, q, i, j), l))
  {
    var g := TripleGrid(t, x, y, z, q, i, j);
    var terms := Products(t, x[i], Col(y, l));
    forall k | 0 <= k < |y|
      ensures Col(g, l)[k] == Mul(t, terms[k], z[l][j])
    {
      MulAssoc(t, x[i][k], y[k][l], z[l][j]);
    }
    SumScaleRight(t, z[l][j], terms, Col(g, l));
  }

  /** One term of the outer sum of x (y z) is a row sum of the grid. */
  lemma AssocRow(t: Tables, x: Mat, y: Mat, z: Mat, q: nat, i: nat, j: nat, k: nat)
    requires Valid(t) && i < |x| && j < q && k < |y|
    requires IsMatrix(x, |x|, |y|) && IsMatrix(y, |y|, |z|) && IsMatrix(z, |z|, q)
    ensures Mul(t, x[i][k], Dot(t, y[k], Col(z, j))) == Sum(TripleGrid(t, x, y, z, q, i, j)[k])
  {
    SumScale(t, x[i][k], Products(t, y[k], Col(z, j)), TripleGrid(t, x, y, z, q, i, j)[k]);
  }

  lemma AssocLeft(t: Tables, x: Mat, y: Mat, z: Mat, q: nat, i: nat, j: nat)
    requires Valid(t) && i < |x| && j < q
    requires IsMatrix(x, |x|, |y|) && IsMatrix(y, |y|, |z|) && IsMatrix(z, |z|, q)
    ensures Dot(t, MatMul(t, x, y, |z|)[i], Col(z, j))
         == Sum(ColSums(TripleGrid(t, x, y, z, q, i, j), |z|))
  {
    var g := TripleGrid(t, x, y, z, q, i, j);
    var xy := MatMul(t, x, y, |z|);
    var lhs := Products(t, xy[i], Col(z, j));
    forall l | 0 <= l < |z|
      ensures lhs[l] == ColSums(g, |z|)[l]
    {
      AssocColumn(t, x, y, z, q, i, j, l);
    }
    assert lhs == ColSums(g, |z|);
  }

  lemma AssocRight(t: Tables, x: Mat, y: Mat, z: Mat, q: nat, i: nat, j: nat)
    requires Valid(t) && i < |x| && j < q
    requires IsMatrix(x, |x|, |y|) && IsMatrix(y, |y|, |z|) && IsMatrix(z, |z|, q)
    ensures Dot(t, x[i], Col(MatMul(t, y, z, q), j))
         == Sum(RowSums(TripleGrid(t, x, y, z, q, i, j)))
  {
    var g := TripleGrid(t, x, y, z, q, i, j);
    var yz := MatMul(t, y, z, q);
    var rhs := Products(t, x[i], Col(yz, j));
    forall k | 0 <= k < |y|
      ensures rhs[k] == RowSums(g)[k]
    {
      AssocRow(t, x, y, z, q, i, j, k);
    }
    assert rhs == RowSums(g);
  }

  /** Matrix multiplication is associative. */
  lemma MatMulAssoc(t: Tables, x: Mat, y: Mat, z: Mat, q: nat)
    requires Valid(t)
    requires IsMatrix(x, |x|, |y|) && IsMatrix(y, |y|, |z|) && IsMatrix(z, |z|, q)
    ensures MatMul(t, MatMul(t, x, y, |z|), z, q) == MatMul(t, x, MatMul(t, y, z, q), q)
  {
    var l := MatMul(t, MatMul(t, x, y, |z|), z, q);
    var r := MatMul(t, x, MatMul(t, y, z, q), q);
    forall i | 0 <= i < |x|
      ensures l[i] == r[i]
    {
      forall j | 0 <= j < q
        ensures l[i][j] == r[i][j]
      {
        AssocLeft(t, x, y, z, q, i, j);
        AssocRight(t, x, y, z, q, i, j);
        SumExchange(TripleGrid(t, x, y, z, q, i, j), |z|);
      }
    }
  }

  // ===================================================================
  // Triangular matrices
  // ===================================================================

  /** Lower triangular with ones on the diagonal. */
  predicate UnitLower(m: Mat, n: nat) {
    && IsMatrix(m, n, n)
    && (forall i, j :: 0 <= i < j < n ==> m[i][j] == Zero)
    && (forall i :: 0 <= i < n ==> m[i][i] == One)
  }

  /** Upper triangular. */
  predicate Upper(m: Mat, n: nat) {
    && IsMatrix(m, n, n)
    && (forall i, j :: 0 <= j < i < n ==> m[i][j] == Zero)
  }

  /** Every diagonal entry is nonzero. */
  predicate NonzeroDiagonal(m: Mat, n: nat)
    requires IsMatrix(m, n, n)
  {
    forall i :: 0 <= i < n ==> m[i][i] != Zero
  }

  /** Row r of a unit lower triangular matrix times x: the entry of x in row r
      plus the part of the sum over the rows above it. */
  lemma LowerRowEntry(t: Tables, l: Mat, x: Mat, n: nat, p: nat, r: nat, j: nat)
    requires Valid(t) && UnitLower(l, n) && IsMatrix(x, n, p) && r < n && j < p
    ensures MatMul(t, l, x, p)[r][j] == Add(Dot(t, l[r][..r], Col(x, j)[..r]), x[r][j])
  {
    var c := Col(x, j);
    DotAround(t, l[r], c, r);
    MulOne(t, x[r][j]);
    DotZero(t, l[r][r + 1..], c[r + 1..]);
  }

  /** Row r of an upper triangular matrix times x: the diagonal entry times the
      entry of x in row r, plus the part of the sum over the rows below it. */
  lemma UpperRowEntry(t: Tables, u: Mat, x: Mat, n: nat, p: nat, r: nat, j: nat)
    requires Valid(t) && Upper(u, n) && IsMatrix(x, n, p) && r < n && j < p
    ensures MatMul(t, u, x, p)[r][j] == Add(Mul(t, u[r][r], x[r][j]), Dot(t, u[r][r + 1..], Col(x, j)[r + 1..]))
  {
    var c := Col(x, j);
    DotAround(t, u[r], c, r);
    DotZero(t, u[r][..r], c[..r]);
  }

  /** A unit lower triangular matrix can be cancelled from the left: rows
      below i agree. */
  lemma {:induction false} LowerCancelRows(t: Tables, l: Mat, x: Mat, y: Mat, n: nat, p: nat, i: nat)
    requires Valid(t) && UnitLower(l, n) && IsMatrix(x, n, p) && IsMatrix(y, n, p) && i <= n
    requires MatMul(t, l, x, p) == MatMul(t, l, y, p)
    ensures forall r :: 0 <= r < i ==> x[r] == y[r]
  {
    if i > 0 {
      var r := i - 1;
      LowerCancelRows(t, l, x, y, n, p, r);
      forall j | 0 <= j < p
        ensures x[r][j] == y[r][j]
      {
        LowerRowEntry(t, l, x, n, p, r, j);
        LowerRowEntry(t, l, y, n, p, r, j);
        assert Col(x, j)[..r] == Col(y, j)[..r];
      }
    }
  }

  /** An upper triangular matrix with a nonzero diagonal can be cancelled from
      the left: rows from i on agree. */
  lemma {:induction false} UpperCancelRows(t: Tables, u: Mat, x: Mat, y: Mat, n: nat, p: nat, i: nat)
    requires Valid(t) && Upper(u, n) && NonzeroDiagonal(u, n)
    requires IsMatrix(x, n, p) && IsMatrix(y, n, p) && i <= n
    requires MatMul(t, u, x, p) == MatMul(t, u, y, p)
    ensures forall r :: i <= r < n ==> x[r] == y[r]
    decreases n - i
  {
    if i < n {
      UpperCancelRows(t, u, x, y, n, p, i + 1);
      forall j | 0 <= j < p
        ensures x[i][j] == y[i][j]
      {
        UpperRowEntry(t, u, x, n, p, i, j);
        UpperRowEntry(t, u, y, n, p, i, j);
        assert Col(x, j)[i + 1..] == Col(y, j)[i + 1..];
        MulCancel(t, u[i][i], x[i][j], y[i][j]);
      }
    }
  }

  /** A right inverse of a unit lower triangular matrix is also a left inverse. */
  lemma LowerLeftInverse(t: Tables, l: Mat, li: Mat, n: nat)
    requires Valid(t) && UnitLower(l, n) && IsMatrix(li, n, n)
    requires MatMul(t, l, li, n) == Identity(n)
    ensures MatMul(t, li, l, n) == Identity(n)
  {
    var m := MatMul(t, li, l, n);
    MatMulAssoc(t, l, li, l, n);
    MatMulIdentityLeft(t, l, n);
    MatMulIdentityRight(t, l, n);
    LowerCancelRows(t, l, m, Identity(n), n, n, n);
  }

  /** A right inverse of an upper triangular matrix with a nonzero diagonal is
      also a left inverse. */
  lemma UpperLeftInverse(t: Tables, u: Mat, ui: Mat, n: nat)
    requires Valid(t) && Upper(u, n) && NonzeroDiagonal(u, n) && IsMatrix(ui, n, n)
    requires MatMul(t, u, ui, n) == Identity(n)
    ensures MatMul(t, ui, u, n) == Identity(n)
  {
    var m := MatMul(t, ui, u, n);
    MatMulAssoc(t, u, ui, u, n);
    MatMulIdentityLeft(t, u, n);
    MatMulIdentityRight(t, u, n);
    UpperCancelRows(t, u, m, Identity(n), n, n, 0);
  }

  /** With a = l u and right inverses li of l and ui of u, the product ui li is
      a right inverse of a. */
  lemma InverseByLU(t: Tables, a: Mat, l: Mat, u: Mat, li: Mat, ui: Mat, n: nat)
    requires Valid(t) && IsMatrix(l, n, n) && IsMatrix(u, n, n)
    requires IsMatrix(li, n, n) && IsMatrix(ui, n, n)
    requires a == MatMul(t, l, u, n)
    requires MatMul(t, l, li, n) == Identity(n) && MatMul(t, u, ui, n) == Identity(n)
    ensures MatMul(t, a, MatMul(t, ui, li, n), n) == Identity(n)
  {
    var ainv := MatMul(t, ui, li, n);
    MatMulAssoc(t, l, u, ainv, n);
    MatMulAssoc(t, u, ui, li, n);
    MatMulIdentityLeft(t, li, n);
  }

  /** Solving through the factorisation: with a = l u, l unit lower
      triangular, u upper triangular with a nonzero diagonal, and right inverses
      li and ui, the product (ui li) recovers d from a d. */
  lemma SolveByLU(t: Tables, a: Mat, l: Mat, u: Mat, li: Mat, ui: Mat, d: Mat, n: nat, p: nat)
    requires Valid(t) && UnitLower(l, n) && Upper(u, n) && NonzeroDiagonal(u, n)
    requires IsMatrix(li, n, n) && IsMatrix(ui, n, n) && IsMatrix(d, n, p)
    requires a == MatMul(t, l, u, n)
    requires MatMul(t, l, li, n) == Identity(n) && MatMul(t, u, ui, n) == Identity(n)
    ensures MatMul(t, MatMul(t, ui, li, n), MatMul(t, a, d, p), p) == d
  {
    var ud := MatMul(t, u, d, p);
    LowerLeftInverse(t, l, li, n);
    UpperLeftInverse(t, u, ui, n);
    MatMulAssoc(t, l, u, d, p);
    MatMulAssoc(t, ui, li, MatMul(t, l, ud, p), p);
    MatMulAssoc(t, li, l, ud, p);
    MatMulIdentityLeft(t, ud, p);
    MatMulAssoc(t, ui, u, d, p);
    MatMulIdentityLeft(t, d, p);
  }
}
