/**
 * What RScode<GF28Value> computes, as functions of matrices and byte blocks:
 *
 *  - the encoding matrix: encodeLineSize identity rows followed by the
 *    Cauchy rows 1 / (i + j) (RScode.hh:66-81);
 *  - one encoded line: the encoding-matrix row at the cursor times the data
 *    block (RScode.hh:102-134);
 *  - the gathered submatrix decode factorises and the decoding matrix
 *    Uinv Linv (RScode.hh:159-186, 221-327).
 *
 * The lemmas prove the systematic property of the encoding, the debug check
 * A Ainv = I, and the round trip: decoding any encodeLineSize encoded lines
 * whose gathered submatrix has nonzero pivots gives back the data block.
 *
 * The last section models matrixMultiplication's addressing as written, with
 * rows of encodeLineSize elements for every operand, shows where it departs
 * from the blocks of dataLineSize columns, and proves that it agrees with
 * them when the two sizes are equal.
 */
module Codec {
  import opened GF28Tables
  import opened GF28
  import opened Matrix
  import opened LU

  // ===================================================================
  // The encoding matrix
  // ===================================================================

  /** Entry (i, j) of the encoding matrix for k data lines: the identity for
      i < k, below it 1 / (x + y) with x = i and y = j. */
  function CauchyEntry(t: Tables, k: nat, i: nat, j: nat): GF28Value
    requires Sized(t)
  {
    if i < k then (if i == j then One else Zero)
    else Div(t, One, Add(FromUInt(i), FromUInt(j)))
  }

  function CauchyRow(t: Tables, k: nat, i: nat): (row: seq<GF28Value>)
    requires Sized(t)
    ensures |row| == k
  {
    seq(k, j requires 0 <= j < k => CauchyEntry(t, k, i, j))
  }

  /** The LIMIT x k encoding matrix the constructor builds. */
  function CauchyMatrix(t: Tables, k: nat): (c: Mat)
    requires Sized(t)
    ensures IsMatrix(c, LIMIT, k)
  {
    seq(LIMIT, i requires 0 <= i < LIMIT => CauchyRow(t, k, i))
  }

  /** The Cauchy parameters x = i and y = j come from disjoint ranges, so the
      divisor x + y is never zero. */
  lemma CauchyDivisor(k: nat, i: nat, j: nat)
    requires j < k <= i < LIMIT
    ensures Add(FromUInt(i), FromUInt(j)) != Zero
  {
    ValueFromUInt(i);
    ValueFromUInt(j);
  }

  /** Every entry of a Cauchy row is nonzero. */
  lemma CauchyNonzero(t: Tables, k: nat, i: nat, j: nat)
    requires Valid(t) && j < k <= i < LIMIT
    ensures CauchyEntry(t, k, i, j) != Zero
  {
    CauchyDivisor(k, i, j);
    DivZero(t, One, Add(FromUInt(i), FromUInt(j)));
  }

  // ===================================================================
  // Encoding
  // ===================================================================

  /** The line encodeLine emits at cursor `line` for a k x d data block: the
      encoding-matrix row times the block. */
  function EncodedLine(t: Tables, k: nat, line: nat, data: Mat, d: nat): (r: seq<GF28Value>)
    requires Sized(t) && IsMatrix(data, k, d)
    ensures |r| == d
  {
    MatMul(t, [CauchyRow(t, k, line)], data, d)[0]
  }

  /** The code is systematic: the first k lines reproduce the data lines. */
  lemma Systematic(t: Tables, k: nat, line: nat, data: Mat, d: nat)
    requires Valid(t) && IsMatrix(data, k, d) && line < k
    ensures EncodedLine(t, k, line, data, d) == data[line]
  {
    var row := CauchyRow(t, k, line);
    forall j | 0 <= j < d
      ensures EncodedLine(t, k, line, data, d)[j] == data[line][j]
    {
      DotUnit(t, row, Col(data, j), line);
    }
  }

  /** The encoded lines with the given cursor positions, in order. */
  function EncodedLines(t: Tables, k: nat, idx: seq<nat>, data: Mat, d: nat): (e: Mat)
    requires Sized(t) && IsMatrix(data, k, d)
    ensures IsMatrix(e, |idx|, d)
  {
    seq(|idx|, i requires 0 <= i < |idx| => EncodedLine(t, k, idx[i], data, d))
  }

  // ===================================================================
  // Decoding
  // ===================================================================

  /** The rows of c with the given indices, in order: the encoding matrix
      LUFactorization copies out of the Cauchy buffer. */
  function Gather(c: Mat, idx: seq<nat>, cols: nat): (a: Mat)
    requires IsMatrix(c, |c|, cols) && forall i :: 0 <= i < |idx| ==> idx[i] < |c|
    ensures IsMatrix(a, |idx|, cols)
  {
    seq(|idx|, i requires 0 <= i < |idx| => c[idx[i]])
  }

  /** Encoding the data and then keeping the lines with the given indices is
      multiplying the data by the gathered rows of the encoding matrix. */
  lemma GatherEncoded(t: Tables, k: nat, idx: seq<nat>, data: Mat, d: nat)
    requires Sized(t) && IsMatrix(data, k, d)
    requires forall i :: 0 <= i < |idx| ==> idx[i] < LIMIT
    ensures MatMul(t, Gather(CauchyMatrix(t, k), idx, k), data, d) == EncodedLines(t, k, idx, data, d)
  {
    var p := MatMul(t, Gather(CauchyMatrix(t, k), idx, k), data, d);
    forall i | 0 <= i < |idx|
      ensures p[i] == EncodedLines(t, k, idx, data, d)[i]
    {
      assert Gather(CauchyMatrix(t, k), idx, k)[i] == CauchyRow(t, k, idx[i]);
    }
  }

  /** The decoding matrix inverseEncodeMatrix forms: Uinv Linv. */
  function DecodeMatrix(t: Tables, a: Mat, n: nat): (ainv: Mat)
    requires Sized(t) && IsMatrix(a, n, n)
    ensures IsMatrix(ainv, n, n)
  {
    MatMul(t, UInverse(t, UMatrix(t, a, n), n), LInverse(t, LMatrix(t, a, n), n), n)
  }

  /** The source's last debug check: with nonzero pivots, A Ainv = I. */
  lemma DecodeInverse(t: Tables, a: Mat, n: nat)
    requires Valid(t) && IsMatrix(a, n, n) && Pivots(t, a, n)
    ensures MatMul(t, a, DecodeMatrix(t, a, n), n) == Identity(n)
  {
    var l, u := LMatrix(t, a, n), UMatrix(t, a, n);
    LUProduct(t, a, n);
    LUnitLower(t, a, n);
    UUpper(t, a, n);
    LInverseRight(t, l, n);
    UInverseRight(t, u, n);
    InverseByLU(t, a, l, u, LInverse(t, l, n), UInverse(t, u, n), n);
  }

  /** Decoding a block that a was applied to gives the block back. */
  lemma DecodeSolves(t: Tables, a: Mat, data: Mat, n: nat, d: nat)
    requires Valid(t) && IsMatrix(a, n, n) && IsMatrix(data, n, d) && Pivots(t, a, n)
    ensures MatMul(t, DecodeMatrix(t, a, n), MatMul(t, a, data, d), d) == data
  {
    var l, u := LMatrix(t, a, n), UMatrix(t, a, n);
    LUProduct(t, a, n);
    LUnitLower(t, a, n);
    UUpper(t, a, n);
    LInverseRight(t, l, n);
    UInverseRight(t, u, n);
    SolveByLU(t, a, l, u, LInverse(t, l, n), UInverse(t, u, n), data, n, d);
  }

  /** The round trip: encode a k x d block, keep any k lines whose gathered
      encoding rows have nonzero pivots, and decoding them gives the block. */
  lemma RoundTrip(t: Tables, k: nat, idx: seq<nat>, data: Mat, d: nat)
    requires Valid(t) && IsMatrix(data, k, d) && |idx| == k
    requires forall i :: 0 <= i < k ==> idx[i] < LIMIT
    requires Pivots(t, Gather(CauchyMatrix(t, k), idx, k), k)
    ensures MatMul(t, DecodeMatrix(t, Gather(CauchyMatrix(t, k), idx, k), k), EncodedLines(t, k, idx, data, d), d) == data
  {
    GatherEncoded(t, k, idx, data, d);
    DecodeSolves(t, Gather(CauchyMatrix(t, k), idx, k), data, k, d);
  }

  // ===================================================================
  // Scenarios of the test program
  // ===================================================================

  /** The factorisation of the identity matrix is I I: row i of U is row i of
      the identity ... */
  lemma {:induction false} IdentityU(t: Tables, n: nat, i: nat, j: nat)
    requires Valid(t) && i < n && j < n
    ensures UEntry(t, Identity(n), n, i, j) == Identity(n)[i][j]
    decreases i, 1
  {
    if i <= j {
      var row := LRow(t, Identity(n), n, i, i);
      forall k | 0 <= k < i
        ensures row[k] == Zero
      {
        IdentityL(t, n, i, k);
      }
      DotZero(t, row, UCol(t, Identity(n), n, j, i));
    }
  }

  /** ... and so is row r of L. */
  lemma {:induction false} IdentityL(t: Tables, n: nat, r: nat, c: nat)
    requires Valid(t) && r < n && c < n
    ensures LEntry(t, Identity(n), n, r, c) == Identity(n)[r][c]
    decreases c, 2
  {
    if r > c || c == 0 {
      var row := LRow(t, Identity(n), n, r, c);
      forall k | 0 <= k < c
        ensures row[k] == Zero
      {
        IdentityL(t, n, r, k);
      }
      DotZero(t, row, UCol(t, Identity(n), n, c, c));
      IdentityU(t, n, c, c);
      if r == c {
        DivSelf(t, One);
      }
    }
  }

  /** "No missing": decoding the first k encoded lines, which are the data
      lines themselves, gives the block back with no hypothesis on pivots. */
  lemma NoMissing(t: Tables, k: nat, data: Mat, d: nat)
    requires Valid(t) && IsMatrix(data, k, d) && k <= LIMIT
    ensures var idx := seq(k, i requires 0 <= i < k => i);
      MatMul(t, DecodeMatrix(t, Gather(CauchyMatrix(t, k), idx, k), k), EncodedLines(t, k, idx, data, d), d) == data
  {
    var idx := seq(k, i requires 0 <= i < k => i);
    var a := Gather(CauchyMatrix(t, k), idx, k);
    forall i | 0 <= i < k
      ensures a[i] == Identity(k)[i]
    {
    }
    assert a == Identity(k);
    forall i | 0 <= i < k
      ensures UEntry(t, a, k, i, i) != Zero
    {
      IdentityU(t, k, i, i);
    }
    RoundTrip(t, k, idx, data, d);
  }

  /** With a single data line, any one encoded line decodes: the 1 x 1
      gathered matrix is an identity entry or a nonzero Cauchy entry. */
  lemma SingleLine(t: Tables, line: nat, data: Mat, d: nat)
    requires Valid(t) && IsMatrix(data, 1, d) && line < LIMIT
    ensures MatMul(t, DecodeMatrix(t, Gather(CauchyMatrix(t, 1), [line], 1), 1), EncodedLines(t, 1, [line], data, d), d) == data
  {
    var a := Gather(CauchyMatrix(t, 1), [line], 1);
    assert UEntry(t, a, 1, 0, 0) == a[0][0];
    if line > 0 {
      CauchyNonzero(t, 1, line, 0);
    }
    RoundTrip(t, 1, [line], data, d);
  }

  // ===================================================================
  // Byte blocks
  // ===================================================================

  /** The offset row * k of the first element of a row, for rows of k
      elements. It is defined by recursion on the row so that the verifier
      meets the product only through RowStartValue. */
  function RowStart(k: nat, row: nat): nat {
    if row == 0 then 0 else k + RowStart(k, row - 1)
  }

  lemma {:induction false} RowStartValue(k: nat, row: nat)
    ensures RowStart(k, row) == row * k
  {
    if row > 0 {
      RowStartValue(k, row - 1);
    }
  }

  /** position(p, row, column): the offset of place (row, column) of a flat
      buffer with rows of k elements. */
  function Position(k: nat, row: nat, column: nat): nat {
    RowStart(k, row) + column
  }

  /** Every place of a rows x cols block lies inside its rows * cols elements. */
  lemma PositionBound(i: nat, j: nat, rows: nat, cols: nat)
    requires i < rows && j < cols
    ensures Position(cols, i, j) < rows * cols
  {
    RowStartValue(cols, i);
    MulMono(i + 1, rows, cols);
  }

  /** Distinct places of a block with rows of cols elements have distinct
      offsets. */
  lemma PositionInjective(r: nat, c: nat, i: nat, j: nat, cols: nat)
    requires c < cols && j < cols && (r != i || c != j)
    ensures Position(cols, r, c) != Position(cols, i, j)
  {
    if r < i {
      RowStartGap(cols, r, i);
    } else if i < r {
      RowStartGap(cols, i, r);
    }
  }

  /** A later row starts at least one whole row after an earlier one. */
  lemma {:induction false} RowStartGap(k: nat, r: nat, i: nat)
    requires r < i
    ensures RowStart(k, r) + k <= RowStart(k, i)
  {
    if r + 1 < i {
      RowStartGap(k, r, i - 1);
    }
  }

  lemma {:induction false} MulMono(a: nat, b: nat, c: nat)
    requires a <= b
    ensures a * c <= b * c
  {
    if a < b {
      MulMono(a, b - 1, c);
    }
  }

  /** A rows x cols byte block stored row after row, as field elements: the
      conversion T((unsigned int)byte) keeps the byte. */
  function Block(b: seq<bv8>, rows: nat, cols: nat): (m: Mat)
    requires rows * cols <= |b|
    ensures IsMatrix(m, rows, cols)
  {
    seq(rows, i requires 0 <= i < rows =>
      seq(cols, j requires 0 <= j < cols => PositionBound(i, j, rows, cols); GF28Value(b[Position(cols, i, j)])))
  }

  /** Each element of a block is the byte at its place in the buffer. */
  lemma BlockEntry(b: seq<bv8>, rows: nat, cols: nat, i: nat, j: nat)
    requires rows * cols <= |b| && i < rows && j < cols
    ensures Position(cols, i, j) < rows * cols
    ensures Block(b, rows, cols)[i][j].value == b[Position(cols, i, j)]
  {
    PositionBound(i, j, rows, cols);
  }

  // ===================================================================
  // The row stride of matrixMultiplication, as written (RScode.hh:303-318)
  // ===================================================================

  /** encodeLine as written: matrixMultiplication reads element (row, j) of
      the data block at Position(k, row, j), although the buffer holds rows
      of dataLineSize bytes. Every read must stay inside the k * d elements of
      tData. */
  function EncodedLineAsWritten(t: Tables, row: seq<GF28Value>, b: seq<bv8>, d: nat): (r: seq<GF28Value>)
    requires Sized(t)
    requires forall i, j :: 0 <= i < |row| && 0 <= j < d ==>
      Position(|row|, i, j) < |b| && Position(|row|, i, j) < |row| * d
    ensures |r| == d
  {
    seq(d, j requires 0 <= j < d =>
      Dot(t, row, seq(|row|, i requires 0 <= i < |row| => GF28Value(b[Position(|row|, i, j)]))))
  }

  /** With encodeLineSize 2 and dataLineSize 3, line 1 of the encoding matrix
      is the unit row (0, 1) and should reproduce data line 1, (1, 0, 0); as
      written it yields (0, 1, 0), the bytes at offsets 2, 3 and 4. */
  lemma StrideCounterexample(t: Tables)
    requires Valid(t)
    ensures forall i, j :: 0 <= i < 2 && 0 <= j < 3 ==> Position(2, i, j) < 5
    ensures var b: seq<bv8> := [0, 0, 0, 1, 0, 0];
      && Block(b, 2, 3)[1] == [One, Zero, Zero]
      && CauchyRow(t, 2, 1) == [Zero, One]
      && EncodedLineAsWritten(t, CauchyRow(t, 2, 1), b, 3) == [Zero, One, Zero]
  {
    PlacesTwoByThree();
    var b: seq<bv8> := [0, 0, 0, 1, 0, 0];
    var row := CauchyRow(t, 2, 1);
    assert row == [Zero, One];
    var r := EncodedLineAsWritten(t, row, b, 3);
    forall j | 0 <= j < 3
      ensures r[j] == GF28Value(b[2 + j])
    {
      assert Position(2, 1, j) == 2 + j;
      var col := seq(2, i requires 0 <= i < 2 => GF28Value(b[Position(2, i, j)]));
      DotUnit(t, row, col, 1);
    }
  }

  /** With as many data columns as rows, reading with rows of k elements is
      reading the block: entry j of the line as written is the row times
      column j of the block. */
  lemma AsWrittenSquare(t: Tables, row: seq<GF28Value>, b: seq<bv8>, j: nat)
    requires Sized(t) && |row| * |row| <= |b| && j < |row|
    ensures forall i, c :: 0 <= i < |row| && 0 <= c < |row| ==>
      Position(|row|, i, c) < |b| && Position(|row|, i, c) < |row| * |row|
    ensures EncodedLineAsWritten(t, row, b, |row|)[j] == Dot(t, row, Col(Block(b, |row|, |row|), j))
  {
    var k := |row|;
    forall i, c | 0 <= i < k && 0 <= c < k
      ensures Position(k, i, c) < k * k
    {
      PositionBound(i, c, k, k);
    }
    assert Col(Block(b, k, k), j) == seq(k, i requires 0 <= i < k => GF28Value(b[Position(k, i, j)]));
  }

  /** When dataLineSize equals encodeLineSize, as in the test program, encodeLine
      as written emits the encoded line. */
  lemma EncodeAsWrittenSquare(t: Tables, k: nat, line: nat, b: seq<bv8>)
    requires Sized(t) && k * k <= |b|
    ensures forall i, j :: 0 <= i < k && 0 <= j < k ==> Position(k, i, j) < |b| && Position(k, i, j) < k * k
    ensures EncodedLineAsWritten(t, CauchyRow(t, k, line), b, k) == EncodedLine(t, k, line, Block(b, k, k), k)
  {
    var row := CauchyRow(t, k, line);
    if k > 0 {
      AsWrittenSquare(t, row, b, 0);
    }
    forall j | 0 <= j < k
      ensures EncodedLineAsWritten(t, row, b, k)[j] == EncodedLine(t, k, line, Block(b, k, k), k)[j]
    {
      AsWrittenSquare(t, row, b, j);
    }
  }

  /** The elements matrixMultiplication computes in decode as written: row i
      of ainv times the lines read with rows of k elements. */
  function ProductAsWritten(t: Tables, ainv: Mat, e: seq<bv8>, k: nat, d: nat): (p: Mat)
    requires Sized(t) && IsMatrix(ainv, k, k)
    requires forall a, c :: 0 <= a < k && 0 <= c < d ==> Position(k, a, c) < |e| && Position(k, a, c) < k * d
    ensures IsMatrix(p, k, d)
  {
    seq(k, i requires 0 <= i < k => EncodedLineAsWritten(t, ainv[i], e, d))
  }

  /** A buffer of n default elements after matrixMultiplication has stored the
      elements of p before (i, j), row by row and column by column, element
      (a, c) at Position(k, a, c): tData of decode as written. */
  function Stores(p: Mat, k: nat, d: nat, n: nat, i: nat, j: nat): (r: seq<GF28Value>)
    requires IsMatrix(p, k, d) && i < k && j <= d
    requires forall a, c :: 0 <= a < k && 0 <= c < d ==> Position(k, a, c) < n
    ensures |r| == n
    decreases i, j
  {
    if j > 0 then Stores(p, k, d, n, i, j - 1)[Position(k, i, j - 1) := p[i][j - 1]]
    else if i > 0 then Stores(p, k, d, n, i - 1, d)
    else seq(n, _ => Zero)
  }

  /** decode as written: tData, of k * d elements, once every element is
      stored; decode then copies it byte by byte into data. */
  function DecodedAsWritten(t: Tables, ainv: Mat, e: seq<bv8>, k: nat, d: nat): (r: seq<GF28Value>)
    requires Sized(t) && IsMatrix(ainv, k, k)
    requires forall a, c :: 0 <= a < k && 0 <= c < d ==> Position(k, a, c) < |e| && Position(k, a, c) < k * d
    ensures |r| == k * d
  {
    if k == 0 then [] else Stores(ProductAsWritten(t, ainv, e, k, d), k, d, k * d, k - 1, d)
  }

  /** With as many columns as rows, every store lands on its own place, so a
      store before (i, j) has left its element there. */
  lemma {:induction false} StoresSquare(p: Mat, k: nat, n: nat, i: nat, j: nat, a: nat, c: nat)
    requires IsMatrix(p, k, k) && i < k && j <= k
    requires forall a, c :: 0 <= a < k && 0 <= c < k ==> Position(k, a, c) < n
    requires c < k && (a < i || (a == i && c < j))
    ensures Stores(p, k, k, n, i, j)[Position(k, a, c)] == p[a][c]
    decreases i, j
  {
    if j == 0 {
      StoresSquare(p, k, n, i - 1, k, a, c);
    } else if a != i || c != j - 1 {
      PositionInjective(a, c, i, j - 1, k);
      StoresSquare(p, k, n, i, j - 1, a, c);
    }
  }

  /** When dataLineSize equals encodeLineSize, as in the test program, decode
      as written stores the product of ainv and the lines, row after row. */
  lemma DecodeAsWrittenSquare(t: Tables, ainv: Mat, e: seq<bv8>, k: nat)
    requires Sized(t) && IsMatrix(ainv, k, k) && k * k <= |e|
    ensures forall a, c :: 0 <= a < k && 0 <= c < k ==> Position(k, a, c) < |e| && Position(k, a, c) < k * k
    ensures forall a, c :: 0 <= a < k && 0 <= c < k ==>
      DecodedAsWritten(t, ainv, e, k, k)[Position(k, a, c)] == MatMul(t, ainv, Block(e, k, k), k)[a][c]
  {
    forall a, c | 0 <= a < k && 0 <= c < k
      ensures Position(k, a, c) < k * k
    {
      PositionBound(a, c, k, k);
    }
    forall a, c | 0 <= a < k && 0 <= c < k
      ensures DecodedAsWritten(t, ainv, e, k, k)[Position(k, a, c)] == MatMul(t, ainv, Block(e, k, k), k)[a][c]
    {
      StoresSquare(ProductAsWritten(t, ainv, e, k, k), k, k * k, k - 1, k, a, c);
      AsWrittenSquare(t, ainv[a], e, c);
    }
  }

  /** The identity rows 0 and 1 of the encoding matrix give the decoding
      matrix I. */
  lemma DecodeMatrixIdentity(t: Tables)
    requires Valid(t)
    ensures DecodeMatrix(t, Gather(CauchyMatrix(t, 2), [0, 1], 2), 2) == Identity(2)
  {
    var a := Gather(CauchyMatrix(t, 2), [0, 1], 2);
    assert a[0] == Identity(2)[0] && a[1] == Identity(2)[1];
    assert a == Identity(2);
    forall i | 0 <= i < 2
      ensures UEntry(t, a, 2, i, i) != Zero
    {
      IdentityU(t, 2, i, i);
    }
    DecodeInverse(t, a, 2);
    MatMulIdentityLeft(t, DecodeMatrix(t, a, 2), 2);
  }

  /** With rows of 2 elements, the places of a 2 x 3 block lie at offsets 0
      to 4. */
  lemma PlacesTwoByThree()
    ensures forall a, c :: 0 <= a < 2 && 0 <= c < 3 ==> Position(2, a, c) < 5
  {
    assert RowStart(2, 1) == 2;
    forall a, c | 0 <= a < 2 && 0 <= c < 3
      ensures Position(2, a, c) < 5
    {
    }
  }

  /** With encodeLineSize 2 and dataLineSize 3, matrixMultiplication stores
      its six elements at offsets 0, 1, 2, 2, 3 and 4: offset 5 keeps its
      default element, whatever the product. */
  lemma LastPlaceUnstored(p: Mat)
    requires IsMatrix(p, 2, 3)
    ensures forall a, c :: 0 <= a < 2 && 0 <= c < 3 ==> Position(2, a, c) < 5
    ensures Stores(p, 2, 3, 6, 1, 3)[5] == Zero
  {
    PlacesTwoByThree();
    assert Stores(p, 2, 3, 6, 0, 3)[5] == Zero by {
      assert Stores(p, 2, 3, 6, 0, 0)[5] == Zero;
      assert Stores(p, 2, 3, 6, 0, 1)[5] == Zero;
      assert Stores(p, 2, 3, 6, 0, 2)[5] == Zero;
    }
    assert Stores(p, 2, 3, 6, 1, 0)[5] == Zero;
    assert Stores(p, 2, 3, 6, 1, 1)[5] == Zero;
    assert Stores(p, 2, 3, 6, 1, 2)[5] == Zero;
  }

  /** With encodeLineSize 2, dataLineSize 3 and the two data lines given as
      they are, indexArray [0, 1], the decoding matrix is I (see
      DecodeMatrixIdentity) and decode should give the lines back; as written
      it never writes offset 5, so the last byte of data line 1 always comes
      back as 0. */
  lemma DecodeStrideCounterexample(t: Tables, e: seq<bv8>)
    requires Valid(t) && |e| == 6
    ensures forall a, c :: 0 <= a < 2 && 0 <= c < 3 ==> Position(2, a, c) < |e| && Position(2, a, c) < 6
    ensures MatMul(t, Identity(2), Block(e, 2, 3), 3)[1][2] == GF28Value(e[5])
    ensures DecodedAsWritten(t, Identity(2), e, 2, 3)[5] == Zero
  {
    var b := Block(e, 2, 3);
    assert b[1][2] == GF28Value(e[RowStart(3, 1) + 2]);
    DotUnit(t, Identity(2)[1], Col(b, 2), 1);
    LastPlaceUnstored(ProductAsWritten(t, Identity(2), e, 2, 3));
  }
}
