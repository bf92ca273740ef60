/**
 * The erasure codec RScode<GF28Value> of RScode.hh.
 *
 * An object holds the LIMIT x encodeLineSize encoding matrix (identity rows,
 * then Cauchy rows), a cursor curLine over its rows and a status. encodeLine
 * multiplies the row at the cursor by a block of encodeLineSize data lines and
 * advances the cursor; decode gathers the encoding-matrix rows of the lines it
 * is given, factorises them as L U, inverts both factors and multiplies the
 * lines it was given by Uinv Linv.
 *
 * The source's flat buffers T[rows * encodeLineSize] are two-dimensional
 * arrays here, one per buffer, allocated once by the constructor; the byte
 * buffers the caller passes are arrays of bytes holding blocks row after row,
 * with rows of dataLineSize bytes (see Codec.EncodedLineAsWritten and
 * Codec.DecodedAsWritten for how the source's own addressing departs from
 * that).
 */
module RS {
  import opened GF28Tables
  import opened GF28
  import opened Matrix
  import opened LU
  import opened Codec

  /** E_RSCODE_STS. */
  datatype Status = Ok | Init | ConstructErr | EncodingErr | DecodingErr

  /** The contents of a buffer, row by row. */
  function Rows(a: array2<GF28Value>): (m: Mat)
    reads a
    ensures IsMatrix(m, a.Length0, a.Length1)
    ensures forall i, j :: 0 <= i < a.Length0 && 0 <= j < a.Length1 ==> m[i][j] == a[i, j]
  {
    seq(a.Length0, i requires 0 <= i < a.Length0 reads a =>
      seq(a.Length1, j requires 0 <= j < a.Length1 reads a => a[i, j]))
  }

  /** A buffer that agrees with a matrix entry by entry holds that matrix. */
  lemma RowsEqual(a: array2<GF28Value>, m: Mat)
    requires IsMatrix(m, a.Length0, a.Length1)
    requires forall i, j :: 0 <= i < a.Length0 && 0 <= j < a.Length1 ==> a[i, j] == m[i][j]
    ensures Rows(a) == m
  {
    forall i | 0 <= i < a.Length0
      ensures Rows(a)[i] == m[i]
    {
    }
  }

  /** The conversion loops T((unsigned int)byte) of encodeLine and decode: a
      rows x cols block of bytes, stored row after row, as field elements. */
  method ToElements(b: array<bv8>, rows: nat, cols: nat) returns (m: array2<GF28Value>)
    requires rows * cols <= b.Length
    ensures fresh(m) && m.Length0 == rows && m.Length1 == cols
    ensures Rows(m) == Block(b[..], rows, cols)
  {
    m := new GF28Value[rows, cols];
    ghost var block := Block(b[..], rows, cols);
    for i := 0 to rows
      invariant forall r, c :: 0 <= r < i && 0 <= c < cols ==> m[r, c] == block[r][c]
    {
      for j := 0 to cols
        invariant forall r, c :: 0 <= r < i && 0 <= c < cols ==> m[r, c] == block[r][c]
        invariant forall c :: 0 <= c < j ==> m[i, c] == block[i][c]
      {
        PositionBound(i, j, rows, cols);
        m[i, j] := GF28Value(b[Position(cols, i, j)]);
      }
    }
    RowsEqual(m, block);
  }

  /** The conversion loop value(t) of decode: a buffer of field elements
      stored row after row into the first rows * cols bytes of b. */
  method ToBytes(m: array2<GF28Value>, b: array<bv8>)
    requires m.Length0 * m.Length1 <= b.Length
    modifies b
    ensures Block(b[..], m.Length0, m.Length1) == Rows(m)
    ensures forall p :: m.Length0 * m.Length1 <= p < b.Length ==> b[p] == old(b[p])
  {
    var rows, cols := m.Length0, m.Length1;
    for i := 0 to rows
      invariant forall r, c :: 0 <= r < i && 0 <= c < cols ==>
        Position(cols, r, c) < b.Length && b[Position(cols, r, c)] == m[r, c].value
      invariant forall p :: rows * cols <= p < b.Length ==> b[p] == old(b[p])
    {
      for j := 0 to cols
        invariant forall r, c :: 0 <= r < i && 0 <= c < cols ==>
          Position(cols, r, c) < b.Length && b[Position(cols, r, c)] == m[r, c].value
        invariant forall c :: 0 <= c < j ==>
          Position(cols, i, c) < b.Length && b[Position(cols, i, c)] == m[i, c].value
        invariant forall p :: rows * cols <= p < b.Length ==> b[p] == old(b[p])
      {
        PositionBound(i, j, rows, cols);
        forall r, c | 0 <= r < rows && 0 <= c < cols && (r != i || c != j)
          ensures Position(cols, r, c) != Position(cols, i, j)
        {
          PositionInjective(r, c, i, j, cols);
        }
        b[Position(cols, i, j)] := m[i, j].value;
      }
    }
    forall r | 0 <= r < rows
      ensures Block(b[..], rows, cols)[r] == Rows(m)[r]
    {
      forall c | 0 <= c < cols
        ensures Block(b[..], rows, cols)[r][c] == Rows(m)[r][c]
      {
        BlockEntry(b[..], rows, cols, r, c);
      }
    }
  }

  class RScode {
    /** The tables of the multiplication-table singleton the operators read. */
    const gf: Tables
    const encodeLineSize: nat
    const limit: nat
    var curLine: nat
    var error: Status
    const cauchy: array2<GF28Value>
    const l: array2<GF28Value>
    const u: array2<GF28Value>
    const lInverse: array2<GF28Value>
    const uInverse: array2<GF28Value>
    const encodeMatrix: array2<GF28Value>
    const encodeInverse: array2<GF28Value>

    /** The constructor succeeded, so the buffers exist. */
    predicate Constructed()
      reads this
    {
      error != Init && error != ConstructErr
    }

    /** The sizes and buffers a successful constructor leaves: between 1 and
        LIMIT data lines, limit LIMIT, and distinct buffers of the shapes
        allocated. */
    predicate Allocated() {
      && 1 <= encodeLineSize <= LIMIT && limit == LIMIT
      && cauchy.Length0 == LIMIT && cauchy.Length1 == encodeLineSize
      && l.Length0 == encodeLineSize && l.Length1 == encodeLineSize
      && u.Length0 == encodeLineSize && u.Length1 == encodeLineSize
      && lInverse.Length0 == encodeLineSize && lInverse.Length1 == encodeLineSize
      && uInverse.Length0 == encodeLineSize && uInverse.Length1 == encodeLineSize
      && encodeMatrix.Length0 == encodeLineSize && encodeMatrix.Length1 == encodeLineSize
      && encodeInverse.Length0 == encodeLineSize && encodeInverse.Length1 == encodeLineSize
      && cauchy != l && cauchy != u && cauchy != lInverse && cauchy != uInverse
      && cauchy != encodeMatrix && cauchy != encodeInverse
      && l != u && l != lInverse && l != uInverse && l != encodeMatrix && l != encodeInverse
      && u != lInverse && u != uInverse && u != encodeMatrix && u != encodeInverse
      && lInverse != uInverse && lInverse != encodeMatrix && lInverse != encodeInverse
      && uInverse != encodeMatrix && uInverse != encodeInverse
      && encodeMatrix != encodeInverse
    }

    /** Once constructed, the object is allocated and the Cauchy buffer holds
        the encoding matrix. */
    ghost predicate Valid()
      reads this, cauchy
    {
      && Sized(gf)
      && (Constructed() ==> Allocated() && Rows(cauchy) == CauchyMatrix(gf, encodeLineSize))
    }

    /** RScode(encodeLineSize, dataLineSize): a size outside [1, LIMIT] is a
        construction error; otherwise the encoding matrix is built, the
        cursor is 0 and the status is ok. The second size is not used. */
    constructor (t: Tables, encodeLineSize: nat, dataLineSize: nat)
      requires Sized(t)
      ensures Valid() && gf == t && this.encodeLineSize == encodeLineSize && curLine == 0
      ensures error == (if encodeLineSize < 1 || encodeLineSize > LIMIT then ConstructErr else Ok)
      ensures error == Ok ==> Allocated()
      ensures fresh(cauchy) && fresh(l) && fresh(u) && fresh(lInverse) && fresh(uInverse)
      ensures fresh(encodeMatrix) && fresh(encodeInverse)
    {
      var ok := 1 <= encodeLineSize <= LIMIT;
      var k := if ok then encodeLineSize else 0;
      gf := t;
      this.encodeLineSize := encodeLineSize;
      limit := if ok then LIMIT else 0;
      curLine := 0;
      cauchy := new GF28Value[if ok then LIMIT else 0, k];
      l := new GF28Value[k, k];
      u := new GF28Value[k, k];
      lInverse := new GF28Value[k, k];
      uInverse := new GF28Value[k, k];
      encodeMatrix := new GF28Value[k, k];
      encodeInverse := new GF28Value[k, k];
      error := if ok then Init else ConstructErr;
      new;
      if ok {
        BuildEncodingMatrix();
        error := Ok;
      }
    }

    /** The loops of the constructor that fill the encoding matrix: identity
        rows, then the Cauchy rows 1 / (i + j). */
    method BuildEncodingMatrix()
      requires Sized(gf) && encodeLineSize <= LIMIT
      requires cauchy.Length0 == LIMIT && cauchy.Length1 == encodeLineSize
      modifies cauchy
      ensures Rows(cauchy) == CauchyMatrix(gf, encodeLineSize)
    {
      var k := encodeLineSize;
      for i := 0 to k
        invariant forall r, c :: 0 <= r < i && 0 <= c < k ==> cauchy[r, c] == CauchyEntry(gf, k, r, c)
      {
        for j := 0 to k
          invariant forall r, c :: 0 <= r < i && 0 <= c < k ==> cauchy[r, c] == CauchyEntry(gf, k, r, c)
          invariant forall c :: 0 <= c < j ==> cauchy[i, c] == CauchyEntry(gf, k, i, c)
        {
          if i == j {
            cauchy[i, j] := One;
          } else {
            cauchy[i, j] := Zero;
          }
        }
      }
      for i := k to LIMIT
        invariant forall r, c :: 0 <= r < i && 0 <= c < k ==> cauchy[r, c] == CauchyEntry(gf, k, r, c)
      {
        for j := 0 to k
          invariant forall r, c :: 0 <= r < i && 0 <= c < k ==> cauchy[r, c] == CauchyEntry(gf, k, r, c)
          invariant forall c :: 0 <= c < j ==> cauchy[i, c] == CauchyEntry(gf, k, i, c)
        {
          var x := FromUInt(i);
          var y := FromUInt(j);
          cauchy[i, j] := Div(gf, One, Add(x, y));
        }
      }
      RowsEqual(cauchy, CauchyMatrix(gf, k));
    }

    /** clear(): rewinds the cursor and forgets an encoding or decoding error. */
    method Clear()
      requires Valid()
      modifies this
      ensures Valid()
      ensures curLine == 0
      ensures error == (if old(error) == EncodingErr || old(error) == DecodingErr then Ok else old(error))
    {
      curLine := 0;
      if error == EncodingErr || error == DecodingErr {
        error := Ok;
      }
    }

    /** encodeLine(data, dataLineSize, encode): writes the encoded line at the
        cursor for the encodeLineSize x dataLineSize block in data into the
        first dataLineSize bytes of encode and advances the cursor. */
    method EncodeLine(data: array<bv8>, dataLineSize: nat, encode: array<bv8>) returns (ret: int)
      requires Valid()
      requires Constructed() && curLine < limit ==>
        encodeLineSize * dataLineSize <= data.Length && dataLineSize <= encode.Length
      modifies this, encode
      ensures Valid()
      ensures !old(Constructed()) ==>
        ret == -1 && error == old(error) && curLine == old(curLine) && encode[..] == old(encode[..])
      ensures old(Constructed()) && (dataLineSize == 0 || old(curLine) >= limit) ==>
        ret == -1 && error == EncodingErr && curLine == old(curLine) && encode[..] == old(encode[..])
      ensures old(Constructed()) && dataLineSize > 0 && old(curLine) < limit ==>
        && ret == 0 && error == old(error) && curLine == old(curLine) + 1
        && (forall j :: 0 <= j < dataLineSize ==>
              encode[j] == EncodedLine(gf, encodeLineSize, old(curLine), Block(old(data[..]), encodeLineSize, dataLineSize), dataLineSize)[j].value)
        && (forall p :: dataLineSize <= p < encode.Length ==> encode[p] == old(encode[p]))
    {
      if error == Init || error == ConstructErr {
        return -1;
      }
      if dataLineSize == 0 {
        error := EncodingErr;
        return -1;
      }
      if curLine >= limit {
        error := EncodingErr;
        return -1;
      }
      ghost var e := EncodedLine(gf, encodeLineSize, curLine, Block(data[..], encodeLineSize, dataLineSize), dataLineSize);
      var tEncode := EncodeToElements(data, dataLineSize);
      assert Rows(tEncode) == [e];
      ToBytes(tEncode, encode);
      forall j | 0 <= j < dataLineSize
        ensures encode[j] == e[j].value
      {
        BlockEntry(encode[..], 1, dataLineSize, 0, j);
      }
      curLine := curLine + 1;
      ret := 0;
    }

    /** The arithmetic of encodeLine: the data block as field elements times
        the encoding-matrix row at the cursor. */
    method EncodeToElements(data: array<bv8>, dataLineSize: nat) returns (tEncode: array2<GF28Value>)
      requires Valid() && Constructed() && curLine < limit
      requires encodeLineSize * dataLineSize <= data.Length
      ensures fresh(tEncode) && tEncode.Length0 == 1 && tEncode.Length1 == dataLineSize
      ensures Rows(tEncode) ==
        [EncodedLine(gf, encodeLineSize, curLine, Block(data[..], encodeLineSize, dataLineSize), dataLineSize)]
    {
      var tData := ToElements(data, encodeLineSize, dataLineSize);
      tEncode := new GF28Value[1, dataLineSize];
      var _ := MatrixMultiplication(cauchy, curLine, 1, encodeLineSize, tData, encodeLineSize, dataLineSize, tEncode);
      assert Rows(cauchy)[curLine..curLine + 1] == [CauchyRow(gf, encodeLineSize, curLine)];
    }

    /** decode(encode, indexArray, data, dataLineSize): encode holds
        encodeLineSize lines of dataLineSize bytes, line i being the encoded
        line indexArray[i]; data receives the product of the decoding matrix
        and those lines. */
    method Decode(encode: array<bv8>, indexArray: array<nat>, data: array<bv8>, dataLineSize: nat) returns (ret: int)
      requires Valid()
      requires Constructed() ==>
        encodeLineSize * dataLineSize <= encode.Length && encodeLineSize * dataLineSize <= data.Length
      requires Constructed() ==> encodeLineSize <= indexArray.Length
      requires Constructed() ==> forall i :: 0 <= i < encodeLineSize ==> indexArray[i] < LIMIT
      modifies this, encodeMatrix, l, u, lInverse, uInverse, encodeInverse, data
      ensures Valid() && curLine == old(curLine)
      ensures !old(Constructed()) ==>
        && ret == -1 && error == old(error) && data[..] == old(data[..])
        && unchanged(encodeMatrix, l, u, lInverse, uInverse, encodeInverse)
      ensures old(Constructed()) && dataLineSize == 0 ==>
        && ret == -1 && error == DecodingErr && data[..] == old(data[..])
        && unchanged(encodeMatrix, l, u, lInverse, uInverse, encodeInverse)
      ensures old(Constructed()) && dataLineSize > 0 ==>
        && ret == 0 && error == old(error)
        && Rows(encodeMatrix) == Gather(CauchyMatrix(gf, encodeLineSize), old(indexArray[..encodeLineSize]), encodeLineSize)
        && Rows(l) == LMatrix(gf, Rows(encodeMatrix), encodeLineSize)
        && Rows(u) == UMatrix(gf, Rows(encodeMatrix), encodeLineSize)
        && Rows(lInverse) == LInverse(gf, Rows(l), encodeLineSize)
        && Rows(uInverse) == UInverse(gf, Rows(u), encodeLineSize)
        && Rows(encodeInverse) == DecodeMatrix(gf, Rows(encodeMatrix), encodeLineSize)
        && Block(data[..], encodeLineSize, dataLineSize) ==
             MatMul(gf, Rows(encodeInverse), Block(old(encode[..]), encodeLineSize, dataLineSize), dataLineSize)
        && (forall p :: encodeLineSize * dataLineSize <= p < data.Length ==> data[p] == old(data[p]))
    {
      if error == Init || error == ConstructErr {
        return -1;
      }
      if dataLineSize == 0 {
        error := DecodingErr;
        return -1;
      }
      LUFactorization(indexArray);
      InverseEncodeMatrix();
      var tData := DecodeToElements(encode, dataLineSize);
      ToBytes(tData, data);
      return 0;
    }

    /** The arithmetic of decode: the decoding matrix times the given lines as
        field elements. */
    method DecodeToElements(encode: array<bv8>, dataLineSize: nat) returns (tData: array2<GF28Value>)
      requires Sized(gf) && Allocated()
      requires encodeLineSize * dataLineSize <= encode.Length
      ensures fresh(tData) && tData.Length0 == encodeLineSize && tData.Length1 == dataLineSize
      ensures Rows(tData) ==
        MatMul(gf, Rows(encodeInverse), Block(encode[..], encodeLineSize, dataLineSize), dataLineSize)
    {
      var tEncode := ToElements(encode, encodeLineSize, dataLineSize);
      tData := new GF28Value[encodeLineSize, dataLineSize];
      var _ := MatrixMultiplication(encodeInverse, 0, encodeLineSize, encodeLineSize, tEncode, encodeLineSize, dataLineSize, tData);
      assert Rows(encodeInverse)[0..encodeLineSize] == Rows(encodeInverse);
    }

    /** LUFactorization(indexArray): copies the encoding-matrix rows named by
        indexArray into encodeMatrix and factorises it. */
    method LUFactorization(indexArray: array<nat>)
      requires Valid() && Constructed()
      requires encodeLineSize <= indexArray.Length
      requires forall i :: 0 <= i < encodeLineSize ==> indexArray[i] < LIMIT
      modifies encodeMatrix, l, u
      ensures Rows(encodeMatrix) == Gather(CauchyMatrix(gf, encodeLineSize), indexArray[..encodeLineSize], encodeLineSize)
      ensures Rows(l) == LMatrix(gf, Rows(encodeMatrix), encodeLineSize)
      ensures Rows(u) == UMatrix(gf, Rows(encodeMatrix), encodeLineSize)
    {
      var k := encodeLineSize;
      ghost var a := Gather(CauchyMatrix(gf, k), indexArray[..k], k);
      for i := 0 to k
        invariant forall r, c :: 0 <= r < i && 0 <= c < k ==> encodeMatrix[r, c] == a[r][c]
      {
        var curIndex := indexArray[i];
        for j := 0 to k
          invariant forall r, c :: 0 <= r < i && 0 <= c < k ==> encodeMatrix[r, c] == a[r][c]
          invariant forall c :: 0 <= c < j ==> encodeMatrix[i, c] == a[i][c]
        {
          encodeMatrix[i, j] := cauchy[curIndex, j];
        }
      }
      RowsEqual(encodeMatrix, a);
      Doolittle();
    }

    /** The factorisation loops of LUFactorization, over encodeMatrix. */
    method Doolittle()
      requires Sized(gf) && Allocated()
      modifies l, u
      ensures Rows(l) == LMatrix(gf, Rows(encodeMatrix), encodeLineSize)
      ensures Rows(u) == UMatrix(gf, Rows(encodeMatrix), encodeLineSize)
    {
      var k := encodeLineSize;
      ghost var a := Rows(encodeMatrix);
      for i := 0 to k
        invariant forall r, c :: 0 <= r < i && 0 <= c < k ==> u[r, c] == UEntry(gf, a, k, r, c)
        invariant forall r, c :: 0 <= r < k && 0 <= c < i ==> l[r, c] == LEntry(gf, a, k, r, c)
      {
        for j := 0 to k
          invariant forall r, c :: 0 <= r < i && 0 <= c < k ==> u[r, c] == UEntry(gf, a, k, r, c)
          invariant forall r, c :: 0 <= r < k && 0 <= c < i ==> l[r, c] == LEntry(gf, a, k, r, c)
          invariant forall c :: 0 <= c < j ==> u[i, c] == UEntry(gf, a, k, i, c)
          invariant forall r :: 0 <= r < j ==> l[r, i] == LEntry(gf, a, k, r, i)
        {
          DoolittleEntry(a, i, j);
        }
      }
      RowsEqual(l, LMatrix(gf, a, k));
      RowsEqual(u, UMatrix(gf, a, k));
    }

    /** One pass of the inner loop of the factorisation: u[i][j] and then
        l[j][i], from the rows of U above i, the columns of L left of i and
        the entries of row i of U left of j. */
    method DoolittleEntry(ghost a: Mat, i: nat, j: nat)
      requires Sized(gf) && Allocated() && a == Rows(encodeMatrix) && i < encodeLineSize && j < encodeLineSize
      requires forall r, c :: 0 <= r < i && 0 <= c < encodeLineSize ==> u[r, c] == UEntry(gf, a, encodeLineSize, r, c)
      requires forall r, c :: 0 <= r < encodeLineSize && 0 <= c < i ==> l[r, c] == LEntry(gf, a, encodeLineSize, r, c)
      requires forall c :: 0 <= c < j ==> u[i, c] == UEntry(gf, a, encodeLineSize, i, c)
      modifies l, u
      ensures u[i, j] == UEntry(gf, a, encodeLineSize, i, j) && l[j, i] == LEntry(gf, a, encodeLineSize, j, i)
      ensures forall r, c :: 0 <= r < encodeLineSize && 0 <= c < encodeLineSize && (r != i || c != j) ==> u[r, c] == old(u[r, c])
      ensures forall r, c :: 0 <= r < encodeLineSize && 0 <= c < encodeLineSize && (r != j || c != i) ==> l[r, c] == old(l[r, c])
    {
      if i == 0 {
        u[0, j] := encodeMatrix[0, j];
        l[j, 0] := Div(gf, encodeMatrix[j, 0], encodeMatrix[0, 0]);
      } else if i <= j {
        var t := SumLU(a, i, j, i);
        u[i, j] := Sub(encodeMatrix[i, j], t);
        if i == j {
          l[j, i] := One;
        } else {
          t := SumLU(a, j, i, i);
          l[j, i] := Div(gf, Sub(encodeMatrix[j, i], t), u[i, i]);
        }
      } else {
        u[i, j] := Zero;
        l[j, i] := Zero;
      }
    }

    /** The running sum t of the factorisation: over k < m, l[r][k] * u[k][c]. */
    method SumLU(ghost a: Mat, r: nat, c: nat, m: nat) returns (s: GF28Value)
      requires Sized(gf) && Allocated() && IsMatrix(a, encodeLineSize, encodeLineSize)
      requires r < encodeLineSize && c < encodeLineSize && m < encodeLineSize
      requires forall k :: 0 <= k < m ==> l[r, k] == LEntry(gf, a, encodeLineSize, r, k)
      requires forall k :: 0 <= k < m ==> u[k, c] == UEntry(gf, a, encodeLineSize, k, c)
      ensures s == Dot(gf, LRow(gf, a, encodeLineSize, r, m), UCol(gf, a, encodeLineSize, c, m))
    {
      s := Zero;
      for k := 0 to m
        invariant s == Dot(gf, LRow(gf, a, encodeLineSize, r, k), UCol(gf, a, encodeLineSize, c, k))
      {
        var x, y := l[r, k], u[k, c];
        LUSumStep(gf, a, encodeLineSize, r, c, k, s, x, y);
        s := Add(s, Mul(gf, x, y));
      }
    }

    /** inverseLMatrix(): forward substitution, row by row. */
    method InverseLMatrix()
      requires Sized(gf) && Allocated()
      modifies lInverse
      ensures Rows(lInverse) == LInverse(gf, Rows(l), encodeLineSize)
    {
      var k := encodeLineSize;
      ghost var lm := Rows(l);
      for i := 0 to k
        invariant forall r, c :: 0 <= r < i && 0 <= c < k ==> lInverse[r, c] == LInvEntry(gf, lm, k, r, c)
      {
        for j := 0 to k
          invariant forall r, c :: 0 <= r < i && 0 <= c < k ==> lInverse[r, c] == LInvEntry(gf, lm, k, r, c)
          invariant forall c :: 0 <= c < j ==> lInverse[i, c] == LInvEntry(gf, lm, k, i, c)
        {
          if i < j {
            lInverse[i, j] := Zero;
          } else if i == j {
            lInverse[i, j] := One;
          } else {
            var r := SumLInv(lm, i, j);
            lInverse[i, j] := Sub(Zero, r);
          }
        }
      }
      RowsEqual(lInverse, LInverse(gf, lm, k));
    }

    /** The running sum r of inverseLMatrix: over j <= k < i, l[i][k] * linv[k][j]. */
    method SumLInv(ghost lm: Mat, i: nat, j: nat) returns (s: GF28Value)
      requires Sized(gf) && Allocated() && lm == Rows(l) && j < i < encodeLineSize
      requires forall r :: j <= r < i ==> lInverse[r, j] == LInvEntry(gf, lm, encodeLineSize, r, j)
      ensures s == Dot(gf, lm[i][j..i], LInvCol(gf, lm, encodeLineSize, j, j, i))
    {
      s := Zero;
      for m := j to i
        invariant s == Dot(gf, lm[i][j..m], LInvCol(gf, lm, encodeLineSize, j, j, m))
      {
        var x, y := l[i, m], lInverse[m, j];
        LInvSumStep(gf, lm, encodeLineSize, i, j, m, s, x, y);
        s := Add(s, Mul(gf, x, y));
      }
    }

    /** inverseUMatrix(): backward substitution, from the last row up. */
    method InverseUMatrix()
      requires Sized(gf) && Allocated()
      modifies uInverse
      ensures Rows(uInverse) == UInverse(gf, Rows(u), encodeLineSize)
    {
      var k := encodeLineSize;
      ghost var um := Rows(u);
      var i: int := k - 1;
      while i >= 0
        invariant -1 <= i < k
        invariant forall r, c :: i < r < k && 0 <= c < k ==> uInverse[r, c] == UInvEntry(gf, um, k, r, c)
      {
        for j := 0 to k
          invariant forall r, c :: i < r < k && 0 <= c < k ==> uInverse[r, c] == UInvEntry(gf, um, k, r, c)
          invariant forall c :: 0 <= c < j ==> uInverse[i, c] == UInvEntry(gf, um, k, i, c)
        {
          if i > j {
            uInverse[i, j] := Zero;
          } else if i == j {
            uInverse[i, j] := Div(gf, One, u[i, i]);
          } else {
            var r := SumUInv(um, i, j);
            uInverse[i, j] := Div(gf, Sub(Zero, r), u[i, i]);
          }
        }
        i := i - 1;
      }
      RowsEqual(uInverse, UInverse(gf, um, k));
    }

    /** The running sum r of inverseUMatrix: over k from j down to i + 1,
        u[i][k] * uinv[k][j]. */
    method SumUInv(ghost um: Mat, i: nat, j: nat) returns (s: GF28Value)
      requires Sized(gf) && Allocated() && um == Rows(u) && i < j < encodeLineSize
      requires forall r :: i < r <= j ==> uInverse[r, j] == UInvEntry(gf, um, encodeLineSize, r, j)
      ensures s == Dot(gf, um[i][i + 1..j + 1], UInvCol(gf, um, encodeLineSize, j, i + 1, j + 1))
    {
      s := Zero;
      for m := j + 1 downto i + 1
        invariant s == Dot(gf, um[i][m..j + 1], UInvCol(gf, um, encodeLineSize, j, m, j + 1))
      {
        var x, y := u[i, m], uInverse[m, j];
        UInvSumStep(gf, um, encodeLineSize, i, j, m, s, x, y);
        s := Add(s, Mul(gf, x, y));
      }
    }

    /** matrixMultiplication(x, xSizeI, xSizeJ, y, ySizeI, ySizeJ, r): fails
        with -1 when the inner sizes differ; otherwise r receives the product
        of rows x0 .. x0 + xSizeI - 1 of x and y. */
    method MatrixMultiplication(x: array2<GF28Value>, x0: nat, xSizeI: nat, xSizeJ: nat,
                                y: array2<GF28Value>, ySizeI: nat, ySizeJ: nat,
                                r: array2<GF28Value>) returns (ret: int)
      requires Sized(gf)
      requires x0 + xSizeI <= x.Length0 && xSizeJ == x.Length1
      requires ySizeI == y.Length0 && ySizeJ == y.Length1
      requires r.Length0 == xSizeI && r.Length1 == ySizeJ && r != x && r != y
      modifies r
      ensures ret == (if xSizeJ == ySizeI then 0 else -1)
      ensures ret == 0 ==> Rows(r) == MatMul(gf, Rows(x)[x0..x0 + xSizeI], Rows(y), ySizeJ)
      ensures ret != 0 ==> Rows(r) == old(Rows(r))
    {
      if xSizeJ != ySizeI {
        return -1;
      }
      ghost var xs, ys := Rows(x)[x0..x0 + xSizeI], Rows(y);
      assert IsMatrix(xs, xSizeI, xSizeJ);
      ghost var p := MatMul(gf, xs, ys, ySizeJ);
      for i := 0 to xSizeI
        invariant forall a, b :: 0 <= a < i && 0 <= b < ySizeJ ==> r[a, b] == p[a][b]
      {
        MultiplyRow(x, x0 + i, y, r, i);
        assert xs[i] == Rows(x)[x0 + i];
      }
      RowsEqual(r, p);
      return 0;
    }

    /** One row of matrixMultiplication: row i of r receives row `row` of x
        times y. */
    method MultiplyRow(x: array2<GF28Value>, row: nat, y: array2<GF28Value>, r: array2<GF28Value>, i: nat)
      requires Sized(gf)
      requires row < x.Length0 && x.Length1 == y.Length0
      requires i < r.Length0 && r.Length1 == y.Length1 && r != x && r != y
      modifies r
      ensures forall b :: 0 <= b < r.Length1 ==> r[i, b] == Dot(gf, Rows(x)[row], Col(Rows(y), b))
      ensures forall a, b :: 0 <= a < r.Length0 && 0 <= b < r.Length1 && a != i ==> r[a, b] == old(r[a, b])
    {
      for j := 0 to r.Length1
        invariant forall b :: 0 <= b < j ==> r[i, b] == Dot(gf, Rows(x)[row], Col(Rows(y), b))
        invariant forall a, b :: 0 <= a < r.Length0 && 0 <= b < r.Length1 && a != i ==> r[a, b] == old(r[a, b])
      {
        AccumulateEntry(x, row, y, r, i, j);
      }
    }

    /** One entry of matrixMultiplication: r[i][j] is cleared, then
        accumulates x[row][k] * y[k][j] over k. */
    method AccumulateEntry(x: array2<GF28Value>, row: nat, y: array2<GF28Value>,
                           r: array2<GF28Value>, i: nat, j: nat)
      requires Sized(gf)
      requires row < x.Length0 && x.Length1 == y.Length0 && j < y.Length1
      requires i < r.Length0 && j < r.Length1 && r != x && r != y
      modifies r
      ensures r[i, j] == Dot(gf, Rows(x)[row], Col(Rows(y), j))
      ensures forall a, b :: 0 <= a < r.Length0 && 0 <= b < r.Length1 && (a != i || b != j) ==> r[a, b] == old(r[a, b])
    {
      ghost var xs, ys := Rows(x)[row], Col(Rows(y), j);
      r[i, j] := Zero;
      for k := 0 to x.Length1
        invariant r[i, j] == Dot(gf, xs[..k], ys[..k])
        invariant forall a, b :: 0 <= a < r.Length0 && 0 <= b < r.Length1 && (a != i || b != j) ==> r[a, b] == old(r[a, b])
      {
        DotStep(gf, xs, ys, k);
        r[i, j] := Add(r[i, j], Mul(gf, x[row, k], y[k, j]));
      }
      assert xs[..x.Length1] == xs && ys[..x.Length1] == ys;
    }

    /** inverseEncodeMatrix(): Ainv = Uinv Linv. */
    method InverseEncodeMatrix()
      requires Sized(gf) && Allocated()
      modifies lInverse, uInverse, encodeInverse
      ensures Rows(lInverse) == LInverse(gf, Rows(l), encodeLineSize)
      ensures Rows(uInverse) == UInverse(gf, Rows(u), encodeLineSize)
      ensures Rows(encodeInverse) == MatMul(gf, Rows(uInverse), Rows(lInverse), encodeLineSize)
    {
      InverseLMatrix();
      InverseUMatrix();
      var _ := MatrixMultiplication(uInverse, 0, encodeLineSize, encodeLineSize, lInverse, encodeLineSize, encodeLineSize, encodeInverse);
      assert Rows(uInverse)[0..encodeLineSize] == Rows(uInverse);
    }
  }
}
