# Reed-Solomon erasure codec over GF(2^8), modelled in Dafny

This project models the core of a Cauchy-matrix Reed-Solomon erasure codec and
proves what its code computes.

**The field element `GF28Value` and its multiplication tables (`GF28Value.hh`)**

- Module `GF28Tables` covers the tables. The nested table class
  `MultiplicationTable` fills three 256-entry arrays with the source's three
  loops:
  - the powers x^k of the generator x, by shift-left and XOR with `0x11D`;
  - their discrete logarithms;
  - the multiplicative inverses.
- The constructor is proved to produce exactly the tables defined as functions
  (`Forward`, `Backward`, `Reverse`). It is also proved that these are the
  log/antilog tables of a field:
  - x has order 255;
  - the forward table is a bijection onto the nonzero bytes;
  - multiplication by x^k is additive.
- Module `GF28` covers the element itself, a byte, with:
  - `+` and `-` as XOR;
  - `*` and `/` through the tables;
  - the power operator `^` as the source's loop.
- The field laws are proved: commutativity, associativity, distributivity, the
  identities, and division undoing multiplication. The source's two table
  self-checks are proved as well.

**The codec `RScode<GF28Value>` (`RScode.hh`)**

- Class `RS.RScode` keeps the source's state:
  - the encoding-matrix buffer, `encodeLineSize` identity rows followed by the
    Cauchy rows 1 / (i + j);
  - the cursor `curLine` and the status `error`;
  - the working buffers of the decoder.
- Its methods mirror the source's loops:
  - `EncodeLine` multiplies the encoding-matrix row at the cursor by the data
    block and advances the cursor;
  - `Decode` gathers the rows named by `indexArray`, factorises them as L U
    (Doolittle, no pivoting), inverts both triangular factors, and multiplies
    the given lines by Uinv Linv.
- Each method is proved against specification functions in three modules:
  - `Matrix` holds sums, dot products accumulated left to right, and matrix
    products;
  - `LU` holds the entry-by-entry recurrences of the factorisation and of
    both inverses;
  - `Codec` holds the encoding matrix, encoded lines, gathering and the
    decoding matrix.
- The lemmas prove what the source's debug checks print: L U = A, L Linv = I,
  U Uinv = I and A Ainv = I. They also prove:
  - the code is systematic;
  - the round trip: decoding any k encoded lines whose gathered rows have
    nonzero pivots gives the data block back;
  - the test program's "no missing" scenario round-trips with no pivot
    hypothesis, and so does any single line when k = 1.

Where the code departs from its documented design, the model follows the code:

- Division by zero yields the element 0, not a distinct sentinel. The invalid
  marker 0x100 loses its ninth bit in the converting constructor.
- `encodeLine` and `decode` are blocked only by the statuses `init` and
  `construct_err`, not by an earlier encoding or decoding error.
- The reduction polynomial is the literal `0x11D`, which is
  x^8 + x^4 + x^3 + x^2 + 1. The comment at `GF28Value.hh:59` names a
  different polynomial.

Where the code departs from what it evidently intends, the model follows the
intent:

- `RS.RScode.EncodeLine` and `RS.RScode.Decode` address every byte block row by
  row with rows of `dataLineSize` elements. The source's matrix multiplication
  reads and writes those blocks through `position()`, whose rows have
  `encodeLineSize` elements. That stride is modelled only by
  `Codec.EncodedLineAsWritten` and `Codec.DecodedAsWritten`; see Findings.
- The two agree when `dataLineSize == encodeLineSize`, the configuration of the
  test program (`Codec.EncodeAsWrittenSquare`, `Codec.DecodeAsWrittenSquare`).

## Model

| member | source | states |
|---|---|---|
| GF28Tables.Step | GF28Value.hh:20-23 | one pass of the forward-table loop: shift left, XOR 0x11D when bit 8 is set; its properties are StepInjective and StepLinear |
| GF28Tables.Forward | GF28Value.hh:18-24 | the forward table as the first loop fills it, x^k; stated by ForwardOrder, ForwardInjective, ForwardOnto and FillForward |
| GF28Tables.Backward | GF28Value.hh:25-27 | the backward table as the second loop leaves it; stated by BackwardForward, ForwardBackward, BackwardZero and FillBackward |
| GF28Tables.Reverse | GF28Value.hh:28-35 | the reverse table forward[(255 - backward[v]) % 255]; stated by ReverseLog and FillReverse |
| GF28Tables.StepInjective | GF28Value.hh:20-23 | one pass of the forward-table loop (shift left, XOR 0x11D when bit 8 is set) is injective on bytes |
| GF28Tables.StepLinear | GF28Value.hh:20-23 | that pass distributes over XOR: it is multiplication by x |
| GF28Tables.StepIterLinear | GF28Value.hh:18-24 | k passes distribute over XOR |
| GF28Tables.ForwardNonzero | GF28Value.hh:18-24 | every power x^k the loop produces is a nonzero byte |
| GF28Tables.ForwardOrder | GF28Value.hh:18-24 | x^255 = 1 and no x^k with 1 <= k < 255 is 1 |
| GF28Tables.ForwardPeriodic | GF28Value.hh:18-24 | x^(k+255) = x^k |
| GF28Tables.ForwardInjective | GF28Value.hh:18-24 | the 255 forward entries x^0 .. x^254 are distinct |
| GF28Tables.ForwardOnto | GF28Value.hh:18-24 | every nonzero byte is one of the forward entries x^0 .. x^254 |
| GF28Tables.PowersCard | GF28Value.hh:18-24 | the first n powers form a set of n distinct bytes |
| GF28Tables.LogSearchFinds | GF28Value.hh:25-27 | the search defining the backward table finds the exponent of any power it meets |
| GF28Tables.BackwardForward | GF28Value.hh:25-27 | backward[forward[k]] == k for every exponent k < 255 |
| GF28Tables.ForwardBackward | GF28Value.hh:25-27 | for a nonzero byte v, backward[v] < 255 and forward[backward[v]] == v |
| GF28Tables.BackwardZero | GF28Value.hh:25-27 | the entry backward[0], which no loop writes, stays 0 |
| GF28Tables.ReverseLog | GF28Value.hh:28-35 | reverse[v] is nonzero and its logarithm and v's add up to 0 modulo 255 |
| GF28Tables.FillForward | GF28Value.hh:18-24 | the first loop leaves fw[j] == x^j for j < 255 and fw[255] at 0 |
| GF28Tables.FillBackward | GF28Value.hh:25-27 | the second loop leaves bw[v] == Backward(v) for every byte v |
| GF28Tables.FillReverse | GF28Value.hh:28-35 | the third loop leaves rv[j] == fw[(255 - bw[j]) % 255] for 1 <= j < 256 and rv[0] unchanged |
| GF28Tables.BuiltFromLoops | GF28Value.hh:17-36 | what the three loops leave is exactly the tables Forward, Backward, Reverse |
| GF28Tables.BuiltValid | GF28Value.hh:17-36 | the built tables are field log/antilog tables: inverse bijections, reverse formula, and scaling by x^k additive |
| GF28Tables.MultiplicationTable.constructor | GF28Value.hh:17-36 | the constructed arrays hold exactly the built tables, and those are valid field tables |
| GF28Tables.GetForward | GF28Value.hh:37-42 | the result is 0x100 exactly when i >= 255; otherwise a nonzero byte |
| GF28Tables.GetBackward | GF28Value.hh:43-48 | the result is 0x100 exactly when i == 0 or i >= 256; otherwise an exponent below 255 |
| GF28Tables.GetReverse | GF28Value.hh:49-54 | the result is 0x100 exactly when i == 0 or i >= 256; otherwise a nonzero byte |
| GF28Tables.BackwardOfForward | GF28Value.cc:49-53 | first self-check: getBackward(getForward(k)) == k for every k < 255 |
| GF28Tables.ForwardOfBackward | GF28Value.hh:37-48 | getForward(getBackward(i)) == i for every nonzero byte i |
| GF28Tables.ReverseOfLog | GF28Value.hh:28-35 | the logarithms of i and of getReverse(i) add up to 0 modulo 255 |
| GF28.FromUInt | GF28Value.hh:69 | the converting constructor keeps the low byte; stated by ValueFromUInt, FromUIntMod and FromUIntInvalid |
| GF28.Value | GF28Value.hh:125 | value() is below 256, converts back to the same element, and is 0 exactly for the zero element |
| GF28.ValueFromUInt | GF28Value.hh:69 | converting a number below 256 and reading it back gives the number |
| GF28.FromUIntMod | GF28Value.hh:69 | the converting constructor reduces its argument modulo 256 |
| GF28.FromUIntInvalid | GF28Value.hh:66-69 | the invalid marker 0x100 converts to the zero element |
| GF28.EqualByValue | GF28Value.hh:77-78 | two elements are equal exactly when their values are |
| GF28.Add | GF28Value.hh:79 | a + b is zero exactly when a == b, so a + a == 0 |
| GF28.Sub | GF28Value.hh:80 | a - b == a + b, and (a - b) + b == a |
| GF28.AddAssoc | GF28Value.hh:79 | addition is associative |
| GF28.Mul | GF28Value.hh:81-92 | operator*: zero for a zero factor, else forward[(backward[a] + backward[b]) % 255]; stated by MulLog, MulByGetters and the field laws below |
| GF28.MulLog | GF28Value.hh:81-92 | a product is zero exactly when a factor is; the logarithm of a product of nonzero elements is the sum of logarithms modulo 255 |
| GF28.MulByGetters | GF28Value.hh:81-92 | operator* as written, through value() and the range-checked getters, equals the table product |
| GF28.MulComm | GF28Value.hh:81-92 | multiplication is commutative |
| GF28.MulOne | GF28Value.hh:81-92 | 1 is the multiplicative identity |
| GF28.MulAssoc | GF28Value.hh:81-92 | multiplication is associative |
| GF28.MulDistrib | GF28Value.hh:79-92 | multiplication distributes over addition |
| GF28.Inverse | GF28Value.hh:104 | the lookup reverse[b] operator/ makes; stated by InverseMul |
| GF28.InverseMul | GF28Value.hh:28-35 | reverse[b] * b == 1 for every nonzero b |
| GF28.ReverseTableCheck | GF28Value.cc:54-56 | second self-check: GF28Value(reverse[i]) * GF28Value(i) == 1 for every i in [1, 255] |
| GF28.Div | GF28Value.hh:98-100 | dividing by zero gives the zero element (0x100 truncated) |
| GF28.DivZero | GF28Value.hh:93-107 | a quotient is zero exactly when the dividend or the divisor is |
| GF28.DivMul | GF28Value.hh:93-107 | (a / b) * b == a for every nonzero b |
| GF28.MulDiv | GF28Value.hh:93-107 | (a * b) / b == a for every nonzero b |
| GF28.MulCancel | GF28Value.hh:81-107 | a nonzero factor cancels from a product |
| GF28.DivSelf | GF28Value.hh:93-107 | a / a == 1 for nonzero a |
| GF28.DivByGetters | GF28Value.hh:93-107 | operator/ as written, through value() and the getters, equals the table quotient |
| GF28.Pow | GF28Value.hh:109-124 | the loop returns a to the power value(b) by repeated multiplication; a^0 == 1, and 0^b == 0 for b != 0 |
| GF28.Power | GF28Value.hh:115-121 | the value the loop of operator^ builds, value(b) - 1 multiplications by a; stated by Pow, PowerLog, PowerOrder and PowerAdd |
| GF28.PowerLog | GF28Value.hh:109-124 | a power of a nonzero element is nonzero, with n times its logarithm modulo 255 |
| GF28.PowerOrder | GF28Value.hh:109-124 | every nonzero element raised to the 255th power is 1 |
| GF28.PowerAdd | GF28Value.hh:109-124 | a^(m+n) == a^m * a^n |
| Matrix.SumZeros | RScode.hh:311-314 | a running sum of zeros stays zero |
| Matrix.SumSplit | RScode.hh:311-314 | a left-to-right sum splits at any point |
| Matrix.SumExchange | RScode.hh:303-318 | a double sum is the same taken by rows or by columns |
| Matrix.DotZero | RScode.hh:311-314 | a dot product whose every term has a zero factor is zero |
| Matrix.DotStep | RScode.hh:312-314 | one pass of the accumulation loop adds the next product to the partial dot product |
| Matrix.DotWindow | RScode.hh:311-314 | terms with a zero factor outside a window do not change a dot product |
| Matrix.MatMul | RScode.hh:303-318 | entry (i, j) of the product is the dot product of row i and column j |
| Matrix.DotUnit | RScode.hh:66-74 | a unit row picks one entry of a column |
| Matrix.MatMulIdentityLeft | RScode.hh:381-382 | I y == y |
| Matrix.MatMulIdentityRight | RScode.hh:381-382 | x I == x |
| Matrix.MatMulAssoc | RScode.hh:319-327 | matrix multiplication is associative |
| Matrix.LowerCancelRows | RScode.hh:264-282 | a unit lower triangular factor cancels from the left |
| Matrix.UpperCancelRows | RScode.hh:284-302 | an upper triangular factor with a nonzero diagonal cancels from the left |
| Matrix.LowerLeftInverse | RScode.hh:264-282 | a right inverse of a unit lower triangular matrix is also a left inverse |
| Matrix.UpperLeftInverse | RScode.hh:284-302 | the same for an upper triangular matrix with a nonzero diagonal |
| Matrix.InverseByLU | RScode.hh:319-327 | with A = L U and right inverses of L and U, Uinv Linv is a right inverse of A |
| Matrix.SolveByLU | RScode.hh:170-181 | with A = L U, (Uinv Linv) (A D) == D |
| LU.UEntry | RScode.hh:233-257 | u[i][j] as the factorisation loops compute it: row 0 copied, a[i][j] - t for i <= j, 0 below the diagonal; stated by UUpper and LUProduct |
| LU.LEntry | RScode.hh:233-257 | l[j][i] as the loops compute it: a[j][0] / a[0][0], 1 on the diagonal, (a[j][i] - t) / u[i][i] below it, 0 above; stated by LUnitLower and LUProduct |
| LU.LUSumStep | RScode.hh:240-242 | one pass of the running sum t adds l[r][m] * u[m][c] to the dot product over k < m |
| LU.LUPrefixes | RScode.hh:239-252 | the loops sum over the prefix of row r of L and of column c of U |
| LU.LUnitLower | RScode.hh:231-262 | with nonzero pivots, L is unit lower triangular, including l[0][0] = a[0][0] / a[0][0] |
| LU.UUpper | RScode.hh:255-257 | U is upper triangular; with nonzero pivots its diagonal is nonzero |
| LU.LUProductUpper | RScode.hh:237-243 | an entry of L U on or above the diagonal equals the entry of A |
| LU.LUProductLower | RScode.hh:248-254 | an entry of L U below the diagonal equals the entry of A |
| LU.LUProduct | RScode.hh:375-376 | debug check: with nonzero pivots, L U == A |
| LU.LInvEntry | RScode.hh:273-278 | entry (i, j) of inverseLMatrix's result: 0 above, 1 on, 0 - r below the diagonal; stated by LInverseRight |
| LU.LInverseColumn | RScode.hh:275-277 | the stretch of column j of Linv the recurrence sums over |
| LU.LInvSumStep | RScode.hh:275-277 | one pass of the running sum r adds l[i][m] * linv[m][j] |
| LU.LInverseStep | RScode.hh:273-278 | linv[i][j] below the diagonal is minus the sum over the rest of the row |
| LU.LInverseBelow | RScode.hh:273-278 | an entry of L Linv below the diagonal is zero |
| LU.LInverseEntry | RScode.hh:264-282 | every entry of L Linv is the entry of the identity |
| LU.LInverseRight | RScode.hh:377-378 | debug check: L Linv == I for every unit lower triangular L |
| LU.UInvEntry | RScode.hh:293-298 | entry (i, j) of inverseUMatrix's result: 0 below, 1 / u[i][i] on, (0 - r) / u[i][i] above the diagonal; stated by UInverseRight |
| LU.UInverseColumn | RScode.hh:295-297 | the stretch of column j of Uinv the recurrence sums over |
| LU.UInvSumStep | RScode.hh:295-297 | one pass of the downward running sum r adds u[i][m] * uinv[m][j] |
| LU.UInverseStep | RScode.hh:293-298 | u[i][i] * uinv[i][j] is minus the sum over the rest of the row |
| LU.UInverseAbove | RScode.hh:293-298 | an entry of U Uinv above the diagonal is zero |
| LU.UInverseEntry | RScode.hh:284-302 | every entry of U Uinv is the entry of the identity |
| LU.UInverseRight | RScode.hh:379-380 | debug check: U Uinv == I for every upper triangular U with a nonzero diagonal |
| Codec.CauchyEntry | RScode.hh:66-81 | entry (i, j) of the encoding matrix: the identity for i < k, 1 / (i + j) below; stated by CauchyNonzero and Systematic |
| Codec.CauchyMatrix | RScode.hh:66-81 | the LIMIT x k encoding matrix, with a row of k entries for every cursor position below LIMIT |
| Codec.CauchyDivisor | RScode.hh:75-79 | x + y is never zero, since x = i >= k > j = y |
| Codec.CauchyNonzero | RScode.hh:75-79 | every Cauchy entry 1 / (x + y) is nonzero |
| Codec.Systematic | RScode.hh:66-74 | the encoded line at a cursor below k is the data line at that cursor |
| Codec.Gather | RScode.hh:224-229 | the k x k matrix of the encoding-matrix rows named by indexArray, in order |
| Codec.GatherEncoded | RScode.hh:224-229 | the gathered rows times the data are the encoded lines with those indices |
| Codec.DecodeMatrix | RScode.hh:319-327 | the decoding matrix Uinv Linv, a k x k matrix; stated by DecodeInverse and DecodeSolves |
| Codec.DecodeInverse | RScode.hh:381-382 | debug check: with nonzero pivots, A Ainv == I |
| Codec.DecodeSolves | RScode.hh:170-181 | the decoding matrix undoes A on any block |
| Codec.RoundTrip | RScode.hh:135-158 | decoding any k encoded lines whose gathered rows have nonzero pivots gives the data block |
| Codec.IdentityU | RScode.hh:231-258 | the factorisation of the identity has U = I |
| Codec.IdentityL | RScode.hh:231-258 | and L = I |
| Codec.NoMissing | RScodeTest.cc:134-139 | decoding the first k encoded lines with indices 0 .. k-1 gives the data block, with no pivot hypothesis |
| Codec.SingleLine | RScode.hh:135-158 | with k = 1, any single encoded line decodes to the data line |
| Codec.Position | RScode.hh:217-219 | the offset of place (row, column) for rows of k elements; position() is the case k = encodeLineSize; stated by PositionBound and PositionInjective |
| Codec.Block | RScode.hh:120-121 | a rows x cols byte block stored row after row, as rows x cols field elements |
| Codec.RowStartValue | RScode.hh:217-219 | the offset of a row's start is row * stride |
| Codec.RowStartGap | RScode.hh:217-219 | a later row starts at least one whole row after an earlier one |
| Codec.PositionBound | RScode.hh:217-219 | every place of a rows x cols block lies below rows * cols |
| Codec.PositionInjective | RScode.hh:217-219 | distinct places of a block have distinct offsets |
| Codec.BlockEntry | RScode.hh:120-121 | element (i, j) of a byte block is the byte at offset i * cols + j |
| Codec.EncodedLineAsWritten | RScode.hh:123-124 | the line matrixMultiplication produces when it reads the data block with stride encodeLineSize |
| Codec.StrideCounterexample | RScode.hh:217-219 | for k = 2 and dataLineSize = 3, the unit row (0, 1) yields (0, 1, 0) as written instead of data line 1, (1, 0, 0) |
| Codec.AsWrittenSquare | RScode.hh:310-316 | with as many data columns as rows, each entry of the line read with stride encodeLineSize is the row times a column of the block |
| Codec.EncodeAsWrittenSquare | RScode.hh:123-124 | with dataLineSize == encodeLineSize, encodeLine as written emits exactly the encoded line |
| Codec.ProductAsWritten | RScode.hh:181 | the k x d elements decode's matrixMultiplication computes, each row of ainv times the lines read with stride encodeLineSize |
| Codec.Stores | RScode.hh:310-316 | n elements after the stores of p before (i, j), in the loops' order, each at Position(k, a, c) |
| Codec.DecodedAsWritten | RScode.hh:174-183 | decode's tData as written: k * d elements once every store is done |
| Codec.StoresSquare | RScode.hh:310-316 | with as many columns as rows, stores never overwrite each other, so every stored element stays at its place |
| Codec.DecodeAsWrittenSquare | RScode.hh:181 | with dataLineSize == encodeLineSize, decode as written stores Ainv times the lines at row * k + column |
| Codec.DecodeMatrixIdentity | RScode.hh:159-181 | indexArray [0, 1] with two data lines gives the decoding matrix I |
| Codec.PlacesTwoByThree | RScode.hh:217-219 | with rows of 2 elements every place of a 2 x 3 block lies at an offset below 5 |
| Codec.LastPlaceUnstored | RScode.hh:310-316 | with encodeLineSize 2 and dataLineSize 3 the six stores hit offsets 0 to 4 only, so offset 5 keeps its default element |
| Codec.DecodeStrideCounterexample | RScode.hh:181 | with decoding matrix I, 2 lines of 3 bytes: the intended element (1, 2) is byte 5 of the lines, but decode as written returns 0 there |
| RS.ToElements | RScode.hh:120-121 | the conversion loop gives the byte block as field elements, one per byte |
| RS.ToBytes | RScode.hh:182-183 | the conversion loop stores a matrix row by row as bytes and leaves the rest of the buffer alone |
| RS.RScode.constructor | RScode.hh:49-84 | a size outside [1, 256] gives construct_err; otherwise ok, cursor 0, limit 256, and the buffer holds the encoding matrix |
| RS.RScode.BuildEncodingMatrix | RScode.hh:66-81 | the buffer holds k identity rows and then the rows 1 / (i + j) |
| RS.RScode.Clear | RScode.hh:96-101 | cursor 0; encoding_err and decoding_err become ok; every other status is kept |
| RS.RScode.EncodeLine | RScode.hh:102-134 | fails with -1 and changes nothing when not constructed; fails with encoding_err and keeps the cursor when dataLineSize is 0 or the cursor is at the limit; otherwise returns 0, writes the encoded line at the cursor, advances the cursor by exactly one and keeps the status |
| RS.RScode.EncodeToElements | RScode.hh:118-124 | the product of the encoding-matrix row at the cursor and the data block |
| RS.RScode.Decode | RScode.hh:159-186 | fails with -1 and changes nothing when not constructed; fails with decoding_err when dataLineSize is 0 and leaves data and every working buffer unchanged; otherwise returns 0, encodeMatrix holds the gathered rows, l and u their factors, lInverse and uInverse the inverses of l and u, encodeInverse their product Ainv, and data Ainv times the given lines; never moves the cursor |
| RS.RScode.DecodeToElements | RScode.hh:174-181 | the decoding matrix times the given lines as field elements |
| RS.RScode.LUFactorization | RScode.hh:221-262 | encodeMatrix holds the rows named by indexArray; l and u hold L and U of that matrix |
| RS.RScode.Doolittle | RScode.hh:231-261 | the factorisation loops leave L and U of the matrix in encodeMatrix |
| RS.RScode.DoolittleEntry | RScode.hh:233-258 | one inner pass writes u[i][j] and l[j][i] by the recurrence and nothing else |
| RS.RScode.SumLU | RScode.hh:239-242 | the running sum t is the dot product of the prefixes of row r of L and column c of U |
| RS.RScode.InverseLMatrix | RScode.hh:264-282 | lInverse holds the forward-substitution inverse of L |
| RS.RScode.SumLInv | RScode.hh:274-277 | the running sum r is l[i][j..i] dot column j of Linv over [j, i) |
| RS.RScode.InverseUMatrix | RScode.hh:284-302 | uInverse holds the backward-substitution inverse of U |
| RS.RScode.SumUInv | RScode.hh:294-297 | the running sum r, accumulated from k = j down to i + 1, is u[i][i+1..j+1] dot column j of Uinv |
| RS.RScode.MatrixMultiplication | RScode.hh:303-318 | returns -1 exactly when the inner sizes differ and then leaves r alone; otherwise returns 0 and r holds the product |
| RS.RScode.MultiplyRow | RScode.hh:310-315 | one row of r receives the row of x times y; other rows are unchanged |
| RS.RScode.AccumulateEntry | RScode.hh:311-314 | r[i][j] is the dot product of the row of x and column j of y; other entries are unchanged |
| RS.RScode.InverseEncodeMatrix | RScode.hh:319-327 | lInverse and uInverse hold the inverses of L and U, and encodeInverse holds Uinv Linv |

## Left out

- Console output is not modelled: the debug printers, the division-by-zero
  message, `output` and the table debug dump. Their checks are proved as
  lemmas instead (`LU.LUProduct`, `LU.LInverseRight`, `LU.UInverseRight`,
  `Codec.DecodeInverse`, `GF28Tables.BackwardOfForward`,
  `GF28.ReverseTableCheck`).
- The lazily initialised table singleton is not modelled. Every operation
  takes the table contents as an explicit parameter, and the table class's
  constructor is proved to build valid tables. Thread-safe one-time
  initialisation is a concurrency concern.
- The floating-point instantiation and its `true_type` overloads are not
  modelled. Only `RScode<GF28Value>` is.
- `new`/`delete`, the destructor and the transient buffers' lifetimes are not
  modelled. The working buffers are arrays allocated once by the constructor.
  The transient conversion buffers are fresh arrays inside each call.
- The flat buffers `T[rows * encodeLineSize]` are two-dimensional arrays, not
  flat arrays, so the main model never calls `position()`. `Codec.Position`
  takes the row width as a parameter: the main model passes `dataLineSize`
  for the caller's byte blocks, and only `Codec.EncodedLineAsWritten` and
  `Codec.DecodedAsWritten` pass `encodeLineSize`, as `position()` always does.
- Codec.EncodedLineAsWritten: when `dataLineSize < encodeLineSize` (and
  `encodeLineSize > 1`), the source reads beyond the `dataLineSize *
  encodeLineSize` elements of `tData`, which is undefined behaviour. The
  requires of the as-written members exclude that case, so they cover only
  `dataLineSize >= encodeLineSize`.
- Codec.DecodedAsWritten: for the same sizes decode also writes beyond its
  `tData` buffer, up to offset `(encodeLineSize - 1) * encodeLineSize +
  dataLineSize - 1`; that case is excluded in the same way.
- RS.RScode.constructor: on a construction error the source leaves the other
  fields uninitialised. The model sets them to zero-sized buffers and limit 0.
  The unused second size argument is accepted and ignored.
- RS.RScode.Decode: the source reads the encoding matrix at `indexArray[i]`
  without any check. An index of 256 or more reads outside the buffer, which
  is undefined behaviour, so the model requires every index to be below 256.
  Duplicate or misaligned indices are allowed, and then the output is
  whatever Ainv times the lines is.
- Codec.RoundTrip: it takes as a hypothesis that every pivot of the gathered matrix is nonzero
  rather than proving it. Proving it would need the invertibility of every
  square submatrix of [I; Cauchy], which is determinant theory beyond what the
  code does. The pivot-free cases proved are `Codec.NoMissing` and
  `Codec.SingleLine`.
- RS.RScode.EncodeLine: the source's `unsigned int` product
  `dataLineSize * encodeLineSize` can wrap for huge sizes. The model's sizes
  are unbounded, and the caller's buffers are required to hold the blocks.
- The `error()` accessor and `limit()` are the field `RS.RScode.error` and the
  constant `GF28.LIMIT`. `operator=` is value assignment.

## Findings

| source | as written | input that shows it | evidently intended | confidence | as-written member | corrected member |
|---|---|---|---|---|---|---|
| RScode.hh:123-124 | encodeLine's matrixMultiplication reads the data block through position(), whose row stride is encodeLineSize (RScode.hh:217-219, 310-316), but the block was filled with rows of dataLineSize bytes (RScode.hh:120-121). Whenever dataLineSize > encodeLineSize the wrong bytes are read; when dataLineSize < encodeLineSize the reads leave the buffer (undefined behaviour, not modelled). | encodeLineSize 2, dataLineSize 3, data bytes 0 0 0 1 0 0, cursor 1: the unit row (0, 1) yields (0, 1, 0) instead of data line 1, (1, 0, 0) | element (row, column) of a block with dataLineSize columns sits at row * dataLineSize + column, so the first k encoded lines reproduce the data lines | high, not executed | Codec.EncodedLineAsWritten, Codec.StrideCounterexample | RS.RScode.EncodeLine, Codec.Systematic |
| RScode.hh:181 | decode's matrixMultiplication reads the given lines and stores the product through position() with stride encodeLineSize, though both buffers hold rows of dataLineSize elements (RScode.hh:174-178, 182-183). Whenever dataLineSize > encodeLineSize, stores overlap and some offsets are never written; when dataLineSize < encodeLineSize the stores leave the buffer (undefined behaviour, not modelled). | encodeLineSize 2, dataLineSize 3, indexArray [0, 1] (decoding matrix I, `Codec.DecodeMatrixIdentity`), lines 0 0 0 0 0 1: offset 5 is never stored, so data byte 5 comes back 0 instead of 1 | the decoded block is Ainv times the given lines, row by row with dataLineSize columns | high, not executed | Codec.DecodedAsWritten, Codec.DecodeStrideCounterexample | RS.RScode.Decode, Codec.RoundTrip |
