/**
 * The field element of GF28Value.hh: one byte, with addition and subtraction
 * as bitwise XOR, multiplication and division through the logarithm tables,
 * and a power operator written as a loop of multiplications.
 *
 * The source keeps the byte in an `unsigned int` that its converting
 * constructor truncates to 8 bits, so every value is a byte; here it is a `bv8`.
 * The operators read the tables of the multiplication-table singleton; here
 * that singleton's contents are the explicit parameter `t`. Reading the tables
 * needs only that they have 256 entries (Sized); the field laws are lemmas
 * whose facts come from Valid(t), which the tables the constructor of
 * MultiplicationTable builds satisfy (GF28Tables.BuiltValid).
 */
module GF28 {
  import opened GF28Tables

  /** The number of field elements, GF28Value::limit(). */
  const LIMIT: nat := 256

  datatype GF28Value = GF28Value(value: bv8)

  const Zero := GF28Value(0)
  const One := GF28Value(1)

  /** The converting constructor GF28Value(unsigned int): keeps the low byte. */
  function FromUInt(u: nat): GF28Value {
    GF28Value(ToByte(u))
  }

  /** value(): the byte widened to an unsigned number. */
  function Value(a: GF28Value): (r: nat)
    ensures r < LIMIT
    ensures FromUInt(r) == a
    ensures r == 0 <==> a == Zero
  {
    ToNatBound(a.value);
    ToByteToNat(a.value);
    ToNat(a.value)
  }

  /** Converting a number below LIMIT and reading it back gives the number. */
  lemma ValueFromUInt(u: nat)
    requires u < LIMIT
    ensures Value(FromUInt(u)) == u
  {
    ToNatToByte(u);
  }

  /** The converting constructor reduces its argument modulo 256. */
  lemma {:induction false} FromUIntMod(u: nat)
    ensures FromUInt(u) == FromUInt(u % 256)
  {
    if u >= 256 {
      FromUIntMod(u - 256);
      ToByteWrap(u - 256);
    }
  }

  /** operator==: two elements are equal exactly when their values are. */
  lemma EqualByValue(a: GF28Value, b: GF28Value)
    ensures a == b <==> Value(a) == Value(b)
  {
  }

  /** The invalid marker 0x100 becomes the zero element once converted. */
  lemma FromUIntInvalid()
    ensures FromUInt(GF28_INVALID) == Zero
  {
    ToByteWrap(0);
  }

  // ===================================================================
  // Addition and subtraction
  // ===================================================================

  /** operator+: bitwise XOR of the two bytes. */
  function Add(a: GF28Value, b: GF28Value): (r: GF28Value)
    ensures r == Zero <==> a == b
  {
    GF28Value(a.value ^ b.value)
  }

  /** operator-: the same XOR, since every element is its own additive inverse. */
  function Sub(a: GF28Value, b: GF28Value): (r: GF28Value)
    ensures r == Add(a, b)
    ensures Add(r, b) == a
  {
    GF28Value(a.value ^ b.value)
  }

  lemma AddComm(a: GF28Value, b: GF28Value)
    ensures Add(a, b) == Add(b, a)
  {
  }

  lemma AddZero(a: GF28Value)
    ensures Add(a, Zero) == a && Add(Zero, a) == a
  {
  }

  lemma AddAssoc(a: GF28Value, b: GF28Value, c: GF28Value)
    ensures Add(Add(a, b), c) == Add(a, Add(b, c))
  {
  }

  // ===================================================================
  // Logarithms
  // ===================================================================

  /** backward[value]: the discrete logarithm of a nonzero element. */
  function Log(t: Tables, a: GF28Value): nat
    requires Sized(t)
  {
    t.backward[a.value]
  }

  /** forward[k]: the element x^k. */
  function Exp(t: Tables, k: nat): GF28Value
    requires Sized(t) && k < 256
  {
    GF28Value(t.forward[k])
  }

  /** The logarithm of a nonzero element is an exponent below 255 whose power
      is the element. */
  lemma LogExp(t: Tables, a: GF28Value)
    requires Valid(t) && a != Zero
    ensures Log(t, a) < 255 && Exp(t, Log(t, a)) == a
  {
    assert BackwardEntry(t, a.value);
  }

  /** Every power x^k with k below 255 is nonzero, and its logarithm is k. */
  lemma ExpLog(t: Tables, k: nat)
    requires Valid(t) && k < 255
    ensures Exp(t, k) != Zero && Log(t, Exp(t, k)) == k
  {
    assert ForwardEntry(t, k);
  }

  /** Nonzero elements are determined by their logarithms. */
  lemma LogInjective(t: Tables, a: GF28Value, b: GF28Value)
    requires Valid(t) && a != Zero && b != Zero && Log(t, a) == Log(t, b)
    ensures a == b
  {
    LogExp(t, a);
    LogExp(t, b);
  }

  /** The logarithm of One is 0. */
  lemma LogOne(t: Tables)
    requires Valid(t)
    ensures Log(t, One) == 0
  {
    ExpLog(t, 0);
  }

  // ===================================================================
  // Multiplication
  // ===================================================================

  /** operator*: zero when either factor is zero, otherwise x raised to the sum
      of the two logarithms modulo 255. */
  function Mul(t: Tables, a: GF28Value, b: GF28Value): GF28Value
    requires Sized(t)
  {
    if a == Zero || b == Zero then Zero else Exp(t, (Log(t, a) + Log(t, b)) % 255)
  }

  /** A product is zero exactly when a factor is, and the logarithm of a
      product of nonzero elements is the sum of their logarithms modulo 255. */
  lemma MulLog(t: Tables, a: GF28Value, b: GF28Value)
    requires Valid(t)
    ensures Mul(t, a, b) == Zero <==> a == Zero || b == Zero
    ensures a != Zero && b != Zero ==> Log(t, Mul(t, a, b)) == (Log(t, a) + Log(t, b)) % 255
  {
    if a != Zero && b != Zero {
      ExpLog(t, (Log(t, a) + Log(t, b)) % 255);
    }
  }

  /** operator* as written, through value() and the range-checked getters,
      computes Mul. */
  lemma MulByGetters(t: Tables, a: GF28Value, b: GF28Value)
    requires Valid(t)
    ensures Mul(t, a, b) ==
      var i := Value(a);
      var j := Value(b);
      if i == 0 || j == 0 then FromUInt(0)
      else FromUInt(GetForward(t, (GetBackward(t, i) + GetBackward(t, j)) % 255))
  {
    if a != Zero && b != Zero {
      GetBackwardLog(t, a);
      GetBackwardLog(t, b);
      GetForwardExp(t, (Log(t, a) + Log(t, b)) % 255);
    }
  }

  /** getBackward on the value of a nonzero element is its logarithm. */
  lemma GetBackwardLog(t: Tables, a: GF28Value)
    requires Valid(t) && a != Zero
    ensures GetBackward(t, Value(a)) == Log(t, a)
  {
    ToByteToNat(a.value);
  }

  /** getForward on an exponent below 255, converted, is Exp. */
  lemma GetForwardExp(t: Tables, k: nat)
    requires Valid(t) && k < 255
    ensures FromUInt(GetForward(t, k)) == Exp(t, k)
  {
    ToByteToNat(t.forward[k]);
  }

  lemma MulComm(t: Tables, a: GF28Value, b: GF28Value)
    requires Sized(t)
    ensures Mul(t, a, b) == Mul(t, b, a)
  {
  }

  lemma MulOne(t: Tables, a: GF28Value)
    requires Valid(t)
    ensures Mul(t, a, One) == a && Mul(t, One, a) == a
  {
    if a != Zero {
      LogOne(t);
      LogExp(t, a);
    }
  }

  lemma MulZero(t: Tables, a: GF28Value)
    requires Sized(t)
    ensures Mul(t, a, Zero) == Zero && Mul(t, Zero, a) == Zero
  {
  }

  lemma ModShift(x: nat, y: nat)
    ensures (x % 255 + y) % 255 == (x + y) % 255
  {
  }

  lemma LogsAssoc(x: nat, y: nat, z: nat, xy: nat, yz: nat)
    requires xy == (x + y) % 255 && yz == (y + z) % 255
    ensures (xy + z) % 255 == (x + yz) % 255
  {
    ModShift(x + y, z);
    ModShift(y + z, x);
  }

  lemma MulAssoc(t: Tables, a: GF28Value, b: GF28Value, c: GF28Value)
    requires Valid(t)
    ensures Mul(t, Mul(t, a, b), c) == Mul(t, a, Mul(t, b, c))
  {
    if a != Zero && b != Zero && c != Zero {
      var ab, bc := Mul(t, a, b), Mul(t, b, c);
      MulLog(t, a, b);
      MulLog(t, b, c);
      MulLog(t, ab, c);
      MulLog(t, a, bc);
      LogsAssoc(Log(t, a), Log(t, b), Log(t, c), Log(t, ab), Log(t, bc));
      LogInjective(t, Mul(t, ab, c), Mul(t, a, bc));
    }
  }

  /** Multiplication distributes over addition. */
  lemma MulDistrib(t: Tables, a: GF28Value, b: GF28Value, c: GF28Value)
    requires Valid(t)
    ensures Mul(t, a, Add(b, c)) == Add(Mul(t, a, b), Mul(t, a, c))
  {
    if a != Zero {
      LogExp(t, a);
      MulIsScale(t, a, b);
      MulIsScale(t, a, c);
      MulIsScale(t, a, Add(b, c));
      ScaleAdd(t, Log(t, a), b, c);
    }
  }

  /** Scaling by x^k distributes over addition. */
  lemma ScaleAdd(t: Tables, k: nat, b: GF28Value, c: GF28Value)
    requires Valid(t) && k < 255
    ensures GF28Value(Scale(t, k, Add(b, c).value))
         == Add(GF28Value(Scale(t, k, b.value)), GF28Value(Scale(t, k, c.value)))
  {
    assert ScaleAdditive(t, k, b.value, c.value);
  }

  /** Multiplying by a nonzero element is scaling by its logarithm. */
  lemma MulIsScale(t: Tables, a: GF28Value, y: GF28Value)
    requires Sized(t) && a != Zero
    ensures Mul(t, a, y) == GF28Value(Scale(t, Log(t, a), y.value))
  {
  }

  // ===================================================================
  // Inverse and division
  // ===================================================================

  /** reverse[value]: the multiplicative inverse of a nonzero element. */
  function Inverse(t: Tables, b: GF28Value): GF28Value
    requires Sized(t)
  {
    GF28Value(t.reverse[b.value])
  }

  /** The inverse of a nonzero element is nonzero, and the two logarithms add
      up to 0 modulo 255. */
  lemma InverseLog(t: Tables, b: GF28Value)
    requires Valid(t) && b != Zero
    ensures Inverse(t, b) != Zero && (Log(t, b) + Log(t, Inverse(t, b))) % 255 == 0
  {
    assert BackwardEntry(t, b.value);
    assert ForwardEntry(t, (255 - t.backward[b.value]) % 255);
  }

  /** The inverse of a nonzero element multiplies with it to One. */
  lemma InverseMul(t: Tables, b: GF28Value)
    requires Valid(t) && b != Zero
    ensures Mul(t, Inverse(t, b), b) == One
  {
    InverseLog(t, b);
    MulLog(t, Inverse(t, b), b);
    LogOne(t);
    LogInjective(t, Mul(t, Inverse(t, b), b), One);
  }

  /** operator/: the invalid marker, which converts to zero, when dividing by
      zero; zero for a zero dividend; otherwise x raised to the logarithm of the
      dividend plus the logarithm of the divisor's inverse. */
  function Div(t: Tables, a: GF28Value, b: GF28Value): (r: GF28Value)
    requires Sized(t)
    ensures b == Zero ==> r == Zero
  {
    if b == Zero then
      FromUIntInvalid();
      FromUInt(GF28_INVALID)
    else if a == Zero then Zero
    else Exp(t, (Log(t, a) + Log(t, Inverse(t, b))) % 255)
  }

  /** A quotient is zero exactly when the dividend or the divisor is. */
  lemma DivZero(t: Tables, a: GF28Value, b: GF28Value)
    requires Valid(t)
    ensures Div(t, a, b) == Zero <==> a == Zero || b == Zero
  {
    if a != Zero && b != Zero {
      ExpLog(t, (Log(t, a) + Log(t, Inverse(t, b))) % 255);
    }
  }

  lemma LogsCancel(x: nat, y: nat, z: nat, xy: nat)
    requires xy == (x + y) % 255 && (z + y) % 255 == 0 && x < 255
    ensures (xy + z) % 255 == x
  {
    ModShift(x + y, z);
  }

  /** Division undoes multiplication: (a / b) * b == a for every nonzero b. */
  lemma DivMul(t: Tables, a: GF28Value, b: GF28Value)
    requires Valid(t) && b != Zero
    ensures Mul(t, Div(t, a, b), b) == a
  {
    if a != Zero {
      var q := Div(t, a, b);
      var ib := Inverse(t, b);
      LogExp(t, a);
      InverseLog(t, b);
      ExpLog(t, (Log(t, a) + Log(t, ib)) % 255);
      MulLog(t, q, b);
      LogsCancel(Log(t, a), Log(t, ib), Log(t, b), Log(t, q));
      LogInjective(t, Mul(t, q, b), a);
    }
  }

  /** Multiplication undoes division: (a * b) / b == a for every nonzero b. */
  lemma MulDiv(t: Tables, a: GF28Value, b: GF28Value)
    requires Valid(t) && b != Zero
    ensures Div(t, Mul(t, a, b), b) == a
  {
    if a != Zero {
      var p := Mul(t, a, b);
      var ib := Inverse(t, b);
      LogExp(t, a);
      MulLog(t, a, b);
      InverseLog(t, b);
      ExpLog(t, (Log(t, p) + Log(t, ib)) % 255);
      LogsCancel(Log(t, a), Log(t, b), Log(t, ib), Log(t, p));
      LogInjective(t, Div(t, p, b), a);
    }
  }

  /** A nonzero factor cancels. */
  lemma MulCancel(t: Tables, c: GF28Value, a: GF28Value, b: GF28Value)
    requires Valid(t) && c != Zero && Mul(t, c, a) == Mul(t, c, b)
    ensures a == b
  {
    MulComm(t, c, a);
    MulComm(t, c, b);
    MulDiv(t, a, c);
    MulDiv(t, b, c);
  }

  /** A nonzero element divided by itself is One. */
  lemma DivSelf(t: Tables, a: GF28Value)
    requires Valid(t) && a != Zero
    ensures Div(t, a, a) == One
  {
    DivMul(t, a, a);
    MulOne(t, a);
    MulComm(t, a, Div(t, a, a));
    MulComm(t, a, One);
    MulCancel(t, a, Div(t, a, a), One);
  }

  /** operator/ as written, through value() and the range-checked getters,
      computes Div. */
  lemma DivByGetters(t: Tables, a: GF28Value, b: GF28Value)
    requires Valid(t)
    ensures Div(t, a, b) ==
      var i := Value(a);
      var j := Value(b);
      if j == 0 then FromUInt(GF28_INVALID)
      else if i == 0 then FromUInt(0)
      else FromUInt(GetForward(t, (GetBackward(t, i) + GetBackward(t, GetReverse(t, j))) % 255))
  {
    if b != Zero && a != Zero {
      var ib := Inverse(t, b);
      InverseLog(t, b);
      GetReverseInverse(t, b);
      GetBackwardLog(t, a);
      GetBackwardLog(t, ib);
      LogExp(t, a);
      LogExp(t, ib);
      GetForwardExp(t, (Log(t, a) + Log(t, ib)) % 255);
    }
  }

  /** getReverse on the value of a nonzero element is the value of its inverse. */
  lemma GetReverseInverse(t: Tables, b: GF28Value)
    requires Valid(t) && b != Zero
    ensures GetReverse(t, Value(b)) == Value(Inverse(t, b))
  {
    ToByteToNat(b.value);
  }

  /** The second self-check of the tables: reverse[i] * i == 1 for every
      nonzero byte i. */
  lemma ReverseTableCheck(t: Tables, i: nat)
    requires Valid(t) && 1 <= i < LIMIT
    ensures Mul(t, FromUInt(GetReverse(t, i)), FromUInt(i)) == One
  {
    var b := FromUInt(i);
    ValueFromUInt(i);
    GetReverseInverse(t, b);
    InverseMul(t, b);
  }

  // ===================================================================
  // Power
  // ===================================================================

  /** a^n as the source's loop computes it: n - 1 multiplications by a,
      starting from a; a^0 is One, even for a zero base. */
  function Power(t: Tables, a: GF28Value, n: nat): GF28Value
    requires Sized(t)
  {
    if n == 0 then One else Mul(t, Power(t, a, n - 1), a)
  }

  /** operator^: the exponent is the value of the second operand. */
  method Pow(t: Tables, a: GF28Value, b: GF28Value) returns (r: GF28Value)
    requires Valid(t)
    ensures r == Power(t, a, Value(b))
    ensures b == Zero ==> r == One
    ensures a == Zero && b != Zero ==> r == Zero
  {
    var i := Value(a);
    var j := Value(b);
    if j == 0 {
      return One;
    } else if i == 0 {
      return Zero;
    }
    MulOne(t, a);
    r := a;
    var u := a;
    var k := 0;
    while k < j - 1
      invariant 0 <= k <= j - 1
      invariant r == Power(t, a, k + 1)
    {
      r := Mul(t, r, u);
      k := k + 1;
    }
  }

  lemma ModMulStep(n: nat, l: nat, p: nat)
    requires p == ((n - 1) * l) % 255 && n > 0
    ensures (p + l) % 255 == (n * l) % 255
  {
    ModShift((n - 1) * l, l);
  }

  /** A power of a nonzero element is nonzero, and its logarithm is n times
      the element's logarithm. */
  lemma {:induction false} PowerLog(t: Tables, a: GF28Value, n: nat)
    requires Valid(t) && a != Zero
    ensures Power(t, a, n) != Zero
    ensures Log(t, Power(t, a, n)) == (n * Log(t, a)) % 255
  {
    if n == 0 {
      LogOne(t);
    } else {
      PowerLog(t, a, n - 1);
      MulLog(t, Power(t, a, n - 1), a);
      ModMulStep(n, Log(t, a), Log(t, Power(t, a, n - 1)));
    }
  }

  /** Every nonzero element raised to the 255th power is One. */
  lemma PowerOrder(t: Tables, a: GF28Value)
    requires Valid(t) && a != Zero
    ensures Power(t, a, 255) == One
  {
    PowerLog(t, a, 255);
    var l := Log(t, a);
    assert (255 * l) % 255 == 0;
    LogOne(t);
    LogInjective(t, Power(t, a, 255), One);
  }

  /** Exponents add: a^(m+n) == a^m * a^n. */
  lemma {:induction false} PowerAdd(t: Tables, a: GF28Value, m: nat, n: nat)
    requires Valid(t)
    ensures Power(t, a, m + n) == Mul(t, Power(t, a, m), Power(t, a, n))
  {
    if n == 0 {
      MulOne(t, Power(t, a, m));
    } else {
      PowerAdd(t, a, m, n - 1);
      MulAssoc(t, Power(t, a, m), Power(t, a, n - 1), a);
    }
  }
}
