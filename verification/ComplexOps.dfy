/**
 Multiplying and dividing complex cells with null values, over exact reals.

 Each operator has three forms: both operands complex, or a scalar as the first or the second operand.
 */
module ComplexOps {
  datatype Complex = Complex(re: real, im: real)

  /** The null values: closed intervals of real numbers. */
  datatype NullRange = NullRange(lo: real, hi: real)
  type Nulls = seq<NullRange>

  predicate IsNull(n: Nulls, v: real) { exists i :: 0 <= i < |n| && n[i].lo <= v <= n[i].hi }
  /** A part is null if any of several intervals has it, bounds included. */
  lemma NullRangesExample()
    ensures var n := [NullRange(0.0, 1.0), NullRange(5.0, 6.5)];
            && IsNull(n, 0.0) && IsNull(n, 1.0) && IsNull(n, 5.5) && IsNull(n, 6.5) && !IsNull(n, -0.1) && !IsNull(n, 3.0) && !IsNull(n, 7.0)
            && HasNull(n, Complex(3.0, 5.5)) && HasNull(n, Complex(0.5, 3.0)) && !HasNull(n, Complex(3.0, 4.0))
  {
    var n := [NullRange(0.0, 1.0), NullRange(5.0, 6.5)];
    assert n[0].lo == 0.0 && n[1].lo == 5.0;
  }

  predicate HasNull(n: Nulls, z: Complex) { IsNull(n, z.re) || IsNull(n, z.im) }

  function Norm(z: Complex): real { z.re * z.re + z.im * z.im }

  predicate NonZero(z: Complex) { z.re != 0.0 || z.im != 0.0 }

  function Times(a: real, b: real): (r: real)
    ensures a > 0.0 && b > 0.0 ==> r > 0.0
  {
    a * b
  }

  function Square(v: real): (s: real)
    ensures s >= 0.0 && (v != 0.0 ==> s > 0.0)
  {
    if v > 0.0 then Times(v, v) else if v < 0.0 then Times(-v, -v) else 0.0
  }

  lemma SquareIs(v: real)
    ensures Square(v) == v * v
  {
  }

  lemma NormPositive(z: Complex)
    requires NonZero(z)
    ensures Norm(z) > 0.0
  {
    SquareIs(z.re);
    SquareIs(z.im);
    hide Square, Norm;
    assert Square(z.re) + Square(z.im) > 0.0;
    NormIs(z);
  }

  lemma NormIs(z: Complex)
    ensures Norm(z) == Square(z.re) + Square(z.im)
  {
    SquareIs(z.re);
    SquareIs(z.im);
  }

  // ---------- the operators ----------

  function Mult(n: Nulls, z1: Complex, z2: Complex): Complex {
    if HasNull(n, z1) then z1
    else if HasNull(n, z2) then z2
    else Complex(z1.re * z2.re - z1.im * z2.im, z1.re * z2.im + z2.re * z1.im)
  }

  function MultFirst(n: Nulls, x1: real, z2: Complex): Complex {
    if IsNull(n, x1) then Complex(x1, 0.0)
    else if HasNull(n, z2) then z2
    else Complex(x1 * z2.re, x1 * z2.im)
  }

  function MultSecond(n: Nulls, z1: Complex, x2: real): Complex {
    if HasNull(n, z1) then z1
    else if IsNull(n, x2) then Complex(x2, 0.0)
    else Complex(z1.re * x2, z1.im * x2)
  }

  function Quotient(z1: Complex, z2: Complex): Complex
    requires NonZero(z2)
  {
    NormPositive(z2);
    Complex((z1.re * z2.re + z1.im * z2.im) / Norm(z2), (z1.im * z2.re - z1.re * z2.im) / Norm(z2))
  }

  function Div(n: Nulls, z1: Complex, z2: Complex): Complex
    requires NonZero(z2)
  {
    if HasNull(n, z1) then z1
    else if HasNull(n, z2) then z2
    else Quotient(z1, z2)
  }

  function DivFirst(n: Nulls, x1: real, z2: Complex): Complex
    requires NonZero(z2)
  {
    if IsNull(n, x1) then Complex(x1, 0.0)
    else if HasNull(n, z2) then z2
    else NormPositive(z2); Complex(x1 * z2.re / Norm(z2), -x1 * z2.im / Norm(z2))
  }

  function DivSecond(n: Nulls, z1: Complex, x2: real): Complex
    requires x2 != 0.0
  {
    if HasNull(n, z1) then z1
    else if IsNull(n, x2) then Complex(x2, 0.0)
    else Complex(z1.re / x2, z1.im / x2)
  }

  // ---------- division and multiplication undo each other ----------

  lemma Cancel(a: real, b: real, d: real)
    requires d != 0.0 && a * d == b * d
    ensures a == b
  {
    assert (a - b) * d == 0.0;
  }

  lemma QuotientTimes(z1: Complex, z2: Complex)
    requires NonZero(z2)
    ensures var q := Quotient(z1, z2);
            q.re * z2.re - q.im * z2.im == z1.re && q.re * z2.im + z2.re * q.im == z1.im
  {
    NormPositive(z2);
    var q, d := Quotient(z1, z2), Norm(z2);
    var x1, y1, x2, y2 := z1.re, z1.im, z2.re, z2.im;
    assert A: q.re * d == x1 * x2 + y1 * y2;
    assert B: q.im * d == y1 * x2 - x1 * y2;
    Products(x1, y1, x2, y2, q.re, q.im, d);
    Cancel(q.re * x2 - q.im * y2, x1, d);
    Cancel(q.re * y2 + x2 * q.im, y1, d);
  }

  lemma Products(x1: real, y1: real, x2: real, y2: real, a: real, b: real, d: real)
    requires a * d == x1 * x2 + y1 * y2 && b * d == y1 * x2 - x1 * y2 && d == x2 * x2 + y2 * y2
    ensures (a * x2 - b * y2) * d == x1 * d && (a * y2 + x2 * b) * d == y1 * d
  {
    calc {
      (a * x2 - b * y2) * d;
      (a * d) * x2 - (b * d) * y2;
      (x1 * x2 + y1 * y2) * x2 - (y1 * x2 - x1 * y2) * y2;
      x1 * (x2 * x2 + y2 * y2);
    }
    calc {
      (a * y2 + x2 * b) * d;
      (a * d) * y2 + (b * d) * x2;
      (x1 * x2 + y1 * y2) * y2 + (y1 * x2 - x1 * y2) * x2;
      y1 * (x2 * x2 + y2 * y2);
    }
  }

  /** Dividing by a non-zero number and multiplying by it again gives the operand back exactly if no null gets in between. */
  lemma DivThenMult(n: Nulls, z1: Complex, z2: Complex)
    requires NonZero(z2)
    ensures Mult(n, Div(n, z1, z2), z2) == z1 <==>
            HasNull(n, z1) || (!HasNull(n, z2) && !HasNull(n, Quotient(z1, z2)))
  {
    hide IsNull, Quotient;
    QuotientTimes(z1, z2);
  }

  /** Without null values the two undo each other for every non-zero divisor. */
  lemma DivThenMultNoNulls(z1: Complex, z2: Complex)
    requires NonZero(z2)
    ensures Mult([], Div([], z1, z2), z2) == z1
  {
    DivThenMult([], z1, z2);
  }

  // ---------- the scalar forms ----------

  /** Some value is above all null ranges. */
  lemma {:induction false} SomeNonNull(n: Nulls) returns (v: real)
    ensures v >= 1.0 && !IsNull(n, v) && forall i :: 0 <= i < |n| ==> n[i].hi < v
  {
    if n == [] {
      v := 1.0;
    } else {
      var w := SomeNonNull(n[1..]);
      v := if n[0].hi < w then w else n[0].hi + 1.0;
      forall i | 0 <= i < |n| ensures n[i].hi < v {
        if i > 0 { assert n[i] == n[1..][i - 1]; }
      }
    }
  }

  lemma DivByReal(a: real, x: real)
    requires x != 0.0
    ensures Norm(Complex(x, 0.0)) > 0.0
    ensures a * x / Norm(Complex(x, 0.0)) == a / x
  {
    NormPositive(Complex(x, 0.0));
    var q, d := a / x, Norm(Complex(x, 0.0));
    assert q * x == a;
    assert q * d == q * (x * x);
    assert q * (x * x) == a * x;
    hide Norm;
    Divided(a * x, q, d);
  }

  lemma Divided(b: real, q: real, d: real)
    requires d > 0.0 && q * d == b
    ensures b / d == q
  {
    Cancel(b / d, q, d);
  }

  /** The scalar forms agree with the general one on all operands exactly when 0 is not a null value. */
  lemma ScalarMultIff(n: Nulls)
    ensures (forall x, z :: MultFirst(n, x, z) == Mult(n, Complex(x, 0.0), z)) <==> !IsNull(n, 0.0)
    ensures (forall z, x :: MultSecond(n, z, x) == Mult(n, z, Complex(x, 0.0))) <==> !IsNull(n, 0.0)
  {
    hide IsNull;
    var v := SomeNonNull(n);
    if IsNull(n, 0.0) {
      assert MultFirst(n, v, Complex(0.0, 1.0)) != Mult(n, Complex(v, 0.0), Complex(0.0, 1.0));
      assert v * v >= 1.0;
      assert MultSecond(n, Complex(v, v), v) != Mult(n, Complex(v, v), Complex(v, 0.0));
    }
  }

  lemma ScalarDivIff(n: Nulls)
    ensures (forall x, z | NonZero(z) :: DivFirst(n, x, z) == Div(n, Complex(x, 0.0), z)) <==> !IsNull(n, 0.0)
    ensures (forall z, x | x != 0.0 :: DivSecond(n, z, x) == Div(n, z, Complex(x, 0.0))) <==> !IsNull(n, 0.0)
  {
    hide IsNull, Quotient;
    var v := SomeNonNull(n);
    if IsNull(n, 0.0) {
      assert DivFirst(n, v, Complex(0.0, 1.0)) != Div(n, Complex(v, 0.0), Complex(0.0, 1.0));
      assert DivSecond(n, Complex(v, v), v) != Div(n, Complex(v, v), Complex(v, 0.0)) by { assert v / v == 1.0; }
    } else {
      forall x, z | NonZero(z) ensures DivFirst(n, x, z) == Div(n, Complex(x, 0.0), z) { ScalarDividend(x, z); }
      forall z, x | x != 0.0 ensures DivSecond(n, z, x) == Div(n, z, Complex(x, 0.0)) { ScalarDivisor(z, x); }
    }
  }

  lemma ScalarDividend(x: real, z: Complex)
    requires NonZero(z)
    ensures Norm(z) > 0.0
    ensures Quotient(Complex(x, 0.0), z) == Complex(x * z.re / Norm(z), -x * z.im / Norm(z))
  {
    NormPositive(z);
    assert 0.0 * z.im == 0.0 && 0.0 * z.re == 0.0 && 0.0 - x * z.im == -x * z.im;
  }

  lemma ScalarDivisor(z: Complex, x: real)
    requires x != 0.0
    ensures Quotient(z, Complex(x, 0.0)) == Complex(z.re / x, z.im / x)
  {
    NormPositive(Complex(x, 0.0));
    DivByReal(z.re, x);
    DivByReal(z.im, x);
    assert z.im * 0.0 == 0.0 && z.re * 0.0 == 0.0;
  }

  /** With 0 as null value, 2 times 3 + 3i is 6 + 6i in one form and 2 in the other. */
  lemma NullZeroExample()
    ensures var n := [NullRange(0.0, 0.0)];
            Mult(n, Complex(2.0, 0.0), Complex(3.0, 3.0)) == Complex(2.0, 0.0)
            && MultFirst(n, 2.0, Complex(3.0, 3.0)) == Complex(6.0, 6.0)
  {
    var n := [NullRange(0.0, 0.0)];
    assert IsNull(n, 0.0) by { assert n[0].lo <= 0.0 <= n[0].hi; }
    assert !IsNull(n, 2.0) && !IsNull(n, 3.0);
  }
}
