/** What every operator of a condition computes, on 32-bit ints. */
module CppArithmetic {
  import opened Bytes
  import opened CppExpr
  import opened CppEval

  // -------------------------------------------------------------------
  // Sums, products and the sign
  // -------------------------------------------------------------------

  /** The int that agrees with `x` in its low 32 bits. */
  ghost predicate Wrapped(v: int, x: int) {
    Int32(v) && (v - x) % 0x1_0000_0000 == 0
  }

  lemma WrapIsWrapped(x: int)
    ensures Wrapped(Wrap(x), x) && (Int32(x) ==> Wrap(x) == x)
  {
  }

  lemma OneWrapped(v: int, w: int, x: int)
    requires Wrapped(v, x) && Wrapped(w, x)
    ensures v == w
  {
    assert (v - w) % 0x1_0000_0000 == 0;
  }

  lemma Sums(l: int, r: int)
    ensures var v := Apply(Add, l, r); v.Some? && Wrapped(v.value, l + r) && (Int32(l + r) ==> v.value == l + r)
  {
    WrapIsWrapped(l + r);
  }

  lemma Differences(l: int, r: int)
    ensures var v := Apply(Sub, l, r); v.Some? && Wrapped(v.value, l - r) && (Int32(l - r) ==> v.value == l - r)
  {
    WrapIsWrapped(l - r);
  }

  lemma SumUndoesDifference(l: int, r: int)
    requires Int32(l)
    ensures Apply(Add, Apply(Sub, l, r).value, r) == Some(l)
  {
    var d := Wrap(l - r);
    WrapIsWrapped(l - r);
    WrapIsWrapped(d + r);
    SameWrapped(d, l, r);
    OneWrapped(Wrap(d + r), l, d + r);
  }

  lemma SameWrapped(d: int, l: int, r: int)
    requires Wrapped(d, l - r) && Int32(l)
    ensures Wrapped(l, d + r)
  {
    assert l - (d + r) == -(d - (l - r));
    Negated(d - (l - r));
  }

  lemma Negated(x: int)
    requires x % 0x1_0000_0000 == 0
    ensures (-x) % 0x1_0000_0000 == 0
  {
  }

  lemma Products(l: int, r: int)
    ensures var v := Apply(Mul, l, r); v.Some? && Wrapped(v.value, l * r) && (Int32(l * r) ==> v.value == l * r)
  {
    WrapIsWrapped(l * r);
  }

  /** Minus, complement and not. */
  lemma UnaryOperators(x: int)
    requires Int32(x)
    ensures Wrapped(ApplyUnary('-', x), -x) && (x != -0x8000_0000 ==> ApplyUnary('-', x) == -x)
    ensures ApplyUnary('~', x) == -x - 1
    ensures ApplyUnary('!', x) == if x == 0 then 1 else 0
  {
    WrapIsWrapped(-x);
  }

  // -------------------------------------------------------------------
  // Quotient and remainder
  // -------------------------------------------------------------------

  function Abs(x: int): (n: nat) {
    if x < 0 then -x else x
  }

  /** Both are defined for the same operands; the quotient is rounded toward zero. */
  lemma QuotientAndRemainder(l: int, r: int)
    requires Int32(l) && Int32(r)
    ensures var q, m := Apply(Div, l, r), Apply(Rem, l, r);
            && (q.Some? <==> m.Some?) && (q.Some? <==> r != 0 && !(l == -0x8000_0000 && r == -1))
            && (q.Some? ==> l == q.value * r + m.value && Abs(m.value) < Abs(r) && Int32(q.value)
                            && (m.value > 0 ==> l > 0) && (m.value < 0 ==> l < 0))
  {
    if r != 0 && !(l == -0x8000_0000 && r == -1) {
      Rounded(l, r);
    }
  }

  lemma Rounded(l: int, r: int)
    requires r != 0 && Int32(l) && Int32(r) && !(l == -0x8000_0000 && r == -1)
    ensures var q := Quotient(l, r);
            var m := l - r * q;
            && l == q * r + m && Abs(m) < Abs(r) && (m > 0 ==> l > 0) && (m < 0 ==> l < 0) && Int32(q)
  {
    var a := Abs(l);
    Remainder(a, r);
    QuotientFits(a, r);
    if l < 0 {
      assert r * Quotient(l, r) == -(r * (a / r));
      if a / r == -0x8000_0000 {
        Times(0x8000_0000, r, -1);
      }
    }
  }

  lemma Remainder(a: int, r: int)
    requires a >= 0 && r != 0
    ensures 0 <= a - r * (a / r) < Abs(r)
  {
    assert a == r * (a / r) + a % r;
  }

  lemma Times(d: int, a: int, b: int)
    requires d >= 0 && a <= b
    ensures d * a <= d * b
  {
  }

  lemma QuotientFits(a: int, r: int)
    requires a >= 0 && r != 0
    ensures -a <= a / r <= a
  {
    var q := a / r;
    assert a == r * q + a % r;
    if r > 0 {
      if q > a {
        Times(q, 1, r);
      } else if q < 0 {
        Times(r, q, -1);
      }
    } else {
      if q < -a {
        Times(-q, 1, -r);
      } else if q > 0 {
        Times(q, r, -1);
      }
    }
  }

  // -------------------------------------------------------------------
  // Comparisons and logic
  // -------------------------------------------------------------------

  lemma Comparisons(l: int, r: int)
    ensures Apply(Lt, l, r) == Some(1) <==> l < r
    ensures forall op :: op in {Lt, Gt, Leq, Geq, Eql, Neq, And, Or} ==> Apply(op, l, r) in {Some(0), Some(1)}
    ensures Apply(Gt, l, r) == Apply(Lt, r, l)
    ensures Apply(Eql, l, r) == Some(1) <==> Apply(Lt, l, r) == Some(0) && Apply(Gt, l, r) == Some(0)
    ensures Apply(Leq, l, r) == Some(1) <==> Apply(Gt, l, r) == Some(0)
    ensures Apply(Geq, l, r) == Some(1) <==> Apply(Lt, l, r) == Some(0)
    ensures Apply(Neq, l, r) == Some(1) <==> Apply(Eql, l, r) == Some(0)
    ensures Apply(And, l, r) == Some(1) <==> l != 0 && r != 0
    ensures Apply(Or, l, r) == Some(0) <==> l == 0 && r == 0
  {
  }

  // -------------------------------------------------------------------
  // Shifts
  // -------------------------------------------------------------------

  lemma LeftShift(l: int, r: int)
    ensures Apply(Lsh, l, r).Some? <==> 0 <= r < 32
    ensures 0 <= r < 32 ==> Wrapped(Apply(Lsh, l, r).value, l * PowerOfTwo(r))
  {
    if 0 <= r < 32 {
      WrapIsWrapped(l * PowerOfTwo(r));
    }
  }

  lemma RightShift(l: int, r: int)
    requires Int32(l)
    ensures Apply(Rsh, l, r).Some? <==> 0 <= r < 32
    ensures 0 <= r < 32 ==>
              var v, p := Apply(Rsh, l, r).value, PowerOfTwo(r);
              p * v <= l < p * (v + 1) && Int32(v)
  {
    if 0 <= r < 32 {
      Floor(l, PowerOfTwo(r));
    }
  }

  lemma Floor(l: int, p: int)
    requires Int32(l) && p >= 1
    ensures p * (l / p) <= l < p * (l / p + 1) && Int32(l / p)
  {
    var k := l / p;
    assert l == p * k + l % p && p * (k + 1) == p * k + p;
    if l >= 0 {
      QuotientFits(l, p);
    } else {
      if k >= 0 {
        Times(p, 0, k);
      }
      if k < l {
        TimesNegative(p, k + 1);
      }
    }
  }

  lemma TimesNegative(p: int, a: int)
    requires p >= 1 && a <= 0
    ensures p * a <= a
  {
    Times(-a, 1, p);
    assert (-a) * p == -(p * a);
  }

  // -------------------------------------------------------------------
  // Bits
  // -------------------------------------------------------------------

  /** Bit `i` of an int in two's complement. */
  predicate BitOf(x: int, i: nat)
    decreases i
  {
    if i == 0 then x % 2 == 1 else BitOf(x / 2, i - 1)
  }

  lemma {:induction false} BitIsQuotient(x: int, i: nat)
    ensures BitOf(x, i) <==> x / PowerOfTwo(i) % 2 == 1
    decreases i
  {
    if i > 0 {
      BitIsQuotient(x / 2, i - 1);
      HalfFirst(x, PowerOfTwo(i - 1));
    }
  }

  lemma HalfFirst(x: int, p: int)
    requires p >= 1
    ensures x / (2 * p) == x / 2 / p
  {
    var h, b := x / 2, x % 2;
    var q, m := h / p, h % p;
    assert x == 2 * h + b && h == p * q + m;
    assert x == (2 * p) * q + (2 * m + b) && 0 <= 2 * m + b < 2 * p;
    QuotientIs(x, 2 * p, q, 2 * m + b);
  }

  lemma QuotientIs(x: int, d: int, q: int, m: int)
    requires d >= 1 && x == d * q + m && 0 <= m < d
    ensures x / d == q
  {
    var q', m' := x / d, x % d;
    assert x == d * q' + m' && d * (q + 1) == d * q + d && d * (q' + 1) == d * q' + d;
    if q' > q {
      Times(d, q + 1, q');
    } else if q' < q {
      Times(d, q' + 1, q);
    }
  }

  lemma {:induction false} BitwiseBits(op: Op, x: int, y: int, n: nat, i: nat)
    requires i < n
    ensures BitOf(Bitwise(op, x, y, n), i) == BitResult(op, BitOf(x, i), BitOf(y, i))
    decreases i
  {
    LowAndHigh(Truth(BitResult(op, x % 2 == 1, y % 2 == 1)), Bitwise(op, x / 2, y / 2, n - 1));
    if i > 0 {
      BitwiseBits(op, x / 2, y / 2, n - 1, i - 1);
    }
  }

  lemma LowAndHigh(b: int, z: int)
    requires b == 0 || b == 1
    ensures (b + 2 * z) % 2 == b && (b + 2 * z) / 2 == z
  {
  }

  /** The sign is the operator's result on the signs, and the value fits. */
  lemma {:induction false} BitwiseSign(op: Op, x: int, y: int, n: nat)
    requires 0 - PowerOfTwo(n) <= x < PowerOfTwo(n) && 0 - PowerOfTwo(n) <= y < PowerOfTwo(n)
    ensures var v := Bitwise(op, x, y, n);
            0 - PowerOfTwo(n) <= v < PowerOfTwo(n) && (v < 0 <==> BitResult(op, x < 0, y < 0))
    decreases n
  {
    if n > 0 {
      BitwiseSign(op, x / 2, y / 2, n - 1);
    }
  }

  lemma Power31()
    ensures PowerOfTwo(31) == 0x8000_0000
  {
    assert PowerOfTwo(8) == 0x100 by {
      assert PowerOfTwo(4) == 16;
    }
    assert PowerOfTwo(16) == 0x1_0000 by {
      assert PowerOfTwo(12) == 0x1000;
    }
    assert PowerOfTwo(24) == 0x100_0000 by {
      assert PowerOfTwo(20) == 0x10_0000;
    }
    assert PowerOfTwo(28) == 0x1000_0000;
  }

  /** `&`, `|` and `^` bit by bit, the sign included. */
  lemma BitOperators(l: int, r: int)
    requires Int32(l) && Int32(r)
    ensures forall op :: op in {BitAnd, BitOr, BitXor} ==> Apply(op, l, r).Some? && Int32(Apply(op, l, r).value)
    ensures var v := Apply(BitAnd, l, r).value;
            (v < 0 <==> l < 0 && r < 0) && forall i :: 0 <= i < 31 ==> (BitOf(v, i) <==> BitOf(l, i) && BitOf(r, i))
    ensures var v := Apply(BitOr, l, r).value;
            (v < 0 <==> l < 0 || r < 0) && forall i :: 0 <= i < 31 ==> (BitOf(v, i) <==> BitOf(l, i) || BitOf(r, i))
    ensures var v := Apply(BitXor, l, r).value;
            && (v < 0 <==> (l < 0) != (r < 0))
            && forall i :: 0 <= i < 31 ==> (BitOf(v, i) <==> BitOf(l, i) != BitOf(r, i))
  {
    Power31();
    forall op | op in {BitAnd, BitOr, BitXor}
      ensures Apply(op, l, r) == Some(Bitwise(op, l, r, 31)) && Int32(Bitwise(op, l, r, 31))
      ensures Bitwise(op, l, r, 31) < 0 <==> BitResult(op, l < 0, r < 0)
      ensures forall i :: 0 <= i < 31 ==>
                BitOf(Bitwise(op, l, r, 31), i) == BitResult(op, BitOf(l, i), BitOf(r, i))
    {
      BitwiseSign(op, l, r, 31);
      forall i | 0 <= i < 31 ensures BitOf(Bitwise(op, l, r, 31), i) == BitResult(op, BitOf(l, i), BitOf(r, i)) {
        BitwiseBits(op, l, r, 31, i);
      }
    }
  }

  // -------------------------------------------------------------------
  // Every value is an int
  // -------------------------------------------------------------------

  ghost predicate Literals32(e: Expr) {
    match e
    case Num(v) => Int32(v)
    case Defined(_) => true
    case Unary(_, e') => Literals32(e')
    case Binary(_, l, r) => Literals32(l) && Literals32(r)
  }

  lemma ApplyFits(op: Op, l: int, r: int)
    requires Int32(l) && Int32(r) && Apply(op, l, r).Some?
    ensures Int32(Apply(op, l, r).value)
  {
    match op
    case Div => QuotientAndRemainder(l, r);
    case Rem => QuotientAndRemainder(l, r);
    case Rsh => RightShift(l, r);
    case BitAnd => BitOperators(l, r);
    case BitOr => BitOperators(l, r);
    case BitXor => BitOperators(l, r);
    case _ =>
  }

  lemma UnaryFits(c: char, x: int)
    requires Int32(x)
    ensures Int32(ApplyUnary(c, x))
  {
  }

  ghost predicate Fits(v: Option<int>) {
    v.Some? ==> Int32(v.value)
  }

  lemma BinaryFits(op: Op, l: Expr, r: Expr, defs: set<string>)
    requires Fits(Exec(l, defs)) && Fits(Exec(r, defs))
    ensures Fits(Exec(Binary(op, l, r), defs))
  {
    var x, y := Exec(l, defs), Exec(r, defs);
    if op != Comma && x.Some? && y.Some? && Apply(op, x.value, y.value).Some? {
      ApplyFits(op, x.value, y.value);
    }
  }

  /** Whatever is evaluated, operands and results are 32-bit ints, as the laws above ask. */
  lemma {:induction false} ExecFits(e: Expr, defs: set<string>)
    requires Literals32(e)
    ensures Fits(Exec(e, defs))
  {
    match e
    case Num(_) =>
    case Defined(_) =>
    case Unary(c, e') =>
      ExecFits(e', defs);
      if Exec(e', defs).Some? {
        UnaryFits(c, Exec(e', defs).value);
      }
    case Binary(op, l, r) =>
      ExecFits(l, defs);
      ExecFits(r, defs);
      BinaryFits(op, l, r, defs);
  }
}
