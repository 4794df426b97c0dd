/**
  Arithmetic modulo a prime: the scalar field of the OPRF group. Scalars (and, in `Oprf`, group elements
  named by their discrete logarithm) are integers compared up to `Cong`.
 */
module Field {
  predicate Divides(d: int, n: int)
    requires d != 0
  {
    n % d == 0
  }

  ghost predicate Prime(q: int) {
    q >= 2 && forall d :: 2 <= d < q ==> !Divides(d, q)
  }

  /** `a` and `b` name the same residue modulo `q`. */
  predicate Cong(a: int, b: int, q: int)
    requires q > 0
  {
    (a - b) % q == 0
  }

  lemma MulOrder(a: int, b: int, q: int)
    requires q > 0 && a <= b
    ensures q * a <= q * b
  {
  }

  /** The only multiple of `q` strictly between `-q` and `q` is 0. */
  lemma SmallMultiple(q: int, d: int)
    requires q > 0 && -q < q * d < q
    ensures d == 0
  {
    if d >= 1 {
      MulOrder(1, d, q);
    } else if d <= -1 {
      MulOrder(d, -1, q);
    }
  }

  lemma MultipleIsZero(k: int, q: int)
    requires q > 0
    ensures (q * k) % q == 0 && (k * q) % q == 0
  {
    var d := k - (q * k) / q;
    assert (q * k) % q == q * k - q * ((q * k) / q) == q * d;
    SmallMultiple(q, d);
    assert q * k == k * q;
  }

  /** The quotient that witnesses a congruence. */
  lemma CongQuotient(a: int, b: int, q: int) returns (k: int)
    requires q > 0 && Cong(a, b, q)
    ensures a == b + q * k
  {
    k := (a - b) / q;
  }

  lemma CongFrom(a: int, b: int, q: int, k: int)
    requires q > 0 && a == b + q * k
    ensures Cong(a, b, q)
  {
    MultipleIsZero(k, q);
  }

  lemma CongSym(a: int, b: int, q: int)
    requires q > 0 && Cong(a, b, q)
    ensures Cong(b, a, q)
  {
    var k := CongQuotient(a, b, q);
    CongFrom(b, a, q, -k);
  }

  lemma CongTrans(a: int, b: int, c: int, q: int)
    requires q > 0 && Cong(a, b, q) && Cong(b, c, q)
    ensures Cong(a, c, q)
  {
    var k := CongQuotient(a, b, q);
    var l := CongQuotient(b, c, q);
    CongFrom(a, c, q, k + l);
  }

  lemma CongAdd(a: int, b: int, c: int, d: int, q: int)
    requires q > 0 && Cong(a, b, q) && Cong(c, d, q)
    ensures Cong(a + c, b + d, q)
  {
    var k := CongQuotient(a, b, q);
    var l := CongQuotient(c, d, q);
    CongFrom(a + c, b + d, q, k + l);
  }

  lemma CongSub(a: int, b: int, c: int, d: int, q: int)
    requires q > 0 && Cong(a, b, q) && Cong(c, d, q)
    ensures Cong(a - c, b - d, q)
  {
    var k := CongQuotient(a, b, q);
    var l := CongQuotient(c, d, q);
    CongFrom(a - c, b - d, q, k - l);
  }

  lemma CongMul(a: int, b: int, c: int, q: int)
    requires q > 0 && Cong(a, b, q)
    ensures Cong(a * c, b * c, q) && Cong(c * a, c * b, q)
  {
    var k := CongQuotient(a, b, q);
    assert a * c == b * c + q * (k * c);
    CongFrom(a * c, b * c, q, k * c);
    assert a * c == c * a && b * c == c * b;
  }

  lemma CongMod(a: int, q: int)
    requires q > 0
    ensures Cong(a % q, a, q) && Cong(a, a % q, q)
  {
    CongFrom(a, a % q, q, a / q);
    CongSym(a, a % q, q);
  }

  /** Congruent residues have the same canonical representative. */
  lemma CongSameMod(a: int, b: int, q: int)
    requires q > 0
    ensures Cong(a, b, q) <==> a % q == b % q
  {
    CongMod(a, q);
    CongMod(b, q);
    if a % q == b % q {
      CongTrans(a, a % q, b, q);
    }
    if Cong(a, b, q) {
      CongTrans(a % q, a, b, q);
      CongTrans(a % q, b, b % q, q);
      var k := CongQuotient(a % q, b % q, q);
      SmallMultiple(q, k);
    }
  }

  /** Extended Euclid: a common divisor and its two Bezout coefficients. */
  function ExtendedGcd(a: nat, b: nat): (r: (nat, int, int))
    requires a > 0 || b > 0
    ensures r.0 > 0
    decreases b
  {
    if b == 0 then (a, 1, 0)
    else
      var t := ExtendedGcd(b, a % b);
      (t.0, t.2, t.1 - (a / b) * t.2)
  }

  lemma {:induction false} Bezout(a: nat, b: nat)
    requires a > 0 || b > 0
    ensures var t := ExtendedGcd(a, b); a * t.1 + b * t.2 == t.0
    decreases b
  {
    if b > 0 {
      Bezout(b, a % b);
      var t := ExtendedGcd(b, a % b);
      BezoutStep(a, b, a / b, a % b, t.1, t.2);
    }
  }

  lemma BezoutStep(a: int, b: int, d: int, m: int, x: int, y: int)
    requires a == b * d + m
    ensures a * y + b * (x - d * y) == b * x + m * y
  {
    assert b * (x - d * y) == b * x - (b * d) * y;
    assert (b * d + m) * y == (b * d) * y + m * y;
  }

  lemma {:induction false} ExtendedGcdDivides(a: nat, b: nat)
    requires a > 0 || b > 0
    ensures Divides(ExtendedGcd(a, b).0, a) && Divides(ExtendedGcd(a, b).0, b)
    decreases b
  {
    if b > 0 {
      ExtendedGcdDivides(b, a % b);
      DivideBack(a, b, ExtendedGcd(b, a % b).0);
    }
  }

  lemma DivideBack(a: nat, b: nat, g: nat)
    requires b > 0 && g > 0 && Divides(g, b) && Divides(g, a % b)
    ensures Divides(g, a)
  {
    var m := a % b;
    assert Cong(b, 0, g) && Cong(m, 0, g);
    CongMul(b, 0, a / b, g);
    CongAdd(b * (a / b), 0 * (a / b), m, 0, g);
    assert a == b * (a / b) + m;
  }

  /** `Scalar::invert`: the multiplicative inverse, and 0 for 0. */
  function Inverse(a: int, q: int): (r: int)
    requires q > 0
    ensures 0 <= r < q
  {
    if a % q == 0 then 0 else ExtendedGcd(a % q, q).1 % q
  }

  lemma GcdWithPrime(m: nat, q: int)
    requires Prime(q) && 0 < m < q
    ensures ExtendedGcd(m, q).0 == 1
  {
    ExtendedGcdDivides(m, q);
    var g := ExtendedGcd(m, q).0;
    if g >= 2 {
      assert Divides(g, q) && Divides(g, m);
      assert g < q by {
        if g >= q {
          SmallModulus(m, g);
        }
      }
    }
  }

  lemma SmallModulus(m: nat, g: nat)
    requires m < g
    ensures m % g == m
  {
  }

  lemma InverseCancels(a: int, q: int)
    requires Prime(q) && a % q != 0
    ensures Cong(a * Inverse(a, q), 1, q) && Inverse(a, q) % q != 0
  {
    var m := a % q;
    var x, y := ExtendedGcd(m, q).1, ExtendedGcd(m, q).2;
    GcdWithPrime(m, q);
    Bezout(m, q);
    CongFrom(m * x, 1, q, -y);
    var r := Inverse(a, q);
    CongMod(x, q);
    CongMul(r, x, m, q);
    CongTrans(m * r, m * x, 1, q);
    CongMod(a, q);
    CongMul(a, m, r, q);
    CongTrans(a * r, m * r, 1, q);
    if r % q == 0 {
      SmallModulus(r, q);
      CongSameMod(a * r, 1, q);
    }
  }

  /** A nonzero factor can be cancelled. */
  lemma Cancel(c: int, a: int, b: int, q: int)
    requires Prime(q) && c % q != 0 && Cong(c * a, c * b, q)
    ensures Cong(a, b, q)
  {
    var i := Inverse(c, q);
    InverseCancels(c, q);
    CongMul(c * a, c * b, i, q);
    assert i * (c * a) == (c * i) * a && i * (c * b) == (c * i) * b;
    CongMul(c * i, 1, a, q);
    CongMul(c * i, 1, b, q);
    CongSym((c * i) * a, 1 * a, q);
    CongTrans(a, (c * i) * a, (c * i) * b, q);
    CongTrans(a, (c * i) * b, b, q);
  }

  /** A product of nonzero residues is nonzero. */
  lemma ProductNonzero(a: int, b: int, q: int)
    requires Prime(q) && a % q != 0 && b % q != 0
    ensures (a * b) % q != 0
  {
    if (a * b) % q == 0 {
      assert Cong(a * b, a * 0, q);
      Cancel(a, b, 0, q);
      assert false;
    }
  }
}
