/**
  Lagrange interpolation at zero over a prime field, for any number of pairwise different points: the
  coefficients that `threshold_combine` computes turn the values of a polynomial of degree below the number
  of points into its constant term.
 */
module Lagrange {
  import opened Field

  /** The value at `x` of the polynomial with coefficients `cs`, constant term first. */
  function Eval(cs: seq<int>, x: int): int {
    if cs == [] then 0 else cs[0] + x * Eval(cs[1..], x)
  }

  function Numerator(xs: seq<int>, v: int): int {
    if xs == [] then 1
    else
      var u := xs[|xs| - 1];
      var rest := Numerator(xs[..|xs| - 1], v);
      if u == v then rest else rest * u
  }

  function Denominator(xs: seq<int>, v: int): int {
    if xs == [] then 1
    else
      var u := xs[|xs| - 1];
      var rest := Denominator(xs[..|xs| - 1], v);
      if u == v then rest else rest * (u - v)
  }

  /** The coefficient at zero of the point `v` among the points `xs`. */
  function Lambda(xs: seq<int>, v: int, q: int): int
    requires q > 0
  {
    Numerator(xs, v) * Inverse(Denominator(xs, v), q)
  }

  /** The sum of `Lambda(xs, v) * f(v)` over the points `v` of `sub`. */
  function Sum(xs: seq<int>, sub: seq<int>, f: int -> int, q: int): int
    requires q > 0
  {
    if sub == [] then 0
    else
      var v := sub[|sub| - 1];
      Sum(xs, sub[..|sub| - 1], f, q) + Lambda(xs, v, q) * f(v)
  }

  /** The points are nonzero and pairwise different modulo `q`. */
  ghost predicate Apart(xs: seq<int>, q: int)
    requires q > 0
  {
    && (forall i :: 0 <= i < |xs| ==> xs[i] % q != 0)
    && (forall i, j :: 0 <= i < j < |xs| ==> !Cong(xs[i], xs[j], q))
  }

  ghost predicate ApartFrom(xs: seq<int>, v: int, q: int)
    requires q > 0
  {
    forall u :: u in xs ==> u == v || !Cong(u, v, q)
  }

  lemma ApartMembers(xs: seq<int>, q: int)
    requires q > 0 && Apart(xs, q)
    ensures forall v :: v in xs ==> ApartFrom(xs, v, q)
  {
    forall v, u | v in xs && u in xs && u != v
      ensures !Cong(u, v, q)
    {
      var i :| 0 <= i < |xs| && xs[i] == v;
      var j :| 0 <= j < |xs| && xs[j] == u;
      if Cong(u, v, q) {
        CongSym(u, v, q);
      }
    }
  }

  lemma {:induction false} DenominatorNonzero(xs: seq<int>, v: int, q: int)
    requires Prime(q) && ApartFrom(xs, v, q)
    ensures Denominator(xs, v) % q != 0
  {
    if xs != [] {
      var u := xs[|xs| - 1];
      DenominatorNonzero(xs[..|xs| - 1], v, q);
      if u != v {
        assert u in xs;
        ProductNonzero(Denominator(xs[..|xs| - 1], v), u - v, q);
      }
    }
  }

  lemma Commute(a: int, b: int, c: int)
    ensures (a * b) * c == (a * c) * b
  {
  }

  lemma Regroup(a: int, b: int, c: int)
    ensures a * (b * c) == (a * b) * c == b * (a * c)
  {
  }

  lemma {:induction false} ProductsFromFront(xs: seq<int>, v: int)
    requires xs != [] && xs[0] != v
    ensures Numerator(xs, v) == Numerator(xs[1..], v) * xs[0]
    ensures Denominator(xs, v) == Denominator(xs[1..], v) * (xs[0] - v)
  {
    var n := |xs|;
    if n > 1 {
      var u := xs[n - 1];
      ProductsFromFront(xs[..n - 1], v);
      assert xs[..n - 1][1..] == xs[1..][..n - 2];
      var num, den := Numerator(xs[1..n - 1], v), Denominator(xs[1..n - 1], v);
      assert xs[1..][..n - 2] == xs[1..n - 1];
      Commute(num, xs[0], u);
      Commute(den, xs[0] - v, u - v);
    }
  }

  /** Dropping a point with factor `c` from the numerator and `e` from the denominator. */
  lemma DropFactor(num: int, den: int, c: int, e: int, q: int)
    requires Prime(q) && den % q != 0 && e % q != 0
    ensures Cong((num * c) * Inverse(den * e, q) * e, c * (num * Inverse(den, q)), q)
  {
    var i, j := Inverse(den, q), Inverse(den * e, q);
    ProductNonzero(den, e, q);
    InverseCancels(den, q);
    InverseCancels(den * e, q);
    Regroup(den, e, j);
    CongSym(den * i, 1, q);
    CongTrans(den * (e * j), 1, den * i, q);
    Cancel(den, e * j, i, q);
    CongMul(e * j, i, num * c, q);
    Regroup(num * c, e, j);
    Commute(num, c, i);
    Regroup(num * c, j, e);
    Regroup(c, num, i);
  }

  /** Every member of `sub` is a member of `xs` other than `e`, hence apart from `e` and from the rest of `sub`. */
  lemma ApartRest(xs: seq<int>, sub: seq<int>, v: int, e: int, q: int)
    requires q > 0 && Apart(xs, q) && e in xs && v in sub && v != e
    requires forall u :: u in sub ==> u in xs
    ensures ApartFrom(sub, v, q) && (e - v) % q != 0
  {
    ApartMembers(xs, q);
    assert v in xs && ApartFrom(xs, v, q);
  }

  lemma DropLast(xs: seq<int>, v: int, q: int)
    requires Prime(q) && Apart(xs, q) && xs != [] && v in xs[..|xs| - 1]
    ensures var b := xs[|xs| - 1];
            Cong(Lambda(xs, v, q) * (b - v), b * Lambda(xs[..|xs| - 1], v, q), q)
  {
    var b, front := xs[|xs| - 1], xs[..|xs| - 1];
    var i :| 0 <= i < |front| && front[i] == v;
    DifferentLast(xs, i, q);
    ApartRest(xs, front, v, b, q);
    DenominatorNonzero(front, v, q);
    DropFactor(Numerator(front, v), Denominator(front, v), b, b - v, q);
  }

  lemma DifferentLast(xs: seq<int>, i: int, q: int)
    requires q > 0 && Apart(xs, q) && 0 <= i < |xs| - 1
    ensures xs[i] != xs[|xs| - 1] && xs[0] != xs[i + 1]
  {
    assert !Cong(xs[i], xs[|xs| - 1], q);
    assert !Cong(xs[0], xs[i + 1], q);
    CongFrom(xs[i], xs[i], q, 0);
    CongFrom(xs[0], xs[0], q, 0);
  }

  lemma DropFirst(xs: seq<int>, v: int, q: int)
    requires Prime(q) && Apart(xs, q) && xs != [] && v in xs[1..]
    ensures Cong(Lambda(xs, v, q) * (xs[0] - v), xs[0] * Lambda(xs[1..], v, q), q)
  {
    var a, rest := xs[0], xs[1..];
    var i :| 0 <= i < |rest| && rest[i] == v;
    DifferentLast(xs, i, q);
    ApartRest(xs, rest, v, a, q);
    DenominatorNonzero(rest, v, q);
    ProductsFromFront(xs, v);
    DropFactor(Numerator(rest, v), Denominator(rest, v), a, a - v, q);
  }

  lemma {:induction false} SumFromFront(xs: seq<int>, sub: seq<int>, f: int -> int, q: int)
    requires q > 0 && sub != []
    ensures Sum(xs, sub, f, q) == Lambda(xs, sub[0], q) * f(sub[0]) + Sum(xs, sub[1..], f, q)
  {
    var n := |sub|;
    if n > 1 {
      SumFromFront(xs, sub[..n - 1], f, q);
      assert sub[..n - 1][1..] == sub[1..][..n - 2];
    } else {
      assert sub[..0] == [];
    }
  }

  lemma {:induction false} SumLinear(xs: seq<int>, sub: seq<int>, h: int -> int, c: int, f: int -> int, d: int,
                                     g: int -> int, q: int)
    requires q > 0
    requires forall v :: v in sub ==> h(v) == c * f(v) + d * g(v)
    ensures Sum(xs, sub, h, q) == c * Sum(xs, sub, f, q) + d * Sum(xs, sub, g, q)
  {
    if sub != [] {
      var n := |sub|;
      var v, rest := sub[n - 1], sub[..n - 1];
      SumLinear(xs, rest, h, c, f, d, g, q);
      assert v in sub;
      LinearStep(Lambda(xs, v, q), h(v), c, Sum(xs, rest, f, q), f(v), d, Sum(xs, rest, g, q), g(v));
    }
  }

  lemma LinearStep(l: int, y: int, c: int, s: int, x: int, d: int, t: int, z: int)
    requires y == c * x + d * z
    ensures c * s + d * t + l * y == c * (s + l * x) + d * (t + l * z)
  {
    Distribute(l, c * x, d * z);
    Distribute(c, s, l * x);
    Distribute(d, t, l * z);
    Regroup(l, c, x);
    Regroup(l, d, z);
  }

  lemma Distribute(a: int, b: int, c: int)
    ensures a * (b + c) == a * b + a * c
  {
  }

  /** Replacing the weights of `xs` by those of `ys`, point by point. */
  lemma {:induction false} SumShift(xs: seq<int>, ys: seq<int>, sub: seq<int>, e: int, f: int -> int, g: int -> int,
                                    q: int)
    requires q > 0
    requires forall v :: v in sub ==> Cong(Lambda(xs, v, q) * g(v), e * (Lambda(ys, v, q) * f(v)), q)
    ensures Cong(Sum(xs, sub, g, q), e * Sum(ys, sub, f, q), q)
  {
    if sub != [] {
      var n := |sub|;
      var v, rest := sub[n - 1], sub[..n - 1];
      SumShift(xs, ys, rest, e, f, g, q);
      assert v in sub;
      ShiftStep(Sum(xs, rest, g, q), Sum(ys, rest, f, q), Lambda(xs, v, q) * g(v), Lambda(ys, v, q) * f(v), e, q);
    }
  }

  lemma ShiftStep(s: int, t: int, x: int, y: int, e: int, q: int)
    requires q > 0 && Cong(s, e * t, q) && Cong(x, e * y, q)
    ensures Cong(s + x, e * (t + y), q)
  {
    CongAdd(s, e * t, x, e * y, q);
    Distribute(e, t, y);
  }

  /** One point: from its weights to its terms. */
  lemma TermShift(l: int, m: int, e: int, d: int, y: int, z: int, q: int)
    requires q > 0 && Cong(l * d, e * m, q) && z == d * y
    ensures Cong(l * z, e * (m * y), q)
  {
    CongMul(l * d, e * m, y, q);
    Regroup(l, d, y);
    Regroup(e, m, y);
  }

  /** Weighting by the distance to the last point leaves the weights of the other points. */
  lemma SumDropLast(xs: seq<int>, f: int -> int, g: int -> int, q: int)
    requires Prime(q) && Apart(xs, q) && xs != []
    requires forall v :: g(v) == (xs[|xs| - 1] - v) * f(v)
    ensures Cong(Sum(xs, xs, g, q), xs[|xs| - 1] * Sum(xs[..|xs| - 1], xs[..|xs| - 1], f, q), q)
  {
    var b, front := xs[|xs| - 1], xs[..|xs| - 1];
    forall v | v in front
      ensures Cong(Lambda(xs, v, q) * g(v), b * (Lambda(front, v, q) * f(v)), q)
    {
      DropLast(xs, v, q);
      TermShift(Lambda(xs, v, q), Lambda(front, v, q), b, b - v, f(v), g(v), q);
    }
    SumShift(xs, front, front, b, f, g, q);
    assert g(b) == 0;
  }

  lemma SumDropFirst(xs: seq<int>, f: int -> int, g: int -> int, q: int)
    requires Prime(q) && Apart(xs, q) && xs != []
    requires forall v :: g(v) == (xs[0] - v) * f(v)
    ensures Cong(Sum(xs, xs, g, q), xs[0] * Sum(xs[1..], xs[1..], f, q), q)
  {
    var a, rest := xs[0], xs[1..];
    forall v | v in rest
      ensures Cong(Lambda(xs, v, q) * g(v), a * (Lambda(rest, v, q) * f(v)), q)
    {
      DropFirst(xs, v, q);
      TermShift(Lambda(xs, v, q), Lambda(rest, v, q), a, a - v, f(v), g(v), q);
    }
    SumShift(xs, rest, rest, a, f, g, q);
    SumFromFront(xs, xs, g, q);
    assert g(a) == 0;
  }

  lemma SinglePoint(x: int, f: int -> int, q: int)
    requires Prime(q)
    ensures Cong(Sum([x], [x], f, q), f(x), q)
  {
    var xs := [x];
    assert xs[..0] == [];
    assert Numerator(xs, x) == Numerator([], x) == 1;
    assert Denominator(xs, x) == Denominator([], x) == 1;
    assert 1 % q == 1;
    InverseCancels(1, q);
    CongMul(1 * Inverse(1, q), 1, f(x), q);
    assert Sum(xs, xs, f, q) == Sum(xs, [], f, q) + Lambda(xs, x, q) * f(x);
  }

  /** The distance to a point `e`, as a combination of the constant and the identity. */
  lemma SumOfDistances(xs: seq<int>, e: int, one: int -> int, id: int -> int, to: int -> int, q: int)
    requires q > 0
    requires forall v :: one(v) == 1 && id(v) == v && to(v) == (e - v) * one(v)
    ensures Sum(xs, xs, to, q) == e * Sum(xs, xs, one, q) + -1 * Sum(xs, xs, id, q)
  {
    forall v
      ensures to(v) == e * one(v) + -1 * id(v)
    {
      assert one(v) == 1 && id(v) == v && to(v) == (e - v) * one(v);
    }
    SumLinear(xs, xs, to, e, one, -1, id, q);
  }

  lemma WithoutLast(xs: seq<int>, one: int -> int, id: int -> int, q: int)
    requires Prime(q) && Apart(xs, q) && xs != []
    requires forall v :: one(v) == 1 && id(v) == v
    ensures var b, front := xs[|xs| - 1], xs[..|xs| - 1];
            Cong(b * Sum(xs, xs, one, q) + -1 * Sum(xs, xs, id, q), b * Sum(front, front, one, q), q)
  {
    var b := xs[|xs| - 1];
    var to := (v: int) => (b - v) * one(v);
    SumDropLast(xs, one, to, q);
    SumOfDistances(xs, b, one, id, to, q);
  }

  lemma WithoutFirst(xs: seq<int>, one: int -> int, id: int -> int, q: int)
    requires Prime(q) && Apart(xs, q) && xs != []
    requires forall v :: one(v) == 1 && id(v) == v
    ensures var a, rest := xs[0], xs[1..];
            Cong(a * Sum(xs, xs, one, q) + -1 * Sum(xs, xs, id, q), a * Sum(rest, rest, one, q), q)
  {
    var a := xs[0];
    var to := (v: int) => (a - v) * one(v);
    SumDropFirst(xs, one, to, q);
    SumOfDistances(xs, a, one, id, to, q);
  }

  /** The coefficients add up to one. */
  lemma {:induction false} WeightsSumToOne(xs: seq<int>, one: int -> int, q: int)
    requires Prime(q) && Apart(xs, q) && xs != []
    requires forall v :: one(v) == 1
    ensures Cong(Sum(xs, xs, one, q), 1, q)
  {
    var n := |xs|;
    if n == 1 {
      assert xs == [xs[0]];
      SinglePoint(xs[0], one, q);
    } else {
      var id := (v: int) => v;
      WeightsSumToOne(xs[..n - 1], one, q);
      WeightsSumToOne(xs[1..], one, q);
      WithoutLast(xs, one, id, q);
      WithoutFirst(xs, one, id, q);
      DifferentEnds(xs, q);
      SumOfWeights(Sum(xs, xs, one, q), Sum(xs, xs, id, q), Sum(xs[..n - 1], xs[..n - 1], one, q),
                   Sum(xs[1..], xs[1..], one, q), xs[0], xs[n - 1], q);
    }
  }

  lemma DifferentEnds(xs: seq<int>, q: int)
    requires q > 0 && Apart(xs, q) && |xs| >= 2
    ensures !Cong(xs[|xs| - 1], xs[0], q)
  {
    assert !Cong(xs[0], xs[|xs| - 1], q);
    if Cong(xs[|xs| - 1], xs[0], q) {
      CongSym(xs[|xs| - 1], xs[0], q);
    }
  }

  /** From the sum without the last point and the sum without the first point to the whole sum. */
  lemma SumOfWeights(s: int, t: int, front: int, rest: int, a: int, b: int, q: int)
    requires Prime(q) && !Cong(b, a, q)
    requires Cong(front, 1, q) && Cong(b * s + -1 * t, b * front, q)
    requires Cong(rest, 1, q) && Cong(a * s + -1 * t, a * rest, q)
    ensures Cong(s, 1, q)
  {
    OneEnd(s, t, front, b, q);
    OneEnd(s, t, rest, a, q);
    CongSub(b * s - t, b, a * s - t, a, q);
    Factor(s, t, a, b);
    Cancel(b - a, s, 1, q);
  }

  lemma OneEnd(s: int, t: int, sum: int, e: int, q: int)
    requires q > 0 && Cong(sum, 1, q) && Cong(e * s + -1 * t, e * sum, q)
    ensures Cong(e * s - t, e, q)
  {
    CongMul(sum, 1, e, q);
    CongTrans(e * s - t, e * sum, e * 1, q);
  }

  lemma Factor(s: int, t: int, a: int, b: int)
    ensures (b * s - t) - (a * s - t) == (b - a) * s && (b - a) * 1 == b - a
  {
  }

  /** The quotient of the polynomial `cs` by `x - b`. */
  function Quotient(cs: seq<int>, b: int): (r: seq<int>)
    ensures |r| == if cs == [] then 0 else |cs| - 1
  {
    if |cs| <= 1 then [] else [Eval(cs[1..], b)] + Quotient(cs[1..], b)
  }

  lemma HornerStep(x: int, b: int, e: int, k: int)
    ensures x * (e + (x - b) * k) == b * e + (x - b) * (e + x * k)
  {
    Distribute(x, e, (x - b) * k);
    Distribute(x - b, e, x * k);
    Regroup(x, x - b, k);
  }

  lemma {:induction false} DivideByRoot(cs: seq<int>, b: int, x: int)
    ensures Eval(cs, x) == Eval(cs, b) + (x - b) * Eval(Quotient(cs, b), x)
  {
    if |cs| == 0 {
    } else if |cs| == 1 {
      assert Eval(cs[1..], x) == 0 == Eval(cs[1..], b);
    } else {
      var rest := cs[1..];
      DivideByRoot(rest, b, x);
      var e, k := Eval(rest, b), Eval(Quotient(rest, b), x);
      assert Quotient(cs, b)[1..] == Quotient(rest, b);
      assert Eval(Quotient(cs, b), x) == e + x * k;
      HornerStep(x, b, e, k);
    }
  }

  /**
    Interpolation at zero: the weighted values of a polynomial with at most as many coefficients as there are
    points add up to its constant term.
   */
  lemma {:induction false} Interpolation(xs: seq<int>, cs: seq<int>, f: int -> int, q: int)
    requires Prime(q) && Apart(xs, q) && xs != [] && |cs| <= |xs|
    requires forall v :: f(v) == Eval(cs, v)
    ensures Cong(Sum(xs, xs, f, q), Eval(cs, 0), q)
  {
    if |xs| == 1 {
      assert xs == [xs[0]];
      SinglePoint(xs[0], f, q);
      EvalConstant(cs, xs[0]);
    } else {
      var b, front := xs[|xs| - 1], xs[..|xs| - 1];
      var quot := Quotient(cs, b);
      var g := (v: int) => Eval(quot, v);
      Interpolation(front, quot, g, q);
      SplitOffLast(xs, cs, f, g, q);
      DivideByRoot(cs, b, 0);
    }
  }

  lemma EvalConstant(cs: seq<int>, x: int)
    requires |cs| <= 1
    ensures Eval(cs, x) == Eval(cs, 0)
  {
    if cs != [] {
      assert cs[1..] == [];
      assert x * Eval([], x) == 0 && 0 * Eval([], 0) == 0;
    }
  }

  lemma SplitOffLast(xs: seq<int>, cs: seq<int>, f: int -> int, g: int -> int, q: int)
    requires Prime(q) && Apart(xs, q) && |xs| >= 2
    requires forall v :: f(v) == Eval(cs, v)
    requires forall v :: g(v) == Eval(Quotient(cs, xs[|xs| - 1]), v)
    requires Cong(Sum(xs[..|xs| - 1], xs[..|xs| - 1], g, q), g(0), q)
    ensures var b := xs[|xs| - 1]; Cong(Sum(xs, xs, f, q), Eval(cs, b) + (0 - b) * g(0), q)
  {
    var b := xs[|xs| - 1];
    SplitOffWith(xs, cs, f, g, v => 1, v => (b - v) * g(v), q);
  }

  lemma SplitOffWith(xs: seq<int>, cs: seq<int>, f: int -> int, g: int -> int, one: int -> int, toB: int -> int,
                     q: int)
    requires Prime(q) && Apart(xs, q) && |xs| >= 2
    requires forall v :: f(v) == Eval(cs, v)
    requires forall v :: g(v) == Eval(Quotient(cs, xs[|xs| - 1]), v)
    requires forall v :: one(v) == 1
    requires forall v :: toB(v) == (xs[|xs| - 1] - v) * g(v)
    requires Cong(Sum(xs[..|xs| - 1], xs[..|xs| - 1], g, q), g(0), q)
    ensures var b := xs[|xs| - 1]; Cong(Sum(xs, xs, f, q), Eval(cs, b) + (0 - b) * g(0), q)
  {
    var b := xs[|xs| - 1];
    SumOfQuotient(xs, cs, b, f, g, one, toB, q);
    SplitOff(xs, Eval(cs, b), g, one, toB, q);
  }

  lemma SplitOff(xs: seq<int>, e: int, g: int -> int, one: int -> int, toB: int -> int, q: int)
    requires Prime(q) && Apart(xs, q) && |xs| >= 2
    requires forall v :: one(v) == 1
    requires forall v :: toB(v) == (xs[|xs| - 1] - v) * g(v)
    requires Cong(Sum(xs[..|xs| - 1], xs[..|xs| - 1], g, q), g(0), q)
    ensures Cong(e * Sum(xs, xs, one, q) + -1 * Sum(xs, xs, toB, q), e + (0 - xs[|xs| - 1]) * g(0), q)
  {
    var b, front := xs[|xs| - 1], xs[..|xs| - 1];
    WeightsSumToOne(xs, one, q);
    SumDropLast(xs, g, toB, q);
    CombineInterpolation(Sum(xs, xs, one, q), Sum(xs, xs, toB, q), Sum(front, front, g, q), e, b, g(0), q);
  }

  lemma SumOfQuotient(xs: seq<int>, cs: seq<int>, b: int, f: int -> int, g: int -> int, one: int -> int,
                      toB: int -> int, q: int)
    requires q > 0
    requires forall v :: f(v) == Eval(cs, v) && g(v) == Eval(Quotient(cs, b), v)
    requires forall v :: one(v) == 1 && toB(v) == (b - v) * g(v)
    ensures Sum(xs, xs, f, q) == Eval(cs, b) * Sum(xs, xs, one, q) + -1 * Sum(xs, xs, toB, q)
  {
    forall v
      ensures f(v) == Eval(cs, b) * one(v) + -1 * toB(v)
    {
      DivideByRoot(cs, b, v);
      Negate(v, b, g(v));
      assert one(v) == 1 && toB(v) == (b - v) * g(v);
    }
    SumLinear(xs, xs, f, Eval(cs, b), one, -1, toB, q);
  }

  lemma Negate(v: int, b: int, y: int)
    ensures (v - b) * y == -1 * ((b - v) * y)
  {
  }

  lemma CombineInterpolation(s: int, t: int, u: int, e: int, b: int, k: int, q: int)
    requires q > 0 && Cong(s, 1, q) && Cong(t, b * u, q) && Cong(u, k, q)
    ensures Cong(e * s + -1 * t, e + (0 - b) * k, q)
  {
    CongMul(s, 1, e, q);
    CongMul(u, k, b, q);
    CongTrans(t, b * u, b * k, q);
    CongSub(e * s, e * 1, t, b * k, q);
    assert (0 - b) * k == -(b * k);
  }
}
