/**
  The threshold OPRF of `umbrella-oprf` (base mode of section 3.3.1 of RFC 9497 over a prime-order group). A group
  element is named by its discrete logarithm, so an exponent in `0..q` stands for a point and scalar multiplication is
  multiplication modulo `q`. The group encoding and SHA-512 stay abstract.
 */
module Oprf {
  import opened Bytes
  import opened Field
  import opened Lagrange

  const DEFAULT_TOTAL: int := 5
  const MAX_INPUT_BYTES: int := 512

  const LABEL_DOMAIN: seq<Byte> := Ascii("umbrellax-oprf-output-v1")

  /** The suffix "Finalize" that RFC 9497 hashes after the unblinded element. */
  const FINALIZE: seq<Byte> := Ascii("Finalize")

  type WitnessIndex = i: int | 1 <= i <= 5 witness 1

  datatype ThresholdConfig = ThresholdConfig(threshold: Byte, total: Byte)

  datatype OprfError =
    | InvalidScalarEncoding
    | InvalidRistrettoEncoding
    | InsufficientValidEvaluations(valid: nat, required: nat)
    | UnknownWitnessIndex(index: int)
    | DuplicateWitnessIndex(index: int)
    | VoprfInternal

  /** The primitives the protocol is built on. */
  datatype Suite = Suite(
    q: int,
    hashToGroup: seq<Byte> -> int,
    compress: int -> Bytes32,
    decompress: Bytes32 -> Option<int>,
    sha512: seq<Byte> -> Bytes64,
    sha256: seq<Byte> -> Bytes32)
  {
    /** A prime-order group with more than five elements whose encoding can be read back. */
    ghost predicate Valid() {
      && Prime(q)
      && q > 5
      && (forall s :: 0 <= hashToGroup(s) < q)
      && (forall p :: 0 <= p < q ==> decompress(compress(p)) == Some(p))
      && (forall b :: decompress(b).Some? ==> 0 <= decompress(b).value < q)
    }

    /** Reading a group element off the wire; the identity is refused. */
    function DecodeElement(b: Bytes32): Option<int> {
      var p := decompress(b);
      if p.Some? && p.value == 0 then None else p
    }

    /** SHA-512 cut to the 32 bytes of a label. */
    function LabelHash(preimage: seq<Byte>): Bytes32 {
      sha512(preimage)[..32]
    }
  }

  /** The requirements on a suite are consistent: exponents modulo 7, written as one byte and padded, meet them. */
  lemma ValidSuiteExists() returns (suite: Suite)
    ensures suite.Valid()
  {
    suite := Suite(7, s => 1, p => if 0 <= p < 7 then [p] + seq(31, _ => 0) else seq(32, _ => 0),
                   (b: Bytes32) => if b[0] < 7 then Some(b[0]) else None, s => seq(64, _ => 0), s => seq(32, _ => 0));
    assert forall d :: 2 <= d < 7 ==> !Divides(d, 7);
  }

  /** `OprfInput::new`. */
  predicate AcceptedInput(input: seq<Byte>) {
    1 <= |input| <= MAX_INPUT_BYTES
  }

  /** What RFC 9497 hashes into the output for an unblinded element `n`. */
  function OutputPreimage(suite: Suite, input: seq<Byte>, n: int): seq<Byte> {
    BigEndian(|input|, 2) + input + BigEndian(32, 2) + suite.compress(n) + FINALIZE
  }

  function RawOutput(suite: Suite, input: seq<Byte>, n: int): Bytes64 {
    suite.sha512(OutputPreimage(suite, input, n))
  }

  /** What is hashed into the label of `input` when its unblinded element is `n`. */
  function LabelPreimage(suite: Suite, input: seq<Byte>, n: int): seq<Byte> {
    LABEL_DOMAIN + BigEndian(|input|, 2) + input + RawOutput(suite, input, n)
  }

  /** The label of `input` under the master key `k`: the value the protocol is meant to compute. */
  function MasterPreimage(suite: Suite, k: int, input: seq<Byte>): seq<Byte>
    requires suite.q > 0
  {
    LabelPreimage(suite, input, (k * suite.hashToGroup(input)) % suite.q)
  }

  function MasterLabel(suite: Suite, k: int, input: seq<Byte>): Bytes32
    requires suite.q > 0
  {
    suite.LabelHash(MasterPreimage(suite, k, input))
  }

  /** Two strings that SHA-512 maps to one digest. */
  predicate Sha512Collision(suite: Suite, x: seq<Byte>, y: seq<Byte>) {
    x != y && suite.sha512(x) == suite.sha512(y)
  }

  /** Two strings whose labels, the first halves of their digests, are one. */
  predicate LabelHashCollision(suite: Suite, x: seq<Byte>, y: seq<Byte>) {
    x != y && suite.sha512(x)[..32] == suite.sha512(y)[..32]
  }

  /** A preimage shows its input, so labels of different inputs agree only through a hash collision. */
  lemma PreimageShowsInput(suite: Suite, a: seq<Byte>, n: int, b: seq<Byte>, m: int)
    requires AcceptedInput(a) && AcceptedInput(b)
    requires LabelPreimage(suite, a, n) == LabelPreimage(suite, b, m)
    ensures a == b && RawOutput(suite, a, n) == RawOutput(suite, b, m)
  {
    SplitFramed(LABEL_DOMAIN, BigEndian(|a|, 2), a, RawOutput(suite, a, n), BigEndian(|b|, 2), b,
                RawOutput(suite, b, m));
    Pow256Widths();
    BigEndianInjective(|a|, |b|, 2);
    SplitConcat(a, RawOutput(suite, a, n), b, RawOutput(suite, b, m));
  }

  /** And, unless two strings collide, it shows the unblinded element. */
  lemma LabelPreimageInjective(suite: Suite, a: seq<Byte>, n: int, b: seq<Byte>, m: int)
    requires suite.Valid() && AcceptedInput(a) && AcceptedInput(b) && 0 <= n < suite.q && 0 <= m < suite.q
    requires LabelPreimage(suite, a, n) == LabelPreimage(suite, b, m)
    ensures a == b
    ensures n == m || Sha512Collision(suite, OutputPreimage(suite, a, n), OutputPreimage(suite, b, m))
  {
    PreimageShowsInput(suite, a, n, b, m);
    if OutputPreimage(suite, a, n) == OutputPreimage(suite, b, m) {
      ElementShown(BigEndian(|a|, 2) + a + BigEndian(32, 2), suite.compress(n), suite.compress(m));
    }
  }

  lemma ElementShown(head: seq<Byte>, x: Bytes32, y: Bytes32)
    requires head + x + FINALIZE == head + y + FINALIZE
    ensures x == y
  {
    SplitConcat(head + x, FINALIZE, head + y, FINALIZE);
    SplitConcat(head, x, head, y);
  }

  /** The label of `input` with the unblinded element `n`, written out over the primitives. */
  lemma LabelSpelledOut(suite: Suite, input: seq<Byte>, n: int)
    ensures var framed := BigEndian(|input|, 2) + input;
            var output := suite.sha512(framed + BigEndian(32, 2) + suite.compress(n) + FINALIZE);
            suite.LabelHash(LabelPreimage(suite, input, n)) ==
            suite.sha512(LABEL_DOMAIN + BigEndian(|input|, 2) + input + output)[..32]
  {
  }

  lemma SplitFramed(d: seq<Byte>, l: seq<Byte>, a: seq<Byte>, x: seq<Byte>, m: seq<Byte>, b: seq<Byte>, y: seq<Byte>)
    requires |l| == |m| && d + l + a + x == d + m + b + y
    ensures l == m && a + x == b + y
  {
    assert d + l + a + x == (d + l) + (a + x) && d + m + b + y == (d + m) + (b + y);
    SplitConcat(d + l, a + x, d + m, b + y);
    SplitConcat(d, l, d, m);
  }

  /** `blind` with the random scalar `r`: the blinded element, or an error for an input that hashes to the identity. */
  function Blind(suite: Suite, input: seq<Byte>, r: int): Result<Bytes32, OprfError>
    requires suite.q > 0
  {
    if suite.hashToGroup(input) == 0 then Err(VoprfInternal)
    else Ok(suite.compress((r * suite.hashToGroup(input)) % suite.q))
  }

  /** `evaluate_for_testing`: one server applies its key to a blinded element. */
  function Evaluate(suite: Suite, blinded: Bytes32, key: int): Result<Bytes32, OprfError>
    requires suite.q > 0
  {
    var p := suite.DecodeElement(blinded);
    if p.None? then Err(InvalidRistrettoEncoding)
    else if key % suite.q == 0 then Err(InvalidScalarEncoding)
    else Ok(suite.compress((key * p.value) % suite.q))
  }

  /** `finalize`: divide the blinding scalar `r` out of the evaluation and hash. */
  function Finalize(suite: Suite, r: int, input: seq<Byte>, evaluation: Bytes32): Result<Bytes32, OprfError>
    requires suite.q > 0
  {
    var p := suite.DecodeElement(evaluation);
    if p.None? then Err(InvalidRistrettoEncoding)
    else
      var n := (Inverse(r, suite.q) * p.value) % suite.q;
      Ok(suite.LabelHash(LabelPreimage(suite, input, n)))
  }

  /** When a server answers, and what it refuses: undecodable or identity elements first, then the zero key. */
  lemma EvaluateOutcome(suite: Suite, blinded: Bytes32, key: int)
    requires suite.q > 0
    ensures var p, e := suite.decompress(blinded), Evaluate(suite, blinded, key);
            && (e == Err(InvalidRistrettoEncoding) <==> p.None? || p.value == 0)
            && (e == Err(InvalidScalarEncoding) <==> p.Some? && p.value != 0 && key % suite.q == 0)
            && (e.Ok? ==> e.value == suite.compress((key * p.value) % suite.q))
  {
  }

  /** What the client cannot blind or finalize: an input hashing to the identity, an element that does not decode. */
  lemma ClientOutcome(suite: Suite, input: seq<Byte>, r: int, evaluation: Bytes32)
    requires suite.q > 0
    ensures var p := suite.decompress(evaluation);
            && (Blind(suite, input, r) == Err(VoprfInternal) <==> suite.hashToGroup(input) == 0)
            && (Blind(suite, input, r).Err? <==> suite.hashToGroup(input) == 0)
            && (Finalize(suite, r, input, evaluation) == Err(InvalidRistrettoEncoding) <==> p.None? || p.value == 0)
            && (Finalize(suite, r, input, evaluation).Err? <==> p.None? || p.value == 0)
  {
  }

  /** The abscissas of a list of points. */
  function Indices(points: seq<(int, int)>): (r: seq<int>)
    ensures |r| == |points|
    ensures forall i :: 0 <= i < |r| ==> r[i] == points[i].0
  {
    seq(|points|, i requires 0 <= i < |points| => points[i].0)
  }

  /** The Lagrange combination of the ordinates of `part` with the coefficients of the points `xs`. */
  function Combination(xs: seq<int>, part: seq<(int, int)>, q: int): int
    requires q > 0
  {
    if part == [] then 0
    else
      var last := part[|part| - 1];
      Combination(xs, part[..|part| - 1], q) + Lambda(xs, last.0, q) * last.1
  }

  lemma ModMul(a: int, b: int, c: int, q: int)
    requires q > 0 && a % q == b % q
    ensures (a * c) % q == (b * c) % q
  {
    CongSameMod(a, b, q);
    CongMul(a, b, c, q);
    CongSameMod(a * c, b * c, q);
  }

  lemma ModMod(a: int, q: int)
    requires q > 0
    ensures (a % q) % q == a % q
  {
    CongMod(a, q);
    CongSameMod(a % q, a, q);
  }

  lemma ModProduct(a: int, b: int, c: int, d: int, q: int)
    requires q > 0 && a % q == b % q && c % q == d % q
    ensures (a * c) % q == (b * d) % q
  {
    ModMul(a, b, c, q);
    ModMul(c, d, b, q);
    assert c * b == b * c && d * b == b * d;
  }

  lemma ModSum(a: int, b: int, c: int, q: int)
    requires q > 0 && a % q == b % q
    ensures (a + c) % q == (b + c) % q
  {
    CongSameMod(a, b, q);
    CongMod(c, q);
    CongAdd(a, b, c, c % q, q);
    CongAdd(b, b, c, c % q, q);
    CongSameMod(a + c, b + c % q, q);
    CongSameMod(b + c, b + c % q, q);
  }

  /** `lagrange_at_zero`. */
  method LagrangeAtZero(i: int, points: seq<(int, int)>, q: int) returns (r: int)
    requires q > 0
    ensures r == Lambda(Indices(points), i, q) % q
  {
    var xs := Indices(points);
    var num, den := 1 % q, 1 % q;
    for k := 0 to |points|
      invariant num == Numerator(xs[..k], i) % q && den == Denominator(xs[..k], i) % q
    {
      var j := points[k].0;
      assert xs[..k + 1][..k] == xs[..k] && xs[..k + 1][k] == j;
      ModMod(Numerator(xs[..k], i), q);
      ModMod(Denominator(xs[..k], i), q);
      if j != i {
        ModMul(num, Numerator(xs[..k], i), j, q);
        ModMul(den, Denominator(xs[..k], i), j - i, q);
        num := (num * j) % q;
        den := (den * (j - i)) % q;
      }
    }
    assert xs[..|points|] == xs;
    ModMod(Numerator(xs, i), q);
    ModMod(Denominator(xs, i), q);
    ModMul(num, Numerator(xs, i), Inverse(den, q), q);
    r := (num * Inverse(den, q)) % q;
  }

  predicate ValidConfig(config: ThresholdConfig) {
    1 <= config.threshold <= config.total <= 5
  }

  /** Every index is one of `1..=total` and no index comes twice. */
  ghost predicate DistinctIndices(shares: seq<(WitnessIndex, Bytes32)>, total: int) {
    && (forall i :: 0 <= i < |shares| ==> shares[i].0 <= total)
    && (forall i, j :: 0 <= i < j < |shares| ==> shares[i].0 != shares[j].0)
  }

  /** The points named by the first `t` shares. */
  function SharePoints(suite: Suite, shares: seq<(WitnessIndex, Bytes32)>, t: nat): (r: seq<(int, int)>)
    requires t <= |shares|
    requires forall i :: 0 <= i < t ==> suite.decompress(shares[i].1).Some?
    ensures |r| == t
    ensures forall i :: 0 <= i < t ==> r[i] == (shares[i].0, suite.decompress(shares[i].1).value)
  {
    seq(t, i requires 0 <= i < t => (shares[i].0, suite.decompress(shares[i].1).value))
  }

  /** When `threshold_combine` succeeds. */
  ghost predicate Combinable(suite: Suite, shares: seq<(WitnessIndex, Bytes32)>, config: ThresholdConfig) {
    && ValidConfig(config)
    && DistinctIndices(shares, config.total)
    && config.threshold <= |shares|
    && forall i :: 0 <= i < config.threshold ==> suite.decompress(shares[i].1).Some?
  }

  /** What it then computes. */
  function CombinedElement(suite: Suite, shares: seq<(WitnessIndex, Bytes32)>, config: ThresholdConfig): Bytes32
    requires suite.q > 0 && config.threshold <= |shares|
    requires forall i :: 0 <= i < config.threshold ==> suite.decompress(shares[i].1).Some?
  {
    var points := SharePoints(suite, shares, config.threshold);
    suite.compress(Combination(Indices(points), points, suite.q) % suite.q)
  }

  /** The first faulty index is at `k`, and `e` says what is wrong with it. */
  ghost predicate FaultAt(shares: seq<(WitnessIndex, Bytes32)>, total: int, k: int, e: OprfError) {
    && 0 <= k < |shares|
    && DistinctIndices(shares[..k], total)
    && if shares[k].0 > total then e == UnknownWitnessIndex(shares[k].0)
       else e == DuplicateWitnessIndex(shares[k].0) && exists j :: 0 <= j < k && shares[j].0 == shares[k].0
  }

  /** The index check of `threshold_combine`. */
  method CheckIndices(shares: seq<(WitnessIndex, Bytes32)>, total: Byte) returns (e: Option<OprfError>)
    requires total <= DEFAULT_TOTAL
    ensures e.None? <==> DistinctIndices(shares, total)
    ensures e.Some? ==> exists k :: FaultAt(shares, total, k, e.value)
  {
    var seen := new bool[6](_ => false);
    for k := 0 to |shares|
      invariant forall i :: 0 <= i < k ==> shares[i].0 <= total
      invariant forall i, j :: 0 <= i < j < k ==> shares[i].0 != shares[j].0
      invariant forall i :: 1 <= i <= 5 ==> (seen[i] <==> exists j :: 0 <= j < k && shares[j].0 == i)
    {
      var i := shares[k].0;
      if i == 0 || i > total {
        assert FaultAt(shares, total, k, UnknownWitnessIndex(i));
        return Some(UnknownWitnessIndex(i));
      }
      if seen[i] {
        assert FaultAt(shares, total, k, DuplicateWitnessIndex(i));
        return Some(DuplicateWitnessIndex(i));
      }
      seen[i] := true;
    }
    return None;
  }

  /** The accumulation loop of `threshold_combine`. */
  method CombinePoints(points: seq<(int, int)>, q: int) returns (acc: int)
    requires q > 0
    ensures acc == Combination(Indices(points), points, q) % q
  {
    acc := 0;
    for k := 0 to |points|
      invariant acc == Combination(Indices(points), points[..k], q) % q
    {
      var lambda := LagrangeAtZero(points[k].0, points, q);
      assert points[..k + 1][..k] == points[..k] && points[..k + 1][k] == points[k];
      AccumulateStep(acc, Combination(Indices(points), points[..k], q), lambda,
                     Lambda(Indices(points), points[k].0, q), points[k].1, q);
      acc := (acc + points[k].1 * lambda) % q;
    }
    assert points[..|points|] == points;
  }

  /** `threshold_combine`: check the indices, then interpolate the first `threshold` shares at zero. */
  method ThresholdCombine(suite: Suite, shares: seq<(WitnessIndex, Bytes32)>, config: ThresholdConfig)
    returns (r: Result<Bytes32, OprfError>)
    requires suite.q > 0
    ensures r.Ok? <==> Combinable(suite, shares, config)
    ensures r.Ok? ==> r.value == CombinedElement(suite, shares, config)
    ensures !ValidConfig(config) ==> r == Err(InsufficientValidEvaluations(0, config.threshold))
    ensures ValidConfig(config) && !DistinctIndices(shares, config.total) ==>
              r.Err? && exists k :: FaultAt(shares, config.total, k, r.error)
    ensures ValidConfig(config) && DistinctIndices(shares, config.total) && r.Err? ==>
              r.error == if |shares| < config.threshold then InsufficientValidEvaluations(|shares|, config.threshold)
                         else InvalidRistrettoEncoding
  {
    if config.threshold == 0 || config.total < config.threshold || config.total > DEFAULT_TOTAL {
      return Err(InsufficientValidEvaluations(0, config.threshold));
    }
    var fault := CheckIndices(shares, config.total);
    if fault.Some? {
      return Err(fault.value);
    }
    if |shares| < config.threshold {
      return Err(InsufficientValidEvaluations(|shares|, config.threshold));
    }
    var points: seq<(int, int)> := [];
    for k := 0 to config.threshold
      invariant forall i :: 0 <= i < k ==> suite.decompress(shares[i].1).Some?
      invariant points == SharePoints(suite, shares, k)
    {
      var p := suite.decompress(shares[k].1);
      if p.None? {
        return Err(InvalidRistrettoEncoding);
      }
      points := points + [(shares[k].0, p.value)];
    }
    var acc := CombinePoints(points, suite.q);
    r := Ok(suite.compress(acc));
  }

  lemma AccumulateStep(acc: int, sum: int, lambda: int, exact: int, y: int, q: int)
    requires q > 0 && acc == sum % q && lambda == exact % q
    ensures (acc + y * lambda) % q == (sum + exact * y) % q
  {
    ModMod(sum, q);
    ModMod(exact, q);
    ModMul(lambda, exact, y, q);
    assert y * lambda == lambda * y;
    ModSum(acc, sum, y * lambda, q);
    ModSum(y * lambda, exact * y, sum, q);
  }

  /** The powers form of a polynomial's value, as `shamir_split_for_testing` accumulates it. */
  function PowerSum(cs: seq<int>, x: int, pow: int): int {
    if cs == [] then 0 else cs[0] * pow + PowerSum(cs[1..], x, pow * x)
  }

  lemma {:induction false} PowerSumIsEval(cs: seq<int>, x: int, pow: int)
    ensures PowerSum(cs, x, pow) == pow * Eval(cs, x)
  {
    if cs != [] {
      PowerSumIsEval(cs[1..], x, pow * x);
      Regroup(pow, x, Eval(cs[1..], x));
      Distribute(pow, cs[0], x * Eval(cs[1..], x));
    }
  }

  lemma PowerStep(fx: int, rest: int, c: int, pow: int, x: int, q: int)
    requires q > 0
    ensures ((fx + c * pow) % q + rest) % q == (fx + (c * pow + rest)) % q
  {
    ModMod(fx + c * pow, q);
    ModSum((fx + c * pow) % q, fx + c * pow, rest, q);
  }

  lemma {:induction false} PowerSumMod(cs: seq<int>, x: int, a: int, b: int, q: int)
    requires q > 0 && a % q == b % q
    ensures PowerSum(cs, x, a) % q == PowerSum(cs, x, b) % q
  {
    if cs != [] {
      ModMul(a, b, x, q);
      PowerSumMod(cs[1..], x, a * x, b * x, q);
      ModMul(a, b, cs[0], q);
      assert a * cs[0] == cs[0] * a && b * cs[0] == cs[0] * b;
      ModSum(cs[0] * a, cs[0] * b, PowerSum(cs[1..], x, a * x), q);
      ModSum(PowerSum(cs[1..], x, a * x), PowerSum(cs[1..], x, b * x), cs[0] * b, q);
    }
  }

  /** One share of `shamir_split_for_testing`: the polynomial `coeffs` at `x`. */
  method ShamirShare(coeffs: seq<int>, x: int, q: int) returns (fx: int)
    requires q > 0
    ensures fx == Eval(coeffs, x) % q
  {
    fx := 0;
    var pow := 1 % q;
    ModMod(1, q);
    PowerSumMod(coeffs, x, pow, 1, q);
    PowerSumIsEval(coeffs, x, 1);
    for k := 0 to |coeffs|
      invariant 0 <= fx < q
      invariant (fx + PowerSum(coeffs[k..], x, pow)) % q == Eval(coeffs, x) % q
    {
      ghost var tail := PowerSum(coeffs[k + 1..], x, pow * x);
      assert coeffs[k..][0] == coeffs[k] && coeffs[k..][1..] == coeffs[k + 1..];
      PowerStep(fx, tail, coeffs[k], pow, x, q);
      ModMod(pow * x, q);
      PowerSumMod(coeffs[k + 1..], x, (pow * x) % q, pow * x, q);
      fx := (fx + coeffs[k] * pow) % q;
      ModSum(PowerSum(coeffs[k + 1..], x, (pow * x) % q), tail, fx, q);
      pow := (pow * x) % q;
    }
    assert coeffs[|coeffs|..] == [];
    assert fx % q == fx by {
      SmallModulus(fx, q);
    }
  }

  /** The witness indices 1..=5 are nonzero and different in every field of more than five elements. */
  lemma IndicesApart(xs: seq<int>, q: int)
    requires q > 5
    requires forall i :: 0 <= i < |xs| ==> 1 <= xs[i] <= 5
    requires forall i, j :: 0 <= i < j < |xs| ==> xs[i] != xs[j]
    ensures Apart(xs, q)
  {
    forall i | 0 <= i < |xs|
      ensures xs[i] % q != 0
    {
      SmallModulus(xs[i], q);
    }
    forall i, j | 0 <= i < j < |xs|
      ensures !Cong(xs[i], xs[j], q)
    {
      CongSameMod(xs[i], xs[j], q);
      SmallModulus(xs[i], q);
      SmallModulus(xs[j], q);
    }
  }

  lemma CombinationIsSum(xs: seq<int>, part: seq<(int, int)>, f: int -> int, q: int)
    requires q > 0
    requires forall i :: 0 <= i < |part| ==> Cong(part[i].1, f(part[i].0), q)
    ensures Cong(Combination(xs, part, q), Sum(xs, Indices(part), f, q), q)
  {
    forall i | 0 <= i < |part|
      ensures Cong(Lambda(xs, part[i].0, q) * part[i].1, Lambda(xs, part[i].0, q) * f(part[i].0), q)
    {
      CongMul(part[i].1, f(part[i].0), Lambda(xs, part[i].0, q), q);
    }
    CombinationTermwise(xs, part, f, q);
  }

  lemma {:induction false} CombinationTermwise(xs: seq<int>, part: seq<(int, int)>, f: int -> int, q: int)
    requires q > 0
    requires forall i :: 0 <= i < |part| ==>
               Cong(Lambda(xs, part[i].0, q) * part[i].1, Lambda(xs, part[i].0, q) * f(part[i].0), q)
    ensures Cong(Combination(xs, part, q), Sum(xs, Indices(part), f, q), q)
  {
    if part != [] {
      var n := |part|;
      var last := part[n - 1];
      CombinationTermwise(xs, part[..n - 1], f, q);
      assert Indices(part)[..n - 1] == Indices(part[..n - 1]);
      assert Indices(part)[n - 1] == last.0;
      CongAdd(Combination(xs, part[..n - 1], q), Sum(xs, Indices(part[..n - 1]), f, q), Lambda(xs, last.0, q) * last.1,
              Lambda(xs, last.0, q) * f(last.0), q);
    }
  }

  /**
    Points whose ordinates are the values of a polynomial multiplied by one element `b` combine to the constant term
    multiplied by `b`, whichever points they are.
   */
  lemma CombineShares(points: seq<(int, int)>, cs: seq<int>, b: int, q: int)
    requires Prime(q) && q > 5 && 1 <= |points| && |cs| <= |points|
    requires forall i :: 0 <= i < |points| ==> 1 <= points[i].0 <= 5
    requires forall i, j :: 0 <= i < j < |points| ==> points[i].0 != points[j].0
    requires forall i :: 0 <= i < |points| ==> Cong(points[i].1, Eval(cs, points[i].0) * b, q)
    ensures Combination(Indices(points), points, q) % q == (Eval(cs, 0) * b) % q
  {
    var xs := Indices(points);
    IndicesApart(xs, q);
    var f, g, zero := (v: int) => Eval(cs, v), (v: int) => Eval(cs, v) * b, (v: int) => 0;
    CombinationIsSum(xs, points, g, q);
    forall v | v in xs
      ensures g(v) == b * f(v) + 0 * zero(v)
    {
      assert Eval(cs, v) * b == b * Eval(cs, v);
    }
    SumLinear(xs, xs, g, b, f, 0, zero, q);
    Interpolation(xs, cs, f, q);
    CongMul(Sum(xs, xs, f, q), Eval(cs, 0), b, q);
    CongTrans(Combination(xs, points, q), Sum(xs, xs, g, q), Eval(cs, 0) * b, q);
    CongSameMod(Combination(xs, points, q), Eval(cs, 0) * b, q);
  }

  /** Blinding with `r` and later dividing by `r` leaves the master evaluation. */
  lemma UnblindExponent(k: int, r: int, h: int, q: int)
    requires Prime(q) && r % q != 0
    ensures (Inverse(r, q) * ((k * ((r * h) % q)) % q)) % q == (k * h) % q
  {
    var i := Inverse(r, q);
    ModMod(r * h, q);
    ModProduct((r * h) % q, r * h, k, k, q);
    assert k * ((r * h) % q) == ((r * h) % q) * k && k * (r * h) == (r * h) * k;
    ModMod(k * ((r * h) % q), q);
    ModProduct((k * ((r * h) % q)) % q, k * (r * h), i, i, q);
    assert ((k * ((r * h) % q)) % q) * i == i * ((k * ((r * h) % q)) % q);
    assert (k * (r * h)) * i == (r * i) * (k * h);
    InverseCancels(r, q);
    CongSameMod(r * i, 1, q);
    ModProduct(r * i, 1, k * h, k * h, q);
  }

  /** A server's evaluation of a proper element is never the identity. */
  lemma EvaluationDecodes(suite: Suite, blinded: Bytes32, key: int, evaluation: Bytes32)
    requires suite.Valid() && Evaluate(suite, blinded, key) == Ok(evaluation)
    ensures suite.DecodeElement(evaluation).Some?
  {
    var p := suite.DecodeElement(blinded).value;
    SmallModulus(p, suite.q);
    ProductNonzero(key, p, suite.q);
  }

  /** The servers of the first `n` shares all evaluated `blinded`, each with its share of the polynomial `cs`. */
  ghost predicate HonestShares(suite: Suite, cs: seq<int>, blinded: Bytes32, shares: seq<(WitnessIndex, Bytes32)>,
                               n: int)
    requires suite.q > 0 && n <= |shares|
  {
    forall i :: 0 <= i < n ==> Evaluate(suite, blinded, Eval(cs, shares[i].0)) == Ok(shares[i].1)
  }

  /** Honest shares of the element `b` name the points of the polynomial multiplied by `b`. */
  lemma HonestPoints(suite: Suite, cs: seq<int>, b: int, blinded: Bytes32, shares: seq<(WitnessIndex, Bytes32)>, n: int)
    requires suite.Valid() && 0 < b < suite.q && blinded == suite.compress(b)
    requires n <= |shares| && HonestShares(suite, cs, blinded, shares, n)
    ensures forall i :: 0 <= i < n ==>
              suite.decompress(shares[i].1) == Some((Eval(cs, shares[i].0) * b) % suite.q)
  {
    assert suite.DecodeElement(blinded) == Some(b);
    forall i | 0 <= i < n
      ensures suite.decompress(shares[i].1) == Some((Eval(cs, shares[i].0) * b) % suite.q)
    {
      assert Evaluate(suite, blinded, Eval(cs, shares[i].0)) == Ok(shares[i].1);
    }
  }

  /**
    Only the first `threshold` shares are combined: when those are honest, the combination is the blinded element under
    the master key, whichever servers they came from and whatever the other shares are.
   */
  lemma CombineHonest(suite: Suite, cs: seq<int>, b: int, blinded: Bytes32, shares: seq<(WitnessIndex, Bytes32)>,
                      config: ThresholdConfig)
    requires suite.Valid() && ValidConfig(config)
    requires |cs| <= config.threshold <= |shares| && DistinctIndices(shares, config.total)
    requires 0 < b < suite.q && blinded == suite.compress(b)
    requires HonestShares(suite, cs, blinded, shares, config.threshold)
    ensures Combinable(suite, shares, config)
    ensures CombinedElement(suite, shares, config) == suite.compress((Eval(cs, 0) * b) % suite.q)
  {
    HonestPoints(suite, cs, b, blinded, shares, config.threshold);
    var points := SharePoints(suite, shares, config.threshold);
    forall i | 0 <= i < |points|
      ensures Cong(points[i].1, Eval(cs, points[i].0) * b, suite.q)
    {
      CongMod(Eval(cs, points[i].0) * b, suite.q);
    }
    CombineShares(points, cs, b, suite.q);
  }

  /** Unblinding the master evaluation of a blinded input gives its master label; the zero key is refused. */
  lemma FinalizeMaster(suite: Suite, k: int, input: seq<Byte>, r: int)
    requires suite.Valid() && r % suite.q != 0 && suite.hashToGroup(input) != 0
    ensures var b := (r * suite.hashToGroup(input)) % suite.q;
            && 0 < b < suite.q
            && Finalize(suite, r, input, suite.compress((k * b) % suite.q)) ==
               if k % suite.q == 0 then Err(InvalidRistrettoEncoding) else Ok(MasterLabel(suite, k, input))
  {
    var q, h := suite.q, suite.hashToGroup(input);
    var b := (r * h) % q;
    SmallModulus(h, q);
    ProductNonzero(r, h, q);
    SmallModulus(b, q);
    if k % q == 0 {
      ModMod(0, q);
      ModMul(k, 0, b, q);
    } else {
      ProductNonzero(k, b, q);
      UnblindExponent(k, r, h, q);
    }
  }

  /** The unblinded element of an input under the master key `k`. */
  function MasterElement(suite: Suite, k: int, input: seq<Byte>): int
    requires suite.q > 0
  {
    (k * suite.hashToGroup(input)) % suite.q
  }

  lemma ElementsDiffer(k: int, l: int, h: int, q: int)
    requires Prime(q) && 0 < h < q && k % q != l % q
    ensures (k * h) % q != (l * h) % q
  {
    if (k * h) % q == (l * h) % q {
      CongMod(k * h, q);
      CongMod(l * h, q);
      CongTrans(k * h, (k * h) % q, l * h, q);
      assert k * h == h * k && l * h == h * l;
      SmallModulus(h, q);
      Cancel(h, k, l, q);
      CongSameMod(k, l, q);
    }
  }

  /** Labels of one input under keys that differ are different, or two strings collide. */
  lemma KeysSeparateLabels(suite: Suite, k: int, l: int, input: seq<Byte>)
    requires suite.Valid() && AcceptedInput(input) && suite.hashToGroup(input) != 0 && k % suite.q != l % suite.q
    ensures var n, m := MasterElement(suite, k, input), MasterElement(suite, l, input);
            || MasterLabel(suite, k, input) != MasterLabel(suite, l, input)
            || LabelHashCollision(suite, LabelPreimage(suite, input, n), LabelPreimage(suite, input, m))
            || Sha512Collision(suite, OutputPreimage(suite, input, n), OutputPreimage(suite, input, m))
  {
    var n, m := MasterElement(suite, k, input), MasterElement(suite, l, input);
    ElementsDiffer(k, l, suite.hashToGroup(input), suite.q);
    if LabelPreimage(suite, input, n) == LabelPreimage(suite, input, m) {
      LabelPreimageInjective(suite, input, n, input, m);
    }
  }

  /** So it is for what `finalize` returns to clients of two such keys, whatever their blinding scalars. */
  lemma FinalizeSeparatesKeys(suite: Suite, k: int, l: int, input: seq<Byte>, r: int, s: int)
    requires suite.Valid() && AcceptedInput(input) && suite.hashToGroup(input) != 0 && k % suite.q != l % suite.q
    requires r % suite.q != 0 && s % suite.q != 0
    ensures var b, c := (r * suite.hashToGroup(input)) % suite.q, (s * suite.hashToGroup(input)) % suite.q;
            var one := Finalize(suite, r, input, suite.compress((k * b) % suite.q));
            var two := Finalize(suite, s, input, suite.compress((l * c) % suite.q));
            var n, m := MasterElement(suite, k, input), MasterElement(suite, l, input);
            || one != two
            || LabelHashCollision(suite, LabelPreimage(suite, input, n), LabelPreimage(suite, input, m))
            || Sha512Collision(suite, OutputPreimage(suite, input, n), OutputPreimage(suite, input, m))
  {
    FinalizeMaster(suite, k, input, r);
    FinalizeMaster(suite, l, input, s);
    KeysSeparateLabels(suite, k, l, input);
  }

  /**
    The threshold OPRF computes the master label: when the first `threshold` of the shares that `threshold_combine`
    accepts are honest, they lead, after unblinding, to the label under the constant term of the sharing polynomial. The
    answer mentions neither the servers that took part nor the blinding scalar. It fails only for the zero key, whose
    evaluations are refused.
   */
  lemma ThresholdOprfCorrect(suite: Suite, cs: seq<int>, input: seq<Byte>, r: int, blinded: Bytes32,
                             shares: seq<(WitnessIndex, Bytes32)>, config: ThresholdConfig)
    requires suite.Valid() && ValidConfig(config)
    requires |cs| <= config.threshold <= |shares| && DistinctIndices(shares, config.total)
    requires r % suite.q != 0 && Blind(suite, input, r) == Ok(blinded)
    requires HonestShares(suite, cs, blinded, shares, config.threshold)
    ensures Combinable(suite, shares, config)
    ensures Finalize(suite, r, input, CombinedElement(suite, shares, config)) ==
            if Eval(cs, 0) % suite.q == 0 then Err(InvalidRistrettoEncoding)
            else Ok(MasterLabel(suite, Eval(cs, 0), input))
  {
    FinalizeMaster(suite, Eval(cs, 0), input, r);
    CombineHonest(suite, cs, (r * suite.hashToGroup(input)) % suite.q, blinded, shares, config);
  }
}
