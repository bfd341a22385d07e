/** The key sharing of packages/shared/src/crypto/mpc-custody.ts: Shamir shares of a secret, their
    Lagrange reconstruction at zero, and the rotation of shares. The arithmetic has the modulus as a
    parameter; keys use PRIME. The random numbers drawn are a parameter as well, and arbitrary. */
module KeyShares {
  import opened Digits
  import opened Interpolation
  import opened Modular
  import opened Wrappers

  /** The order of the curve secp256k1. */
  const PRIME := 0xFFFF_FFFF_FFFF_FFFF_FFFF_FFFF_FFFF_FFFE_BAAE_DCE6_AF48_A03B_BFD2_5E8C_D036_4141

  // ---------- shares of a secret ----------

  datatype Share = Share(x: int, y: int)

  function XsOf(shares: seq<Share>): (xs: seq<int>)
    ensures |xs| == |shares| && forall i :: 0 <= i < |xs| ==> xs[i] == shares[i].x
  {
    seq(|shares|, i requires 0 <= i < |shares| => shares[i].x)
  }

  function YsOf(shares: seq<Share>): (ys: seq<int>)
    ensures |ys| == |shares| && forall i :: 0 <= i < |ys| ==> ys[i] == shares[i].y
  {
    seq(|shares|, i requires 0 <= i < |shares| => shares[i].y)
  }

  lemma NotDividedBetween(p: Modulus, d: int)
    requires d != 0 && 0 - p < d < p
    ensures !Divides(p, d)
  {
  }

  /** Shares of different holders, at points from 1 to below the modulus. */
  ghost predicate DistinctPoints(shares: seq<Share>, p: Modulus) {
    && (forall i :: 0 <= i < |shares| ==> 1 <= shares[i].x < p)
    && (forall i, j :: 0 <= i < j < |shares| ==> shares[i].x != shares[j].x)
  }

  /** The shares are values of the polynomial, modulo p. */
  ghost predicate Genuine(shares: seq<Share>, cs: seq<int>, p: Modulus) {
    forall i :: 0 <= i < |shares| ==> Cong(shares[i].y, Eval(cs, shares[i].x), p)
  }

  /** As many genuine shares as the polynomial has coefficients, or more, give its constant coefficient. */
  lemma Recovers(shares: seq<Share>, cs: seq<int>, p: Modulus)
    requires IsPrime(p) && DistinctPoints(shares, p) && Genuine(shares, cs, p) && 1 <= |cs| <= |shares|
    ensures Cong(Sum(XsOf(shares), YsOf(shares), All(|shares|), p, |shares|), cs[0], p)
  {
    var xs, ys, I := XsOf(shares), YsOf(shares), All(|shares|);
    forall i, j | i in I && j in I && i != j ensures !Divides(p, xs[i] - xs[j]) {
      NotDividedBetween(p, xs[i] - xs[j]);
    }
    forall i | i in I ensures Cong(ys[i], Values(xs, cs)[i], p) {
    }
    SumCong(xs, ys, Values(xs, cs), I, p, |xs|);
    Interpolates(xs, I, cs, p);
    EvalAtZero(cs);
    Trans(Sum(xs, ys, I, p, |xs|), Sum(xs, Values(xs, cs), I, p, |xs|), cs[0], p);
  }

  // ---------- fewer shares than the threshold ----------

  lemma {:induction false} EvalPadded(cs: seq<int>, n: nat, z: int)
    ensures Eval(cs + seq(n, _ => 0), z) == Eval(cs, z)
  {
    var zeros := seq(n, _ => 0);
    if cs != [] {
      EvalPadded(cs[1..], n, z);
      assert (cs + zeros)[1..] == cs[1..] + zeros;
    } else if n > 0 {
      EvalPadded(cs, n - 1, z);
      assert (cs + zeros)[1..] == cs + seq(n - 1, _ => 0);
    }
  }

  /** The secret masked by random numbers: secret + draw(1) * x + ... + draw(threshold - 1) * x ^ (threshold - 1). */
  ghost function Masked(secret: int, draw: nat -> nat, threshold: nat, x: nat): int {
    if threshold <= 1 then secret
    else Masked(secret, draw, threshold - 1, x) + draw(threshold - 1) * Pow(x, threshold - 1)
  }

  /** Holder j, counted from 1, has the masked secret at j, modulo p. */
  ghost predicate Shared(values: seq<int>, secret: int, draw: nat -> nat, threshold: nat, p: Modulus) {
    forall j :: 0 <= j < |values| ==>
      0 <= values[j] < p && Cong(values[j], Masked(secret, draw, threshold, j + 1), p)
  }

  /** The coefficients are the secret and the draws, modulo p. */
  ghost predicate DrawnFor(cs: seq<int>, secret: int, draw: nat -> nat, p: Modulus) {
    cs != [] && Cong(cs[0], secret, p) && forall k :: 1 <= k < |cs| ==> Cong(cs[k], draw(k), p)
  }

  lemma {:induction false} EvalSnoc(cs: seq<int>, c: int, x: nat)
    ensures Eval(cs + [c], x) == Eval(cs, x) + c * Pow(x, |cs|)
  {
    if cs != [] {
      var rest := cs[1..];
      EvalSnoc(rest, c, x);
      assert (cs + [c])[1..] == rest + [c];
      assert x * (Eval(rest, x) + c * Pow(x, |rest|)) == x * Eval(rest, x) + x * (c * Pow(x, |rest|));
      MulAssoc(x, c, Pow(x, |rest|));
      MulAssoc(c, x, Pow(x, |rest|));
    } else {
      assert [] + [c] == [c] && [c][1..] == [];
    }
  }

  lemma EvalLast(cs: seq<int>, x: nat)
    requires cs != []
    ensures Eval(cs, x) == Eval(cs[..|cs| - 1], x) + cs[|cs| - 1] * Pow(x, |cs| - 1)
  {
    assert cs == cs[..|cs| - 1] + [cs[|cs| - 1]];
    EvalSnoc(cs[..|cs| - 1], cs[|cs| - 1], x);
  }

  lemma {:induction false} EvalMasked(cs: seq<int>, secret: int, draw: nat -> nat, x: nat, p: Modulus)
    requires DrawnFor(cs, secret, draw, p)
    ensures Cong(Eval(cs, x), Masked(secret, draw, |cs|, x), p)
  {
    var n := |cs| - 1;
    if n == 0 {
      assert cs == [cs[0]] && cs[1..] == [];
    } else {
      EvalMasked(cs[..n], secret, draw, x, p);
      EvalLast(cs, x);
      MaskedStep(Eval(cs[..n], x), Masked(secret, draw, n, x), cs[n], draw(n), Pow(x, n), p);
    }
  }

  lemma MaskedStep(a: int, b: int, c: int, d: int, power: nat, p: Modulus)
    requires Cong(a, b, p) && Cong(c, d, p)
    ensures Cong(a + c * power, b + d * power, p)
  {
    Same(power, p);
    CongProduct(c, d, power, power, p);
    CongSum(a, b, c * power, d * power, p);
  }

  /** Coefficients below the modulus, the first congruent to the secret, that give the shares. */
  lemma FitShares(shares: seq<Share>, secret: int, threshold: nat, p: Modulus) returns (cs: seq<nat>)
    requires IsPrime(p) && DistinctPoints(shares, p) && |shares| < threshold
    ensures |cs| == threshold && Cong(cs[0], secret, p) && forall k :: 0 <= k < |cs| ==> cs[k] < p
    ensures Genuine(shares, cs, p)
  {
    var xs, ys := XsOf(shares), YsOf(shares);
    forall i, j | 0 <= i < j < |xs| ensures !Divides(p, xs[j] - xs[i]) {
      NotDividedBetween(p, xs[j] - xs[i]);
    }
    forall x | x in xs ensures !Divides(p, x) {
      NotDividedBetween(p, x);
    }
    var fit := Fit(secret, xs, ys, p);
    var padded := fit + seq(threshold - |fit|, _ => 0);
    cs := Reduced(padded, p);
    Remainder(secret, p);
    forall i | 0 <= i < |shares| ensures Cong(shares[i].y, Eval(cs, shares[i].x), p) {
      EvalPadded(fit, threshold - |fit|, xs[i]);
      EvalReduced(padded, p, xs[i]);
      Trans(Eval(cs, xs[i]), Eval(fit, xs[i]), ys[i], p);
      Sym(Eval(cs, xs[i]), ys[i], p);
    }
  }

  /** Among these values the holder of the share has exactly that share. */
  ghost predicate GivesOut(values: seq<int>, share: Share, p: Modulus) {
    1 <= share.x <= |values| && 0 <= share.y < p ==> values[share.x - 1] == share.y
  }

  /** Fewer shares than the threshold say nothing about the secret: whatever they are, every secret
      can be masked by numbers below the modulus so that a key shared with them gives these shares. */
  lemma EverySecretFits(shares: seq<Share>, secret: int, threshold: nat, p: Modulus) returns (draw: nat -> nat)
    requires IsPrime(p) && DistinctPoints(shares, p) && |shares| < threshold
    ensures forall k :: draw(k) < p
    ensures forall i :: 0 <= i < |shares| ==> Cong(shares[i].y, Masked(secret, draw, threshold, shares[i].x), p)
    ensures forall values, i :: Shared(values, secret, draw, threshold, p) && 0 <= i < |shares| ==>
              GivesOut(values, shares[i], p)
  {
    var cs := FitShares(shares, secret, threshold, p);
    draw := (k: nat) => if k < |cs| then cs[k] else 0;
    forall k | 1 <= k < |cs| ensures Cong(cs[k], draw(k), p) {
      Same(cs[k], p);
    }
    forall i | 0 <= i < |shares| ensures Cong(shares[i].y, Masked(secret, draw, threshold, shares[i].x), p) {
      EvalMasked(cs, secret, draw, shares[i].x, p);
      Trans(shares[i].y, Eval(cs, shares[i].x), Masked(secret, draw, threshold, shares[i].x), p);
    }
    forall values, i | Shared(values, secret, draw, threshold, p) && 0 <= i < |shares|
      ensures GivesOut(values, shares[i], p)
    {
      SharedGivesOut(values, shares[i], secret, draw, threshold, p);
    }
  }

  lemma SharedGivesOut(values: seq<int>, share: Share, secret: int, draw: nat -> nat, threshold: nat, p: Modulus)
    requires Shared(values, secret, draw, threshold, p) && share.x >= 1
    requires Cong(share.y, Masked(secret, draw, threshold, share.x), p)
    ensures GivesOut(values, share, p)
  {
    if 1 <= share.x <= |values| && 0 <= share.y < p {
      var y, masked := values[share.x - 1], Masked(secret, draw, threshold, share.x - 1 + 1);
      assert 0 <= y < p && Cong(y, masked, p);
      Sym(share.y, masked, p);
      Trans(y, masked, share.y, p);
      CongBelow(y, share.y, p);
    }
  }

  // ---------- remainders ----------

  /** The remainder operator of the source's language: it has the sign of the dividend. */
  function Rem(a: int, p: Modulus): (r: int)
    ensures 0 - p < r < p && (a >= 0 ==> r >= 0)
  {
    if a >= 0 then a % p else -(-a % p)
  }

  lemma RemCong(a: int, p: Modulus)
    ensures Cong(Rem(a, p), a, p)
  {
    if a >= 0 {
      Remainder(a, p);
    } else {
      Remainder(-a, p);
      Scale(-1, -a % p, -a, p);
    }
  }

  /** Remainder, and the modulus added if it is negative. */
  method Reduce(a: int, p: Modulus) returns (r: int)
    ensures Cong(r, a, p) && 0 <= r < p
  {
    RemCong(a, p);
    r := Rem(a, p);
    if r < 0 {
      r := AddModulus(r, a, p);
    }
  }

  // ---------- powers and inverses ----------

  lemma {:induction false} PowSquare(b: nat, k: nat)
    ensures Pow(b * b, k) == Pow(b, 2 * k)
  {
    if k > 0 {
      PowSquare(b, k - 1);
      assert Pow(b, 2 * k) == b * (b * Pow(b, 2 * k - 2));
      MulAssoc(b, b, Pow(b, 2 * k - 2));
    }
  }

  lemma PowHalve(b: nat, e: nat)
    requires e > 0
    ensures Pow(b, e) == (if e % 2 == 1 then b else 1) * Pow(b * b, e / 2)
  {
    PowSquare(b, e / 2);
  }

  lemma {:induction false} CongPow(a: nat, b: nat, n: nat, p: Modulus)
    requires Cong(a, b, p)
    ensures Cong(Pow(a, n), Pow(b, n), p)
  {
    if n == 0 {
      Same(1, p);
    } else {
      CongPow(a, b, n - 1, p);
      CongProduct(a, b, Pow(a, n - 1), Pow(b, n - 1), p);
    }
  }

  /** One round of square-and-multiply keeps result * base ^ exponent. */
  lemma ModPowStep(result: nat, base: nat, exp: nat, result': nat, base': nat, goal: int, p: Modulus)
    requires exp > 0 && Cong(result * Pow(base, exp), goal, p)
    requires Cong(result', result * (if exp % 2 == 1 then base else 1), p) && Cong(base', base * base, p)
    ensures Cong(result' * Pow(base', exp / 2), goal, p)
  {
    var f := if exp % 2 == 1 then base else 1;
    PowHalve(base, exp);
    CongPow(base', base * base, exp / 2, p);
    CongProduct(result', result * f, Pow(base', exp / 2), Pow(base * base, exp / 2), p);
    MulAssoc(result, f, Pow(base * base, exp / 2));
    Trans(result' * Pow(base', exp / 2), result * Pow(base, exp), goal, p);
  }

  /** modPow: square and multiply. */
  method ModPow(b: nat, e: nat, p: Modulus) returns (result: nat)
    ensures Cong(result, Pow(b, e), p)
    ensures p > 1 ==> result < p
  {
    result := 1;
    var base: nat, exp := b % p, e;
    Remainder(b, p);
    CongPow(base, b, e, p);
    while exp > 0
      invariant Cong(result * Pow(base, exp), Pow(b, e), p)
      invariant p > 1 ==> result < p
    {
      ghost var was, square := result, base;
      if exp % 2 == 1 {
        Remainder(result * base, p);
        result := result * base % p;
      } else {
        Same(result, p);
      }
      Remainder(base * base, p);
      ModPowStep(was, square, exp, result, base * base % p, Pow(b, e), p);
      exp := exp / 2;
      base := base * base % p;
    }
  }

  /** modInverse. */
  method ModInverse(d: nat, p: Modulus) returns (r: nat)
    requires 2 <= p && d < p
    ensures Cong(r, Inverse(d, p), p) && r < p
  {
    assert d % p == d;
    r := ModPow(d, p - 2, p);
  }

  // ---------- evaluation and reconstruction ----------

  /** evaluatePolynomial: Horner's rule from the highest coefficient. */
  method EvaluatePolynomial(cs: seq<int>, x: int, p: Modulus) returns (result: int)
    ensures Cong(result, Eval(cs, x), p) && 0 <= result < p
  {
    result := 0;
    var i := |cs|;
    assert cs[i..] == [];
    Same(0, p);
    while i > 0
      invariant i <= |cs| && Cong(result, Eval(cs[i..], x), p) && 0 <= result < p
    {
      i := i - 1;
      assert cs[i..][0] == cs[i] && cs[i..][1..] == cs[i + 1..];
      HornerStep(result, x, cs[i], Eval(cs[i + 1..], x), p);
      var next := Reduce(result * x + cs[i], p);
      Trans(next, result * x + cs[i], Eval(cs[i..], x), p);
      result := next;
    }
    assert cs[0..] == cs;
  }

  lemma HornerStep(result: int, x: int, c: int, value: int, p: Modulus)
    requires Cong(result, value, p)
    ensures Cong(result * x + c, c + x * value, p)
  {
    Scale(x, result, value, p);
    Same(c, p);
    CongSum(x * result, x * value, c, c, p);
  }

  /** The inner loop: numerator and denominator of the basis polynomial of share i at zero. */
  method Fraction(shares: seq<Share>, i: nat, p: Modulus) returns (numerator: nat, denominator: nat)
    requires i < |shares| && p >= 2
    ensures Cong(numerator, Others(XsOf(shares), All(|shares|), i, 0, |shares|), p) && numerator < p
    ensures Cong(denominator, Others(XsOf(shares), All(|shares|), i, shares[i].x, |shares|), p) && denominator < p
  {
    ghost var xs, I := XsOf(shares), All(|shares|);
    numerator, denominator := 1, 1;
    Same(1, p);
    var j := 0;
    while j < |shares|
      invariant j <= |shares| && numerator < p && denominator < p
      invariant Cong(numerator, Others(xs, I, i, 0, j), p)
      invariant Cong(denominator, Others(xs, I, i, xs[i], j), p)
    {
      if i != j {
        numerator := MultiplyReduced(numerator, -shares[j].x, Others(xs, I, i, 0, j), p);
        denominator := MultiplyReduced(denominator, shares[i].x - shares[j].x, Others(xs, I, i, xs[i], j), p);
      }
      j := j + 1;
    }
  }

  method MultiplyReduced(a: nat, c: int, ghost goal: int, p: Modulus) returns (r: nat)
    requires Cong(a, goal, p)
    ensures Cong(r, goal * c, p) && r < p
  {
    Same(c, p);
    CongProduct(a, goal, c, c, p);
    r := Reduce(a * c, p);
    Trans(r, a * c, goal * c, p);
  }

  /** lagrangeInterpolate: the weighted sum of the share values. */
  method LagrangeInterpolate(shares: seq<Share>, p: Modulus) returns (result: int)
    requires p >= 2
    ensures Cong(result, Sum(XsOf(shares), YsOf(shares), All(|shares|), p, |shares|), p) && 0 <= result < p
  {
    result := 0;
    Same(0, p);
    var i := 0;
    while i < |shares|
      invariant i <= |shares| && 0 - p < result < p
      invariant Cong(result, Sum(XsOf(shares), YsOf(shares), All(|shares|), p, i), p)
    {
      result := AddTerm(shares, i, result, p);
      i := i + 1;
    }
    if result < 0 {
      result := AddModulus(result, Sum(XsOf(shares), YsOf(shares), All(|shares|), p, i), p);
    }
  }

  /** One round of the outer loop. */
  method AddTerm(shares: seq<Share>, i: nat, sum: int, p: Modulus) returns (r: int)
    requires i < |shares| && p >= 2
    requires Cong(sum, Sum(XsOf(shares), YsOf(shares), All(|shares|), p, i), p)
    ensures Cong(r, Sum(XsOf(shares), YsOf(shares), All(|shares|), p, i + 1), p) && 0 - p < r < p
  {
    var term := Term(shares, i, p);
    r := AddReduced(sum, term, Sum(XsOf(shares), YsOf(shares), All(|shares|), p, i),
                    YsOf(shares)[i] * Weight(XsOf(shares), All(|shares|), i, p), p);
  }

  /** The term of share i. */
  method Term(shares: seq<Share>, i: nat, p: Modulus) returns (term: int)
    requires i < |shares| && p >= 2
    ensures Cong(term, YsOf(shares)[i] * Weight(XsOf(shares), All(|shares|), i, p), p)
  {
    var numerator, denominator := Fraction(shares, i, p);
    var inverse := ModInverse(denominator, p);
    ghost var xs, I, y := XsOf(shares), All(|shares|), shares[i].y;
    CongMeaning(denominator, Others(xs, I, i, xs[i], |shares|), p);
    TermStep(y, numerator, Others(xs, I, i, 0, |shares|), inverse, Inverse(denominator, p), p);
    term := Rem(shares[i].y * numerator * inverse, p);
    RemCong(y * numerator * inverse, p);
    Trans(term, y * numerator * inverse, y * Weight(xs, I, i, p), p);
  }

  method AddReduced(a: int, b: int, ghost goal: int, ghost goal': int, p: Modulus) returns (r: int)
    requires Cong(a, goal, p) && Cong(b, goal', p)
    ensures Cong(r, goal + goal', p) && 0 - p < r < p
  {
    CongSum(a, goal, b, goal', p);
    RemCong(a + b, p);
    r := Rem(a + b, p);
    Trans(r, a + b, goal + goal', p);
  }

  method AddModulus(a: int, ghost goal: int, p: Modulus) returns (r: int)
    requires Cong(a, goal, p)
    ensures Cong(r, goal, p) && r == a + p
  {
    Multiple(p, 1);
    CongSum(a, goal, p, 0, p);
    r := a + p;
  }

  lemma TermStep(y: int, a: int, num: int, inverse: int, inverse': int, p: Modulus)
    requires Cong(a, num, p) && Cong(inverse, inverse', p)
    ensures Cong(y * a * inverse, y * (num * inverse'), p)
  {
    CongProduct(a, num, inverse, inverse', p);
    Scale(y, a * inverse, num * inverse', p);
    MulAssoc(y, a, inverse);
  }

  // ---------- the manager ----------

  /** generatePolynomialCoefficients; draw gives the random numbers. */
  method GenerateCoefficients(secret: int, degree: nat, draw: nat -> nat, p: Modulus) returns (cs: seq<int>)
    ensures |cs| == degree + 1 && cs[0] == secret
    ensures forall k :: 1 <= k <= degree ==> cs[k] == draw(k) % p
  {
    cs := [secret];
    var i := 1;
    while i <= degree
      invariant 1 <= i <= degree + 1 && |cs| == i && cs[0] == secret
      invariant forall k :: 1 <= k < i ==> cs[k] == draw(k) % p
    {
      cs := cs + [draw(i) % p];
      i := i + 1;
    }
  }

  /** The values at 1 to total are the shares of the holders. */
  ghost predicate SharesOf(values: seq<int>, cs: seq<int>, p: Modulus) {
    forall i :: 0 <= i < |values| ==> Cong(values[i], Eval(cs, i + 1), p)
  }

  method MakeShares(cs: seq<int>, total: nat, p: Modulus) returns (values: seq<int>)
    ensures |values| == total && SharesOf(values, cs, p)
    ensures forall i :: 0 <= i < total ==> 0 <= values[i] < p
  {
    values := [];
    var i := 0;
    while i < total
      invariant i <= total && |values| == i && SharesOf(values, cs, p)
      invariant forall j :: 0 <= j < i ==> 0 <= values[j] < p
    {
      var y := EvaluatePolynomial(cs, i + 1, p);
      values := values + [y];
      i := i + 1;
    }
  }

  /** Sharing anew: the values are the secret masked by the numbers drawn. */
  method ShareSecret(secret: int, threshold: nat, total: nat, draw: nat -> nat, p: Modulus)
    returns (values: seq<int>, ghost cs: seq<int>)
    requires threshold >= 1
    ensures |cs| == threshold && cs[0] == secret
    ensures |values| == total && SharesOf(values, cs, p) && Shared(values, secret, draw, threshold, p)
  {
    var coefficients := GenerateCoefficients(secret, threshold - 1, draw, p);
    cs := coefficients;
    values := MakeShares(coefficients, total, p);
    Same(secret, p);
    forall k | 1 <= k < |cs| ensures Cong(cs[k], draw(k), p) {
      Remainder(draw(k), p);
    }
    SharedByDraw(values, cs, secret, draw, p);
  }

  lemma SharedByDraw(values: seq<int>, cs: seq<int>, secret: int, draw: nat -> nat, p: Modulus)
    requires SharesOf(values, cs, p) && DrawnFor(cs, secret, draw, p)
    requires forall i :: 0 <= i < |values| ==> 0 <= values[i] < p
    ensures Shared(values, secret, draw, |cs|, p)
  {
    forall j | 0 <= j < |values| ensures Cong(values[j], Masked(secret, draw, |cs|, j + 1), p) {
      EvalMasked(cs, secret, draw, j + 1, p);
      Trans(values[j], Eval(cs, j + 1), Masked(secret, draw, |cs|, j + 1), p);
    }
  }

  /** The same secret modulo p gives the same shares. */
  lemma SharedModulo(values: seq<int>, secret: int, secret': int, draw: nat -> nat, threshold: nat, p: Modulus)
    requires Shared(values, secret, draw, threshold, p) && Cong(secret, secret', p)
    ensures Shared(values, secret', draw, threshold, p)
  {
    forall j | 0 <= j < |values| ensures Cong(values[j], Masked(secret', draw, threshold, j + 1), p) {
      MaskedModulo(secret, secret', draw, threshold, j + 1, p);
      Trans(values[j], Masked(secret, draw, threshold, j + 1), Masked(secret', draw, threshold, j + 1), p);
    }
  }

  lemma {:induction false} MaskedModulo(secret: int, secret': int, draw: nat -> nat, threshold: nat, x: nat, p: Modulus)
    requires Cong(secret, secret', p)
    ensures Cong(Masked(secret, draw, threshold, x), Masked(secret', draw, threshold, x), p)
  {
    if threshold > 1 {
      var t := draw(threshold - 1) * Pow(x, threshold - 1);
      MaskedModulo(secret, secret', draw, threshold - 1, x, p);
      Same(t, p);
      CongSum(Masked(secret, draw, threshold - 1, x), Masked(secret', draw, threshold - 1, x), t, t, p);
    }
  }

  /** The account of a private key, or None when the account library refuses the key. */
  type Accounts = int -> Option<nat>

  /** One key of the manager. Encryption is left out: values are the shares before encryption. */
  class Key {
    const threshold: nat
    const total: nat
    const p: Modulus
    const account: nat
    ghost const secret: int
    var values: seq<int>
    var version: nat
    ghost var polynomial: seq<int>

    /** The shares are those of a polynomial for the secret, with as many coefficients as the threshold. */
    ghost predicate Valid()
      reads this
    {
      && 2 <= threshold <= total == |values| && total < p
      && |polynomial| == threshold && Cong(polynomial[0], secret, p) && SharesOf(values, polynomial, p)
    }

    constructor (threshold: nat, total: nat, p: Modulus, account: nat, values: seq<int>,
                 ghost secret: int, ghost polynomial: seq<int>)
      requires 2 <= threshold <= total == |values| && total < p
      requires |polynomial| == threshold && polynomial[0] == secret && SharesOf(values, polynomial, p)
      ensures Valid() && this.threshold == threshold && this.total == total && this.p == p
      ensures this.account == account && this.secret == secret && this.values == values && version == 1
    {
      this.threshold, this.total, this.p, this.account := threshold, total, p, account;
      this.secret, this.polynomial, this.values, version := secret, polynomial, values, 1;
      Same(secret, p);
    }

    /** rotateKey: the first shares give the secret, which is shared anew with the numbers drawn. */
    method Rotate(draw: nat -> nat)
      requires Valid() && IsPrime(p)
      modifies this
      ensures Valid() && version == old(version) + 1
      ensures Shared(values, secret, draw, threshold, p)
    {
      var used := FirstShares();
      Recovers(used, polynomial, p);
      var recovered := LagrangeInterpolate(used, p);
      Trans(recovered, Sum(XsOf(used), YsOf(used), All(|used|), p, |used|), polynomial[0], p);
      Trans(recovered, polynomial[0], secret, p);
      values, polynomial := ShareSecret(recovered, threshold, total, draw, p);
      SharedModulo(values, recovered, secret, draw, threshold, p);
      version := version + 1;
    }

    method FirstShares() returns (shares: seq<Share>)
      requires Valid()
      ensures |shares| == threshold && DistinctPoints(shares, p) && Genuine(shares, polynomial, p)
    {
      shares := [];
      var i := 0;
      while i < threshold
        invariant i <= threshold && |shares| == i
        invariant forall j :: 0 <= j < i ==> shares[j] == Share(j + 1, values[j])
      {
        shares := shares + [Share(i + 1, values[i])];
        i := i + 1;
      }
    }

    /** A share as its holder has it. */
    ghost predicate IsShare(s: Share)
      reads this
      requires Valid()
    {
      1 <= s.x <= total && s.y == values[s.x - 1]
    }
  }

  /** What a submission comes to: Refused is a throw because the reconstructed key has no account or
      that of another key. */
  datatype Submission = AlreadyComplete | Waiting | Refused | Signed(secret: int)

  /** A signature request: the shares submitted so far, one for each holder. */
  class Request {
    var collected: seq<Share>
    var complete: bool

    ghost predicate Valid()
      reads this
    {
      forall i, j :: 0 <= i < j < |collected| ==> collected[i].x != collected[j].x
    }

    constructor ()
      ensures Valid() && collected == [] && !complete
    {
      collected, complete := [], false;
    }

    /** A holder that submits again replaces its share. */
    method Put(s: Share)
      requires Valid()
      modifies this`collected
      ensures Valid()
      ensures forall t :: t in collected <==> t == s || (t in old(collected) && t.x != s.x)
    {
      var i := 0;
      while i < |collected|
        invariant i <= |collected| && forall j :: 0 <= j < i ==> collected[j].x != s.x
      {
        if collected[i].x == s.x {
          ghost var was := collected;
          collected := collected[i := s];
          assert forall j :: 0 <= j < |was| && j != i ==> collected[j] == was[j];
          assert collected[i] == s;
          return;
        }
        i := i + 1;
      }
      collected := collected + [s];
    }

    /** submitPartialSignature up to the signature: with enough shares the secret is reconstructed, and
        used only if its account is the key's. Enough shares of the current version give exactly the
        secret the key was generated with, if that is below the modulus. */
    method Submit(key: Key, accounts: Accounts, holder: int, y: int) returns (r: Submission)
      requires Valid() && key.Valid() && IsPrime(key.p)
      modifies this
      ensures Valid() && (r == AlreadyComplete <==> old(complete))
      ensures complete <==> old(complete) || r.Signed?
      ensures old(complete) ==> collected == old(collected)
      ensures !old(complete) ==>
                forall t :: t in collected <==> t == Share(holder, y) || (t in old(collected) && t.x != holder)
      ensures r == Waiting <==> !old(complete) && |collected| < key.threshold
      ensures r.Signed? ==> accounts(r.secret) == Some(key.account)
      ensures r != AlreadyComplete && r != Waiting && (forall t :: t in collected ==> key.IsShare(t)) ==>
                (0 <= key.secret < key.p && accounts(key.secret) == Some(key.account) ==> r == Signed(key.secret))
    {
      if complete { return AlreadyComplete; }
      Put(Share(holder, y));
      if |collected| < key.threshold { return Waiting; }
      var secret := LagrangeInterpolate(collected, key.p);
      if forall t :: t in collected ==> key.IsShare(t) {
        GenuineRecovers(collected, key, secret);
      }
      if accounts(secret) != Some(key.account) { return Refused; }
      complete := true;
      r := Signed(secret);
    }
  }

  /** What enough shares of the current version give is the secret modulo p, and it is the secret
      itself exactly when that is below p. */
  lemma GenuineRecovers(collected: seq<Share>, key: Key, result: int)
    requires key.Valid() && IsPrime(key.p) && |collected| >= key.threshold
    requires forall i, j :: 0 <= i < j < |collected| ==> collected[i].x != collected[j].x
    requires forall t :: t in collected ==> key.IsShare(t)
    requires 0 <= result < key.p
    requires Cong(result, Sum(XsOf(collected), YsOf(collected), All(|collected|), key.p, |collected|), key.p)
    ensures Cong(result, key.secret, key.p) && (result == key.secret <==> 0 <= key.secret < key.p)
  {
    assert forall i :: 0 <= i < |collected| ==> key.IsShare(collected[i]);
    Recovers(collected, key.polynomial, key.p);
    Trans(result, Sum(XsOf(collected), YsOf(collected), All(|collected|), key.p, |collected|), key.polynomial[0],
          key.p);
    Trans(result, key.polynomial[0], key.secret, key.p);
    if 0 <= key.secret < key.p {
      CongBelow(result, key.secret, key.p);
    }
  }

  /** The constructor's check of the configuration and generateKey; None stands for a throw. */
  method GenerateKey(threshold: nat, total: nat, holders: nat, secret: nat, accounts: Accounts, draw: nat -> nat)
    returns (key: Option<Key>)
    requires total < PRIME
    ensures key.Some? <==> 2 <= threshold <= total == holders && accounts(secret).Some?
    ensures key.Some? ==> fresh(key.value) && key.value.Valid() && key.value.p == PRIME && key.value.secret == secret
    ensures key.Some? ==> key.value.threshold == threshold && key.value.total == total && key.value.version == 1
    ensures key.Some? ==> accounts(secret) == Some(key.value.account)
    ensures key.Some? ==> Shared(key.value.values, secret, draw, threshold, PRIME)
  {
    if threshold > total || threshold < 2 || holders != total { return None; }
    if accounts(secret).None? { return None; }
    var values, cs := ShareSecret(secret, threshold, total, draw, PRIME);
    var k := new Key(threshold, total, PRIME, accounts(secret).value, values, secret, cs);
    key := Some(k);
  }
}
