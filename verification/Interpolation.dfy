/** Polynomials modulo a prime and their Lagrange interpolation at zero. */
module Interpolation {
  import opened Digits
  import opened Modular

  // ---------- polynomials ----------

  /** The polynomial with these coefficients, lowest first, at x. */
  function Eval(cs: seq<int>, x: int): int {
    if cs == [] then 0 else cs[0] + x * Eval(cs[1..], x)
  }

  /** The quotient of division by z - r. */
  function Divide(cs: seq<int>, r: int): (q: seq<int>)
    ensures |q| == if cs == [] then 0 else |cs| - 1
  {
    if |cs| <= 1 then [] else [Eval(cs[1..], r)] + Divide(cs[1..], r)
  }

  lemma {:induction false} DivideMeaning(cs: seq<int>, r: int, z: int)
    ensures Eval(cs, z) == Eval(cs, r) + (z - r) * Eval(Divide(cs, r), z)
  {
    if |cs| > 1 {
      var g, q := cs[1..], Divide(cs[1..], r);
      DivideMeaning(g, r, z);
      assert Divide(cs, r)[1..] == q;
      DivideStep(z, r, Eval(g, z), Eval(g, r), Eval(q, z));
    } else if |cs| == 1 {
      assert cs[1..] == [];
    }
  }

  lemma DivideStep(z: int, r: int, gz: int, gr: int, q: int)
    requires gz == gr + (z - r) * q
    ensures z * gz == r * gr + (z - r) * (gr + z * q)
  {
    assert z * ((z - r) * q) == (z - r) * (z * q);
  }

  // ---------- the Lagrange sum ----------

  /** The numbers below n. */
  ghost function All(n: nat): (s: set<nat>)
    ensures forall i :: i in s <==> 0 <= i < n
    ensures |s| == n
  {
    if n == 0 then {} else All(n - 1) + {n - 1}
  }

  /** The product of z - x over the points x of I before n, without point i. */
  ghost function Others(xs: seq<int>, I: set<nat>, i: nat, z: int, n: nat): int
    requires n <= |xs|
  {
    if n == 0 then 1
    else Others(xs, I, i, z, n - 1) * if n - 1 in I && n - 1 != i then z - xs[n - 1] else 1
  }

  /** The inverse modulo a prime, by Fermat's little theorem. */
  ghost function Inverse(d: int, p: Modulus): nat
    requires p >= 2
  {
    Pow(d % p, p - 2)
  }

  ghost function Weight(xs: seq<int>, I: set<nat>, i: nat, p: Modulus): int
    requires i < |xs| && p >= 2
  {
    Others(xs, I, i, 0, |xs|) * Inverse(Others(xs, I, i, xs[i], |xs|), p)
  }

  ghost function Addend(xs: seq<int>, ys: seq<int>, I: set<nat>, i: nat, p: Modulus): int
    requires i < |xs| == |ys| && p >= 2
  {
    if i in I then ys[i] * Weight(xs, I, i, p) else 0
  }

  /** The sum of y times weight over the points of I before n. */
  ghost function Sum(xs: seq<int>, ys: seq<int>, I: set<nat>, p: Modulus, n: nat): int
    requires n <= |xs| == |ys| && p >= 2
  {
    if n == 0 then 0
    else Sum(xs, ys, I, p, n - 1) + Addend(xs, ys, I, n - 1, p)
  }

  ghost predicate DistinctOn(xs: seq<int>, I: set<nat>, p: Modulus) {
    && (forall i :: i in I ==> i < |xs|)
    && (forall i, j :: i in I && j in I && i != j ==> !Divides(p, xs[i] - xs[j]))
  }

  // ---------- inverses ----------

  lemma InverseMeaning(d: int, p: Modulus)
    requires IsPrime(p) && !Divides(p, d)
    ensures Cong(d * Inverse(d, p), 1, p)
  {
    var r := d % p;
    Remainder(d, p);
    if Divides(p, r) {
      DividesSum(p, r, r - d);
    }
    Fermat(r, p);
    Sym(r, d, p);
    Same(Inverse(d, p), p);
    CongProduct(d, r, Inverse(d, p), Inverse(d, p), p);
    Trans(d * Inverse(d, p), r * Inverse(d, p), 1, p);
  }

  lemma {:induction false} OthersNotDivided(xs: seq<int>, I: set<nat>, i: nat, n: nat, p: Modulus)
    requires IsPrime(p) && DistinctOn(xs, I, p) && i in I && n <= |xs|
    ensures !Divides(p, Others(xs, I, i, xs[i], n))
  {
    if n == 0 {
      NotDivided(p, 1);
    } else {
      OthersNotDivided(xs, I, i, n - 1, p);
      if n - 1 in I && n - 1 != i {
        NeitherDivided(p, Others(xs, I, i, xs[i], n - 1), xs[i] - xs[n - 1]);
      }
    }
  }

  // ---------- taking a point away ----------

  lemma Swap(x: int, y: int)
    ensures x * y == y * x && x * 1 == 1 * x == x
  {
  }

  lemma {:induction false} OthersWithout(xs: seq<int>, I: set<nat>, i: nat, k: nat, z: int, n: nat)
    requires n <= |xs| && k in I && k < |xs| && k != i
    ensures Others(xs, I, i, z, n) == (if k < n then z - xs[k] else 1) * Others(xs, I - {k}, i, z, n)
  {
    if n > 0 {
      OthersWithout(xs, I, i, k, z, n - 1);
      if k == n - 1 {
        Swap(Others(xs, I, i, z, n - 1), z - xs[k]);
      } else if k < n {
        MulAssoc(z - xs[k], Others(xs, I - {k}, i, z, n - 1), if n - 1 in I && n - 1 != i then z - xs[n - 1] else 1);
      }
    }
  }

  /** Clearing the denominators on both sides. */
  lemma ClearDenominators(p: Modulus, a: int, c: int, num: int, den: int, inverse: int, inverse': int)
    requires IsPrime(p) && !Divides(p, den)
    requires Cong(c * den * inverse, 1, p) && Cong(den * inverse', 1, p)
    ensures Cong(c * (a * num * inverse), a * (num * inverse'), p)
  {
    var x := a * num;
    Same(x, p);
    CongProduct(x, x, c * den * inverse, 1, p);
    CongProduct(x, x, den * inverse', 1, p);
    Sym(x * (den * inverse'), x, p);
    Trans(x * (c * den * inverse), x, x * (den * inverse'), p);
    Regroup(a, c, num, den, inverse, inverse');
    Cancel(p, den, c * (a * num * inverse), a * (num * inverse'));
  }

  lemma Regroup(a: int, c: int, num: int, den: int, inverse: int, inverse': int)
    ensures a * num * (c * den * inverse) == den * (c * (a * num * inverse))
    ensures a * num * (den * inverse') == den * (a * (num * inverse'))
  {
  }

  /** Without point k the weight at i changes by the factor -x at k over the difference. */
  lemma WeightWithout(xs: seq<int>, I: set<nat>, i: nat, k: nat, p: Modulus)
    requires IsPrime(p) && DistinctOn(xs, I, p) && i in I && k in I && k != i
    ensures Cong((xs[i] - xs[k]) * Weight(xs, I, i, p), -xs[k] * Weight(xs, I - {k}, i, p), p)
  {
    var n := |xs|;
    OthersWithout(xs, I, i, k, 0, n);
    OthersWithout(xs, I, i, k, xs[i], n);
    OthersNotDivided(xs, I, i, n, p);
    OthersNotDivided(xs, I - {k}, i, n, p);
    InverseMeaning(Others(xs, I, i, xs[i], n), p);
    InverseMeaning(Others(xs, I - {k}, i, xs[i], n), p);
    ClearDenominators(p, -xs[k], xs[i] - xs[k], Others(xs, I - {k}, i, 0, n), Others(xs, I - {k}, i, xs[i], n),
                      Inverse(Others(xs, I, i, xs[i], n), p), Inverse(Others(xs, I - {k}, i, xs[i], n), p));
  }

  lemma TermWithout(xs: seq<int>, I: set<nat>, k: nat, i: nat, y: int, y': int, p: Modulus)
    requires IsPrime(p) && DistinctOn(xs, I, p) && i in I && k in I && i != k && y == (xs[i] - xs[k]) * y'
    ensures Cong(y * Weight(xs, I, i, p), -xs[k] * (y' * Weight(xs, I - {k}, i, p)), p)
  {
    var w, w' := Weight(xs, I, i, p), Weight(xs, I - {k}, i, p);
    WeightWithout(xs, I, i, k, p);
    Scale(y', (xs[i] - xs[k]) * w, -xs[k] * w', p);
    Exchange(y', xs[i] - xs[k], w);
    Exchange(y', -xs[k], w');
    MulAssoc(xs[i] - xs[k], y', w);
  }

  lemma AddTerm(p: Modulus, a: int, s: int, s': int, t: int, t': int)
    requires Cong(s, a * s', p) && Cong(t, a * t', p)
    ensures Cong(s + t, a * (s' + t'), p)
  {
    CongSum(s, a * s', t, a * t', p);
    MulSum(s', t', a);
  }

  /** Values with the factor x - x at k: the sum loses the point k. */
  lemma {:induction false} SumWithout(xs: seq<int>, ys: seq<int>, ws: seq<int>, I: set<nat>, k: nat, p: Modulus, n: nat)
    requires IsPrime(p) && DistinctOn(xs, I, p) && k in I && n <= |xs| == |ys| == |ws|
    requires forall i :: i in I ==> ys[i] == (xs[i] - xs[k]) * ws[i]
    ensures Cong(Sum(xs, ys, I, p, n), -xs[k] * Sum(xs, ws, I - {k}, p, n), p)
  {
    if n == 0 {
      Same(0, p);
    } else {
      SumWithout(xs, ys, ws, I, k, p, n - 1);
      SumStep(xs, ys, ws, I, k, p, n);
    }
  }

  lemma SumStep(xs: seq<int>, ys: seq<int>, ws: seq<int>, I: set<nat>, k: nat, p: Modulus, n: nat)
    requires IsPrime(p) && DistinctOn(xs, I, p) && k in I && 1 <= n <= |xs| == |ys| == |ws|
    requires n - 1 in I ==> ys[n - 1] == (xs[n - 1] - xs[k]) * ws[n - 1]
    requires Cong(Sum(xs, ys, I, p, n - 1), -xs[k] * Sum(xs, ws, I - {k}, p, n - 1), p)
    ensures Cong(Sum(xs, ys, I, p, n), -xs[k] * Sum(xs, ws, I - {k}, p, n), p)
  {
    var s, s' := Sum(xs, ys, I, p, n - 1), Sum(xs, ws, I - {k}, p, n - 1);
    var t, t' := Addend(xs, ys, I, n - 1, p), Addend(xs, ws, I - {k}, n - 1, p);
    AddendWithout(xs, ys, ws, I, k, n - 1, p);
    assert Sum(xs, ys, I, p, n) == s + t && Sum(xs, ws, I - {k}, p, n) == s' + t';
    AddTerm(p, -xs[k], s, s', t, t');
  }

  lemma AddendWithout(xs: seq<int>, ys: seq<int>, ws: seq<int>, I: set<nat>, k: nat, i: nat, p: Modulus)
    requires IsPrime(p) && DistinctOn(xs, I, p) && k in I && i < |xs| == |ys| == |ws|
    requires i in I ==> ys[i] == (xs[i] - xs[k]) * ws[i]
    ensures Cong(Addend(xs, ys, I, i, p), -xs[k] * Addend(xs, ws, I - {k}, i, p), p)
  {
    if i == k {
      assert ys[i] == 0;
      Same(0, p);
    } else if i in I {
      TermWithout(xs, I, k, i, ys[i], ws[i], p);
    } else {
      Same(0, p);
    }
  }

  lemma {:induction false} SumLinear(xs: seq<int>, us: seq<int>, vs: seq<int>, ys: seq<int>, a: int, I: set<nat>,
                                     p: Modulus, n: nat)
    requires p >= 2 && n <= |xs| == |us| == |vs| == |ys|
    requires forall i :: i in I && i < |xs| ==> ys[i] == a * us[i] + vs[i]
    ensures Sum(xs, ys, I, p, n) == a * Sum(xs, us, I, p, n) + Sum(xs, vs, I, p, n)
  {
    if n > 0 {
      SumLinear(xs, us, vs, ys, a, I, p, n - 1);
      if n - 1 in I {
        LinearStep(a, us[n - 1], vs[n - 1], Weight(xs, I, n - 1, p), Sum(xs, us, I, p, n - 1));
      }
    }
  }

  lemma LinearStep(a: int, u: int, v: int, w: int, s: int)
    ensures (a * u + v) * w == a * (u * w) + v * w
    ensures a * (s + u * w) == a * s + a * (u * w)
  {
  }

  // ---------- interpolation ----------

  /** The values of a polynomial. */
  ghost function Values(xs: seq<int>, cs: seq<int>): (s: seq<int>)
    ensures |s| == |xs| && forall i :: 0 <= i < |xs| ==> s[i] == Eval(cs, xs[i])
  {
    seq(|xs|, i requires 0 <= i < |xs| => Eval(cs, xs[i]))
  }

  /** ... times the differences to point k. */
  ghost function Shifted(xs: seq<int>, k: nat, q: seq<int>): (s: seq<int>)
    requires k < |xs|
    ensures |s| == |xs| && forall i :: 0 <= i < |xs| ==> s[i] == (xs[i] - xs[k]) * Eval(q, xs[i])
  {
    seq(|xs|, i requires 0 <= i < |xs| => (xs[i] - xs[k]) * Eval(q, xs[i]))
  }

  lemma ShiftedSum(xs: seq<int>, I: set<nat>, k: nat, q: seq<int>, v: int, p: Modulus)
    requires IsPrime(p) && DistinctOn(xs, I, p) && k in I
    requires Cong(Sum(xs, Values(xs, q), I - {k}, p, |xs|), v, p)
    ensures Cong(Sum(xs, Shifted(xs, k, q), I, p, |xs|), -xs[k] * v, p)
  {
    var s, s' := Sum(xs, Shifted(xs, k, q), I, p, |xs|), Sum(xs, Values(xs, q), I - {k}, p, |xs|);
    SumWithout(xs, Shifted(xs, k, q), Values(xs, q), I, k, p, |xs|);
    Scale(-xs[k], s', v, p);
    Trans(s, -xs[k] * s', -xs[k] * v, p);
  }

  /** The polynomial that is one everywhere. */
  const ONE: seq<int> := [1]

  lemma EvalOne(z: int)
    ensures Eval(ONE, z) == 1
  {
    assert ONE[1..] == [];
  }

  /** The weights of one or more points add up to one. */
  lemma {:induction false} WeightsAddUp(xs: seq<int>, I: set<nat>, p: Modulus)
    requires IsPrime(p) && DistinctOn(xs, I, p) && I != {}
    ensures Cong(Sum(xs, Values(xs, ONE), I, p, |xs|), 1, p)
    decreases |I|
  {
    var a :| a in I;
    if I == {a} {
      OnlyWeight(xs, a, p, |xs|);
    } else {
      var b :| b in I && b != a;
      WeightsAddUp(xs, I - {a}, p);
      WeightsAddUp(xs, I - {b}, p);
      WeightsOfMore(xs, I, a, b, p);
    }
  }

  lemma WeightsOfMore(xs: seq<int>, I: set<nat>, a: nat, b: nat, p: Modulus)
    requires IsPrime(p) && DistinctOn(xs, I, p) && a in I && b in I && a != b
    requires Cong(Sum(xs, Values(xs, ONE), I - {a}, p, |xs|), 1, p)
    requires Cong(Sum(xs, Values(xs, ONE), I - {b}, p, |xs|), 1, p)
    ensures Cong(Sum(xs, Values(xs, ONE), I, p, |xs|), 1, p)
  {
    ShiftedSum(xs, I, a, ONE, 1, p);
    ShiftedSum(xs, I, b, ONE, 1, p);
    CombineShifts(xs, I, a, b, p);
  }

  lemma CombineShifts(xs: seq<int>, I: set<nat>, a: nat, b: nat, p: Modulus)
    requires IsPrime(p) && a < |xs| && b < |xs| && !Divides(p, xs[a] - xs[b])
    requires Cong(Sum(xs, Shifted(xs, a, ONE), I, p, |xs|), -xs[a], p)
    requires Cong(Sum(xs, Shifted(xs, b, ONE), I, p, |xs|), -xs[b], p)
    ensures Cong(Sum(xs, Values(xs, ONE), I, p, |xs|), 1, p)
  {
    TwoShifts(xs, I, a, b, p);
    TwoPoints(p, xs[a], xs[b], Sum(xs, Values(xs, ONE), I, p, |xs|),
              Sum(xs, Shifted(xs, a, ONE), I, p, |xs|), Sum(xs, Shifted(xs, b, ONE), I, p, |xs|));
  }

  lemma TwoShifts(xs: seq<int>, I: set<nat>, a: nat, b: nat, p: Modulus)
    requires p >= 2 && a < |xs| && b < |xs|
    ensures Sum(xs, Shifted(xs, b, ONE), I, p, |xs|)
         == (xs[a] - xs[b]) * Sum(xs, Values(xs, ONE), I, p, |xs|) + Sum(xs, Shifted(xs, a, ONE), I, p, |xs|)
  {
    var ones, da, db := Values(xs, ONE), Shifted(xs, a, ONE), Shifted(xs, b, ONE);
    forall i | 0 <= i < |xs| ensures db[i] == (xs[a] - xs[b]) * ones[i] + da[i] {
      EvalOne(xs[i]);
    }
    SumLinear(xs, ones, da, db, xs[a] - xs[b], I, p, |xs|);
  }

  lemma TwoPoints(p: Modulus, a: int, b: int, s: int, sa: int, sb: int)
    requires IsPrime(p) && !Divides(p, a - b) && sb == (a - b) * s + sa
    requires Cong(sa, -a, p) && Cong(sb, -b, p)
    ensures Cong(s, 1, p)
  {
    DividesSum(p, sb - -b, sa - -a);
    assert (a - b) * s - (a - b) * 1 == (sb - -b) - (sa - -a);
    Cancel(p, a - b, s, 1);
  }

  lemma {:induction false} NothingElse(xs: seq<int>, a: nat, z: int, n: nat)
    requires a < |xs| && n <= |xs|
    ensures Others(xs, {a}, a, z, n) == 1
  {
    if n > 0 {
      NothingElse(xs, a, z, n - 1);
    }
  }

  lemma {:induction false} OnlyWeight(xs: seq<int>, a: nat, p: Modulus, n: nat)
    requires IsPrime(p) && a < |xs| && n <= |xs|
    ensures var s := Sum(xs, Values(xs, ONE), {a}, p, n); if a < n then Cong(s, 1, p) else s == 0
  {
    if n > 0 {
      OnlyWeight(xs, a, p, n - 1);
      if a == n - 1 {
        EvalOne(xs[a]);
        NothingElse(xs, a, 0, |xs|);
        NothingElse(xs, a, xs[a], |xs|);
        NotDivided(p, 1);
        InverseMeaning(1, p);
      }
    }
  }

  /** The Lagrange sum of as many values as the polynomial has coefficients, or more, is the
      polynomial at zero. */
  lemma {:induction false} Interpolates(xs: seq<int>, I: set<nat>, cs: seq<int>, p: Modulus)
    requires IsPrime(p) && DistinctOn(xs, I, p) && |cs| <= |I|
    ensures Cong(Sum(xs, Values(xs, cs), I, p, |xs|), Eval(cs, 0), p)
    decreases |I|
  {
    if I == {} {
      EmptySum(xs, Values(xs, cs), p, |xs|);
      Same(0, p);
    } else {
      var k :| k in I;
      Interpolates(xs, I - {k}, Divide(cs, xs[k]), p);
      OnePointMore(xs, I, k, cs, p);
    }
  }

  lemma SplitSum(xs: seq<int>, I: set<nat>, k: nat, cs: seq<int>, p: Modulus)
    requires p >= 2 && k < |xs|
    ensures Sum(xs, Values(xs, cs), I, p, |xs|)
         == Eval(cs, xs[k]) * Sum(xs, Values(xs, ONE), I, p, |xs|)
          + Sum(xs, Shifted(xs, k, Divide(cs, xs[k])), I, p, |xs|)
  {
    var n, r := |xs|, xs[k];
    var vs := Shifted(xs, k, Divide(cs, r));
    forall i | 0 <= i < n ensures Values(xs, cs)[i] == Eval(cs, r) * Values(xs, ONE)[i] + vs[i] {
      DivideMeaning(cs, r, xs[i]);
      EvalOne(xs[i]);
    }
    SumLinear(xs, Values(xs, ONE), vs, Values(xs, cs), Eval(cs, r), I, p, n);
  }

  lemma OnePointMore(xs: seq<int>, I: set<nat>, k: nat, cs: seq<int>, p: Modulus)
    requires IsPrime(p) && DistinctOn(xs, I, p) && k in I
    requires var q := Divide(cs, xs[k]); Cong(Sum(xs, Values(xs, q), I - {k}, p, |xs|), Eval(q, 0), p)
    ensures Cong(Sum(xs, Values(xs, cs), I, p, |xs|), Eval(cs, 0), p)
  {
    var r, q := xs[k], Divide(cs, xs[k]);
    ShiftedSum(xs, I, k, q, Eval(q, 0), p);
    WeightsAddUp(xs, I, p);
    SplitSum(xs, I, k, cs, p);
    DivideMeaning(cs, r, 0);
    AtZero(p, r, Eval(cs, r), Eval(q, 0), Sum(xs, Values(xs, ONE), I, p, |xs|), Sum(xs, Shifted(xs, k, q), I, p, |xs|));
  }

  lemma AtZero(p: Modulus, r: int, f: int, q: int, ones: int, s: int)
    requires Cong(ones, 1, p) && Cong(s, -r * q, p)
    ensures Cong(f * ones + s, f + (0 - r) * q, p)
  {
    Scale(f, ones, 1, p);
    CongSum(f * ones, f * 1, s, -r * q, p);
  }

  lemma {:induction false} EmptySum(xs: seq<int>, ys: seq<int>, p: Modulus, n: nat)
    requires p >= 2 && n <= |xs| == |ys|
    ensures Sum(xs, ys, {}, p, n) == 0
  {
    if n > 0 {
      EmptySum(xs, ys, p, n - 1);
    }
  }

  lemma {:induction false} SumCong(xs: seq<int>, ys: seq<int>, zs: seq<int>, I: set<nat>, p: Modulus, n: nat)
    requires p >= 2 && n <= |xs| == |ys| == |zs| && forall i :: i in I && i < |xs| ==> Cong(ys[i], zs[i], p)
    ensures Cong(Sum(xs, ys, I, p, n), Sum(xs, zs, I, p, n), p)
  {
    if n == 0 {
      Same(0, p);
    } else {
      SumCong(xs, ys, zs, I, p, n - 1);
      if n - 1 in I {
        var w := Weight(xs, I, n - 1, p);
        Same(w, p);
        CongProduct(ys[n - 1], zs[n - 1], w, w, p);
        CongSum(Sum(xs, ys, I, p, n - 1), Sum(xs, zs, I, p, n - 1), ys[n - 1] * w, zs[n - 1] * w, p);
      }
    }
  }

  // ---------- polynomials through given points ----------

  function Plus(a: seq<int>, b: seq<int>): (c: seq<int>)
    ensures |c| == if |a| < |b| then |b| else |a|
  {
    if a == [] then b else if b == [] then a else [a[0] + b[0]] + Plus(a[1..], b[1..])
  }

  lemma {:induction false} EvalPlus(a: seq<int>, b: seq<int>, z: int)
    ensures Eval(Plus(a, b), z) == Eval(a, z) + Eval(b, z)
  {
    if a != [] && b != [] {
      EvalPlus(a[1..], b[1..], z);
      assert Plus(a, b)[1..] == Plus(a[1..], b[1..]);
      assert z * (Eval(a[1..], z) + Eval(b[1..], z)) == z * Eval(a[1..], z) + z * Eval(b[1..], z);
    }
  }

  function Multiplied(c: int, a: seq<int>): (b: seq<int>)
    ensures |b| == |a|
  {
    if a == [] then [] else [c * a[0]] + Multiplied(c, a[1..])
  }

  lemma {:induction false} EvalMultiplied(c: int, a: seq<int>, z: int)
    ensures Eval(Multiplied(c, a), z) == c * Eval(a, z)
  {
    if a != [] {
      EvalMultiplied(c, a[1..], z);
      assert Multiplied(c, a)[1..] == Multiplied(c, a[1..]);
      assert z * (c * Eval(a[1..], z)) == c * (z * Eval(a[1..], z));
    }
  }

  /** The product of z and of z - x for all x of the list. */
  function Nodes(xs: seq<int>): (a: seq<int>)
    ensures |a| == |xs| + 2
  {
    if xs == [] then [0, 1]
    else
      var a := Nodes(xs[..|xs| - 1]);
      Plus([0] + a, Multiplied(-xs[|xs| - 1], a))
  }

  lemma NodesStep(xs: seq<int>, z: int)
    requires xs != []
    ensures Eval(Nodes(xs), z) == (z - xs[|xs| - 1]) * Eval(Nodes(xs[..|xs| - 1]), z)
  {
    var a, x := Nodes(xs[..|xs| - 1]), xs[|xs| - 1];
    EvalPlus([0] + a, Multiplied(-x, a), z);
    EvalMultiplied(-x, a, z);
    assert ([0] + a)[1..] == a;
    MulSum(z, x, Eval(a, z));
  }

  lemma NodesOfNone(z: int)
    ensures Eval(Nodes([]), z) == z
  {
    assert [1][1..] == [] && [0, 1][1..] == [1];
    assert Eval([1], z) == 1;
  }

  lemma {:induction false} NodesVanish(xs: seq<int>, z: int)
    requires z == 0 || z in xs
    ensures Eval(Nodes(xs), z) == 0
  {
    if xs == [] {
      NodesOfNone(z);
    } else {
      NodesStep(xs, z);
      if z != xs[|xs| - 1] {
        NodesVanish(xs[..|xs| - 1], z);
      }
    }
  }

  lemma {:induction false} NodesElsewhere(xs: seq<int>, z: int, p: Modulus)
    requires IsPrime(p) && !Divides(p, z) && forall i :: 0 <= i < |xs| ==> !Divides(p, z - xs[i])
    ensures !Divides(p, Eval(Nodes(xs), z))
  {
    if xs == [] {
      NodesOfNone(z);
    } else {
      NodesStep(xs, z);
      NodesElsewhere(xs[..|xs| - 1], z, p);
      NeitherDivided(p, z - xs[|xs| - 1], Eval(Nodes(xs[..|xs| - 1]), z));
    }
  }

  ghost predicate Distinct(xs: seq<int>, p: Modulus) {
    forall i, j :: 0 <= i < j < |xs| ==> !Divides(p, xs[j] - xs[i])
  }

  /** The polynomial passes through the points, modulo p. */
  ghost predicate Through(cs: seq<int>, xs: seq<int>, ys: seq<int>, p: Modulus)
    requires |xs| == |ys|
  {
    forall i :: 0 <= i < |xs| ==> Cong(Eval(cs, xs[i]), ys[i], p)
  }

  lemma EvalAtZero(cs: seq<int>)
    ensures Eval(cs, 0) == if cs == [] then 0 else cs[0]
  {
  }

  /** Through any points away from zero, and with any constant coefficient, there is a polynomial
      with one coefficient more than there are points. */
  lemma {:induction false} Fit(s: int, xs: seq<int>, ys: seq<int>, p: Modulus) returns (cs: seq<int>)
    requires IsPrime(p) && |xs| == |ys| && Distinct(xs, p) && forall x :: x in xs ==> !Divides(p, x)
    ensures |cs| == |xs| + 1 && cs[0] == s && Through(cs, xs, ys, p)
  {
    if xs == [] {
      cs := [s];
    } else {
      var n := |xs| - 1;
      var before := Fit(s, xs[..n], ys[..n], p);
      cs := FitOneMore(before, s, xs, ys, p);
    }
  }

  /** The new polynomial: the old one plus the multiple of the nodes that is missing at the last point. */
  lemma FitOneMore(before: seq<int>, s: int, xs: seq<int>, ys: seq<int>, p: Modulus) returns (cs: seq<int>)
    requires IsPrime(p) && |xs| == |ys| >= 1 && Distinct(xs, p) && forall x :: x in xs ==> !Divides(p, x)
    requires |before| == |xs| && before[0] == s && Through(before, xs[..|xs| - 1], ys[..|xs| - 1], p)
    ensures |cs| == |xs| + 1 && cs[0] == s && Through(cs, xs, ys, p)
  {
    var n := |xs| - 1;
    var nodes, x := Nodes(xs[..n]), xs[n];
    assert x in xs;
    NodesElsewhere(xs[..n], x, p);
    var c := (ys[n] - Eval(before, x)) * Inverse(Eval(nodes, x), p);
    cs := Plus(before, Multiplied(c, nodes));
    KeepsConstant(before, c, xs[..n]);
    forall i | 0 <= i < n ensures Cong(Eval(cs, xs[i]), ys[i], p) {
      KeepsValue(before, c, xs, i);
      assert xs[..n][i] == xs[i] && ys[..n][i] == ys[i];
    }
    EvalCombined(before, c, nodes, x);
    InverseMeaning(Eval(nodes, x), p);
    LastValue(p, ys[n], Eval(before, x), Eval(nodes, x), Inverse(Eval(nodes, x), p));
  }

  lemma KeepsConstant(before: seq<int>, c: int, xs: seq<int>)
    requires before != []
    ensures Plus(before, Multiplied(c, Nodes(xs)))[0] == before[0]
  {
    NodesVanish(xs, 0);
    EvalAtZero(Nodes(xs));
  }

  lemma KeepsValue(before: seq<int>, c: int, xs: seq<int>, i: nat)
    requires i < |xs| - 1
    ensures Eval(Plus(before, Multiplied(c, Nodes(xs[..|xs| - 1]))), xs[i]) == Eval(before, xs[i])
  {
    assert xs[..|xs| - 1][i] == xs[i];
    NodesVanish(xs[..|xs| - 1], xs[i]);
    EvalCombined(before, c, Nodes(xs[..|xs| - 1]), xs[i]);
  }

  lemma EvalCombined(a: seq<int>, c: int, b: seq<int>, z: int)
    ensures Eval(Plus(a, Multiplied(c, b)), z) == Eval(a, z) + c * Eval(b, z)
  {
    EvalPlus(a, Multiplied(c, b), z);
    EvalMultiplied(c, b, z);
  }

  lemma LastValue(p: Modulus, y: int, b: int, d: int, inverse: int)
    requires Cong(d * inverse, 1, p)
    ensures Cong(b + (y - b) * inverse * d, y, p)
  {
    Scale(y - b, d * inverse, 1, p);
    Same(b, p);
    CongSum(b, b, (y - b) * (d * inverse), (y - b) * 1, p);
    assert (y - b) * inverse * d == (y - b) * (d * inverse);
  }

  /** The coefficients reduced modulo p. */
  function Reduced(cs: seq<int>, p: Modulus): (r: seq<int>)
    ensures |r| == |cs| && forall i :: 0 <= i < |r| ==> 0 <= r[i] < p
  {
    if cs == [] then [] else [cs[0] % p] + Reduced(cs[1..], p)
  }

  lemma {:induction false} EvalReduced(cs: seq<int>, p: Modulus, z: int)
    ensures Cong(Eval(Reduced(cs, p), z), Eval(cs, z), p)
  {
    if cs == [] {
      Same(0, p);
    } else {
      EvalReduced(cs[1..], p, z);
      assert Reduced(cs, p)[1..] == Reduced(cs[1..], p);
      Remainder(cs[0], p);
      Scale(z, Eval(Reduced(cs[1..], p), z), Eval(cs[1..], z), p);
      CongSum(cs[0] % p, cs[0], z * Eval(Reduced(cs[1..], p), z), z * Eval(cs[1..], z), p);
    }
  }
}
