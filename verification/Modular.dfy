/** Congruence modulo a prime, and the inverse that Fermat's little theorem gives. */
module Modular {
  import opened Digits

  type Modulus = p: nat | p > 0 witness 1

  /** What is left of d when p is subtracted, or added, as long as that brings it closer to zero. */
  ghost function Residue(p: Modulus, d: int): (r: int)
    ensures d >= 0 ==> r >= 0
    decreases if d < 0 then -d else d
  {
    if d >= p then Residue(p, d - p) else if d + p <= 0 then Residue(p, d + p) else d
  }

  ghost predicate Divides(p: Modulus, d: int) {
    Residue(p, d) == 0
  }

  ghost predicate Cong(a: int, b: int, p: Modulus) {
    Residue(p, a - b) == 0
  }

  /** Without a divisor between one and itself. */
  ghost predicate IsPrime(p: nat) {
    p >= 2 && forall k :: 2 <= k < p ==> !Divides(k, p)
  }

  // ---------- congruence ----------

  lemma {:induction false} MultipleOfNat(p: Modulus, k: nat)
    ensures k * p >= 0 && Divides(p, k * p)
  {
    if k > 0 {
      MultipleOfNat(p, k - 1);
      assert k * p == (k - 1) * p + p;
    }
  }

  lemma {:induction false} DividesNegative(p: Modulus, d: int)
    requires Divides(p, d)
    ensures Divides(p, -d)
    decreases if d < 0 then -d else d
  {
    if d >= p {
      DividesNegative(p, d - p);
    } else if d + p <= 0 {
      DividesNegative(p, d + p);
    }
  }

  lemma Multiple(p: Modulus, k: int)
    ensures Divides(p, k * p) && Divides(p, p * k)
  {
    if k >= 0 {
      MultipleOfNat(p, k);
    } else {
      MultipleOfNat(p, -k);
      DividesNegative(p, (-k) * p);
      assert -((-k) * p) == k * p;
    }
  }

  lemma {:induction false} Factor(p: Modulus, d: int) returns (k: int)
    requires Divides(p, d)
    ensures d == k * p
    decreases if d < 0 then -d else d
  {
    if d >= p {
      var j := Factor(p, d - p);
      k := j + 1;
      MulSum(j, 1, p);
    } else if d + p <= 0 {
      var j := Factor(p, d + p);
      k := j - 1;
      MulSum(j, 1, p);
    } else {
      k := 0;
    }
  }

  lemma MulSum(x: int, y: int, z: int)
    ensures (x + y) * z == x * z + y * z && (x - y) * z == x * z - y * z
  {
  }

  lemma DividesSum(p: Modulus, x: int, y: int)
    requires Divides(p, x) && Divides(p, y)
    ensures Divides(p, x + y) && Divides(p, x - y)
  {
    var i := Factor(p, x);
    var j := Factor(p, y);
    MulSum(i, j, p);
    Multiple(p, i + j);
    Multiple(p, i - j);
  }

  lemma DividesProduct(p: Modulus, x: int, y: int)
    requires Divides(p, x)
    ensures Divides(p, x * y) && Divides(p, y * x)
  {
    var i := Factor(p, x);
    MulAssoc(y, i, p);
    Multiple(p, y * i);
  }

  lemma Same(a: int, p: Modulus)
    ensures Cong(a, a, p)
  {
    Multiple(p, 0);
  }

  lemma Sym(a: int, b: int, p: Modulus)
    requires Cong(a, b, p)
    ensures Cong(b, a, p)
  {
    Multiple(p, 0);
    DividesSum(p, 0, a - b);
  }

  lemma Trans(a: int, b: int, c: int, p: Modulus)
    requires Cong(a, b, p) && Cong(b, c, p)
    ensures Cong(a, c, p)
  {
    DividesSum(p, a - b, b - c);
  }

  lemma CongSum(a: int, b: int, c: int, d: int, p: Modulus)
    requires Cong(a, b, p) && Cong(c, d, p)
    ensures Cong(a + c, b + d, p)
  {
    DividesSum(p, a - b, c - d);
  }

  lemma CongProduct(a: int, b: int, c: int, d: int, p: Modulus)
    requires Cong(a, b, p) && Cong(c, d, p)
    ensures Cong(a * c, b * d, p)
  {
    DividesProduct(p, a - b, c);
    DividesProduct(p, c - d, b);
    DividesSum(p, (a - b) * c, b * (c - d));
    assert (a - b) * c + b * (c - d) == a * c - b * d;
  }

  lemma {:induction false} ResidueCong(p: Modulus, d: nat)
    ensures Cong(Residue(p, d), d, p) && Residue(p, d) < p
  {
    if d >= p {
      ResidueCong(p, d - p);
    }
  }

  lemma Scale(c: int, a: int, b: int, p: Modulus)
    requires Cong(a, b, p)
    ensures Cong(c * a, c * b, p)
  {
    Same(c, p);
    CongProduct(c, c, a, b, p);
  }

  lemma Remainder(a: int, p: Modulus)
    ensures Cong(a % p, a, p) && 0 <= a % p < p
  {
    Quotient(a, p);
    Multiple(p, -(a / p));
    assert -(a / p) * p == -(a / p * p);
  }

  lemma Quotient(a: int, p: Modulus)
    ensures a == a / p * p + a % p && 0 <= a % p < p
  {
  }

  /** Congruent numbers below p are equal. */
  lemma CongBelow(a: int, b: int, p: Modulus)
    requires Cong(a, b, p) && 0 <= a < p && 0 <= b < p
    ensures a == b
  {
    var k := Factor(p, a - b);
    MultipleTooBig(k, p);
  }

  /** Congruent numbers have the same remainder. */
  lemma CongRemainder(a: int, b: int, p: Modulus)
    requires Cong(a, b, p)
    ensures a % p == b % p
  {
    Remainder(a, p);
    Remainder(b, p);
    Sym(b % p, b, p);
    Trans(a % p, a, b, p);
    Trans(a % p, b, b % p, p);
    CongBelow(a % p, b % p, p);
  }

  lemma CongMeaning(a: int, b: int, p: Modulus)
    ensures Cong(a, b, p) <==> a % p == b % p
  {
    if a % p == b % p {
      Remainder(a, p);
      Remainder(b, p);
      Sym(a % p, a, p);
      Trans(a, a % p, b, p);
    } else if Cong(a, b, p) {
      CongRemainder(a, b, p);
    }
  }

  lemma DividesRemainder(p: Modulus, d: int)
    ensures Divides(p, d) <==> d % p == 0
  {
    if Divides(p, d) {
      CongRemainder(d, 0, p);
    }
    if d % p == 0 {
      Multiple(p, d / p);
    }
  }

  // ---------- Euclid's lemma ----------

  /** The least positive m at or after k whose product with a is a multiple of p. */
  ghost function LeastFactor(a: int, p: Modulus, k: nat): (m: Modulus)
    requires 1 <= k <= p
    ensures k <= m <= p && Divides(p, a * m)
    ensures forall i :: k <= i < m ==> !Divides(p, a * i)
    decreases p - k
  {
    Multiple(p, a);
    if Divides(p, a * k) then k else LeastFactor(a, p, k + 1)
  }

  /** ... divides every such number: the remainder would be a smaller one. */
  lemma LeastDivides(a: int, p: Modulus, b: nat)
    requires p >= 1 && Divides(p, a * b)
    ensures Divides(LeastFactor(a, p, 1), b)
  {
    var m := LeastFactor(a, p, 1);
    var q, r := b / m, b % m;
    Quotient(b, m);
    RemainderIsFactor(a, p, q, m, r);
    Multiple(m, q);
  }

  lemma RemainderIsFactor(a: int, p: Modulus, q: int, m: int, r: int)
    requires Divides(p, a * m) && Divides(p, a * (q * m + r))
    ensures Divides(p, a * r)
  {
    DividesProduct(p, a * m, q);
    DividesSum(p, a * (q * m + r), a * m * q);
    RemainderTimes(a, q, m, r);
  }

  lemma RemainderTimes(a: int, q: int, m: int, r: int)
    ensures a * (q * m + r) - a * m * q == a * r
  {
    MulAssoc(a, q, m);
    MulAssoc(q, a, m);
    MulSum(q * m, r, a);
  }

  /** A prime divides a product only if it divides a factor. */
  lemma PrimeDivides(p: Modulus, a: int, b: int)
    requires IsPrime(p) && Divides(p, a * b)
    ensures Divides(p, a) || Divides(p, b)
  {
    var m, r := LeastFactor(a, p, 1), b % p;
    Multiple(p, a);
    LeastDivides(a, p, p);
    Remainder(b, p);
    Same(a, p);
    CongProduct(a, a, r, b, p);
    DividesSum(p, a * r - a * b, a * b);
    LeastDivides(a, p, r);
    if m == p {
      DividesSum(p, r, r - b);
    }
  }

  /** Cancelling what p does not divide. */
  lemma Cancel(p: Modulus, c: int, a: int, b: int)
    requires IsPrime(p) && !Divides(p, c) && Cong(c * a, c * b, p)
    ensures Cong(a, b, p)
  {
    assert c * a - c * b == c * (a - b);
    PrimeDivides(p, c, a - b);
  }

  // ---------- Fermat's little theorem ----------

  /** The product of a finite set of numbers. */
  ghost function Product(s: set<nat>): int {
    if s == {} then 1
    else
      var x :| x in s;
      x * Product(s - {x})
  }

  lemma {:induction false} ProductWith(s: set<nat>, x: nat)
    requires x in s
    ensures Product(s) == x * Product(s - {x})
    decreases |s|
  {
    var y :| y in s && Product(s) == y * Product(s - {y});
    if x != y {
      ProductWith(s - {y}, x);
      ProductWith(s - {x}, y);
      assert s - {y} - {x} == s - {x} - {y};
      Exchange(x, y, Product(s - {x} - {y}));
    }
  }

  lemma Exchange(x: int, y: int, z: int)
    ensures x * (y * z) == y * (x * z)
  {
    MulAssoc(x, y, z);
    MulAssoc(y, x, z);
  }

  ghost function Image(f: nat -> nat, s: set<nat>): set<nat> {
    set x | x in s :: f(x)
  }

  ghost predicate Injective(f: nat -> nat, s: set<nat>) {
    forall x, y :: x in s && y in s && f(x) == f(y) ==> x == y
  }

  lemma ImageWith(f: nat -> nat, s: set<nat>, x: nat)
    requires Injective(f, s) && x in s
    ensures Image(f, s) == Image(f, s - {x}) + {f(x)} && f(x) !in Image(f, s - {x})
  {
  }

  lemma {:induction false} ImageSize(f: nat -> nat, s: set<nat>)
    requires Injective(f, s)
    ensures |Image(f, s)| == |s|
    decreases |s|
  {
    if s != {} {
      var x :| x in s;
      ImageSize(f, s - {x});
      ImageWith(f, s, x);
    }
  }

  /** On s, f is multiplication by a up to congruence. */
  ghost predicate Scales(f: nat -> nat, a: nat, s: set<nat>, p: Modulus) {
    forall x :: x in s ==> Cong(f(x), a * x, p)
  }

  /** Such an f is injective below a prime p that does not divide a. */
  lemma ScalingInjective(f: nat -> nat, a: nat, p: Modulus, s: set<nat>)
    requires IsPrime(p) && !Divides(p, a) && Scales(f, a, s, p) && forall x :: x in s ==> x < p
    ensures Injective(f, s)
  {
    forall x, y | x in s && y in s && f(x) == f(y) ensures x == y {
      Sym(f(x), a * x, p);
      Trans(a * x, f(x), a * y, p);
      Cancel(p, a, x, y);
      CongBelow(x, y, p);
    }
  }

  lemma {:induction false} ScaledProduct(f: nat -> nat, a: nat, p: Modulus, s: set<nat>, n: nat)
    requires Injective(f, s) && Scales(f, a, s, p) && |s| == n
    ensures Cong(Product(Image(f, s)), Pow(a, n) * Product(s), p)
    decreases n
  {
    if n == 0 {
      assert Image(f, s) == {};
      Same(1, p);
    } else {
      var x :| x in s;
      var rest := s - {x};
      ScaledProduct(f, a, p, rest, n - 1);
      ImageWith(f, s, x);
      WithOne(Image(f, rest), f(x));
      ProductWith(s, x);
      CongProduct(f(x), a * x, Product(Image(f, rest)), Pow(a, n - 1) * Product(rest), p);
      Shuffle(a, x, Pow(a, n - 1), Product(rest));
    }
  }

  lemma WithOne(s: set<nat>, x: nat)
    requires x !in s
    ensures Product(s + {x}) == x * Product(s)
  {
    ProductWith(s + {x}, x);
    assert s + {x} - {x} == s;
  }

  lemma Shuffle(a: int, x: int, b: int, y: int)
    ensures (a * x) * (b * y) == (a * b) * (x * y)
  {
  }

  /** The numbers from 1 to p - 1. */
  ghost function Residues(p: Modulus): (s: set<nat>)
    ensures forall x :: x in s <==> 1 <= x < p
    ensures p >= 1 ==> |s| == p - 1
  {
    if p <= 1 then {} else Residues(p - 1) + {p - 1}
  }

  lemma NotDivided(p: Modulus, x: nat)
    requires 1 <= x < p
    ensures !Divides(p, x)
  {
    DividesRemainder(p, x);
  }

  lemma {:induction false} ProductNotDivided(p: Modulus, s: set<nat>)
    requires IsPrime(p) && forall x :: x in s ==> 1 <= x < p
    ensures !Divides(p, Product(s))
    decreases |s|
  {
    if s == {} {
      NotDivided(p, 1);
    } else {
      var x :| x in s;
      ProductWith(s, x);
      NotDivided(p, x);
      ProductNotDivided(p, s - {x});
      NeitherDivided(p, x, Product(s - {x}));
    }
  }

  lemma NeitherDivided(p: Modulus, x: int, y: int)
    requires IsPrime(p) && !Divides(p, x) && !Divides(p, y)
    ensures !Divides(p, x * y)
  {
    if Divides(p, x * y) {
      PrimeDivides(p, x, y);
    }
  }

  lemma SameSize(s: set<nat>, t: set<nat>)
    requires s <= t && |s| == |t|
    ensures s == t
  {
    if s != t {
      var x :| x in t && x !in s;
      SubsetSize(s, t - {x});
    }
  }

  lemma {:induction false} SubsetSize(s: set<nat>, t: set<nat>)
    requires s <= t
    ensures |s| <= |t|
    decreases |s|
  {
    if s != {} {
      var x :| x in s;
      SubsetSize(s - {x}, t - {x});
    }
  }

  lemma ScalingStays(a: nat, p: Modulus, x: nat)
    requires IsPrime(p) && !Divides(p, a) && 1 <= x < p
    ensures Cong(Residue(p, a * x), a * x, p) && 1 <= Residue(p, a * x) < p
  {
    NotDivided(p, x);
    NeitherDivided(p, a, x);
    ResidueCong(p, a * x);
  }

  /** Multiplication by a, modulo p, permutes the numbers from 1 to p - 1. */
  lemma Permutes(f: nat -> nat, a: nat, p: Modulus, s: set<nat>)
    requires IsPrime(p) && !Divides(p, a) && Scales(f, a, s, p)
    requires forall x :: x in s ==> x < p && f(x) in s
    ensures Injective(f, s) && Image(f, s) == s
  {
    ScalingInjective(f, a, p, s);
    ImageSize(f, s);
    SameSize(Image(f, s), s);
  }

  lemma CancelOne(p: Modulus, c: int, f: int)
    requires IsPrime(p) && !Divides(p, c) && Cong(c, f * c, p)
    ensures Cong(f, 1, p)
  {
    Sym(c, f * c, p);
    Cancel(p, c, f, 1);
  }

  lemma FermatOn(f: nat -> nat, a: nat, p: Modulus, s: set<nat>, n: nat)
    requires IsPrime(p) && !Divides(p, a) && Scales(f, a, s, p) && |s| == n
    requires forall x :: x in s ==> 1 <= x < p && f(x) in s
    ensures Cong(Pow(a, n), 1, p)
  {
    Permutes(f, a, p, s);
    ScaledProduct(f, a, p, s, n);
    ProductNotDivided(p, s);
    CancelOne(p, Product(s), Pow(a, n));
  }

  lemma ScalingMap(a: nat, p: Modulus, s: set<nat>) returns (f: nat -> nat)
    requires IsPrime(p) && !Divides(p, a) && forall x :: x in s ==> 1 <= x < p
    ensures Scales(f, a, s, p) && forall x :: x in s ==> 1 <= f(x) < p
  {
    f := x => Residue(p, a * x);
    forall x | x in s ensures Cong(f(x), a * x, p) && 1 <= f(x) < p {
      ScalingStays(a, p, x);
    }
  }

  lemma FermatFor(a: nat, p: Modulus, n: nat)
    requires IsPrime(p) && !Divides(p, a) && n == p - 1
    ensures Cong(Pow(a, n), 1, p)
  {
    var s := Residues(p);
    assert |s| == n;
    var f := ScalingMap(a, p, s);
    FermatOn(f, a, p, s, n);
  }

  /** Fermat's little theorem. */
  lemma Fermat(a: nat, p: Modulus)
    requires IsPrime(p) && !Divides(p, a)
    ensures Cong(Pow(a, p - 1), 1, p)
  {
    FermatFor(a, p, p - 1);
  }
}
