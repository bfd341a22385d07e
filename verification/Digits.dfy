/** Positional numerals in any base, most significant digit first. */
module Digits {

  predicate Below(d: seq<nat>, base: nat) {
    forall i :: 0 <= i < |d| ==> d[i] < base
  }

  function Value(d: seq<nat>, base: nat): nat {
    if d == [] then 0 else Value(d[..|d| - 1], base) * base + d[|d| - 1]
  }

  /** The numeral of v without leading zeros; zero is the empty numeral. */
  function Numeral(v: nat, base: nat): seq<nat>
    requires base >= 2
  {
    if v == 0 then [] else
      DivSmaller(v, base);
      Numeral(v / base, base) + [v % base]
  }

  function Zeros(n: nat): (z: seq<nat>)
    ensures |z| == n && forall i :: 0 <= i < n ==> z[i] == 0
  {
    seq(n, _ => 0)
  }

  /** How many zeros the numeral starts with. */
  function Leading(d: seq<nat>): (n: nat)
    ensures n <= |d|
    ensures n < |d| ==> d[n] != 0
    ensures d[..n] == Zeros(n)
  {
    if d == [] || d[0] != 0 then 0 else 1 + Leading(d[1..])
  }

  /** Change of base that keeps the leading zeros as they are. */
  function Transcode(d: seq<nat>, source: nat, target: nat): seq<nat>
    requires target >= 2
  {
    Zeros(Leading(d)) + Numeral(Value(d, source), target)
  }

  function Pow(base: nat, n: nat): (p: nat)
    ensures base >= 1 ==> p >= 1
  {
    if n == 0 then 1 else base * Pow(base, n - 1)
  }

  lemma DivSmaller(v: nat, base: nat)
    requires v > 0 && base >= 2
    ensures 0 <= v / base < v && 0 <= v % base < base
    ensures v == v / base * base + v % base
  {
    if v / base > 0 {
      DoubleAtMost(v / base, base);
    }
  }

  lemma DoubleAtMost(q: nat, base: nat)
    requires base >= 2
    ensures q * 2 <= q * base
  {
  }

  lemma DivModOf(q: nat, base: nat, r: nat)
    requires r < base
    ensures (q * base + r) / base == q && (q * base + r) % base == r
  {
    var v := q * base + r;
    assert v == v / base * base + v % base;
    var k := v / base - q;
    assert k * base == r - v % base;
    MultipleTooBig(k, base);
  }

  lemma MultipleTooBig(k: int, base: int)
    requires base >= 0
    ensures k > 0 ==> k * base >= base
    ensures k < 0 ==> k * base <= -base
  {
  }

  lemma MulAssoc(x: int, y: int, z: int)
    ensures x * (y * z) == (x * y) * z
  {
  }

  lemma MulMonotone(x: int, y: int, z: int)
    requires x <= y && 0 <= z
    ensures x * z <= y * z
  {
  }

  lemma Distribute(a: int, p: int, b: int, base: int)
    ensures (a * p + b) * base == a * (base * p) + b * base
  {
    MulAssoc(a, base, p);
    MulAssoc(a, p, base);
  }

  lemma {:induction false} PowAdd(base: nat, m: nat, n: nat)
    ensures Pow(base, m + n) == Pow(base, m) * Pow(base, n)
  {
    if m > 0 {
      PowAdd(base, m - 1, n);
      MulAssoc(base, Pow(base, m - 1), Pow(base, n));
    }
  }

  lemma {:induction false} ValueConcat(a: seq<nat>, b: seq<nat>, base: nat)
    ensures Value(a + b, base) == Value(a, base) * Pow(base, |b|) + Value(b, base)
  {
    if b == [] {
      assert a + b == a;
    } else {
      var b', x := b[..|b| - 1], b[|b| - 1];
      assert (a + b)[..|a + b| - 1] == a + b';
      ValueConcat(a, b', base);
      Distribute(Value(a, base), Pow(base, |b'|), Value(b', base), base);
    }
  }

  lemma ValueFirst(d: seq<nat>, base: nat)
    requires d != []
    ensures Value(d, base) == d[0] * Pow(base, |d| - 1) + Value(d[1..], base)
  {
    assert d == [d[0]] + d[1..];
    ValueConcat([d[0]], d[1..], base);
    assert Value([d[0]], base) == Value([], base) * base + d[0] by { assert [d[0]][..0] == []; }
  }

  lemma {:induction false} ValueZeros(n: nat, base: nat)
    ensures Value(Zeros(n), base) == 0
  {
    if n > 0 {
      assert Zeros(n)[..n - 1] == Zeros(n - 1);
      ValueZeros(n - 1, base);
    }
  }

  lemma ValueAfterZeros(n: nat, d: seq<nat>, base: nat)
    ensures Value(Zeros(n) + d, base) == Value(d, base)
  {
    ValueConcat(Zeros(n), d, base);
    ValueZeros(n, base);
  }

  lemma {:induction false} ValueBound(d: seq<nat>, base: nat)
    requires Below(d, base)
    ensures Value(d, base) < Pow(base, |d|)
  {
    if d != [] {
      ValueBound(d[..|d| - 1], base);
      var v, p := Value(d[..|d| - 1], base), Pow(base, |d| - 1);
      MulMonotone(v + 1, p, base);
      assert (v + 1) * base == v * base + base;
    }
  }

  /** A numeral whose first digit is not zero denotes at least its leading power. */
  lemma {:induction false} ValuePositive(d: seq<nat>, base: nat)
    requires base >= 1 && d != [] && d[0] != 0
    ensures Value(d, base) > 0
  {
    if |d| > 1 {
      ValuePositive(d[..|d| - 1], base);
      assert Value(d[..|d| - 1], base) * base >= 1;
    }
  }

  lemma {:induction false} NumeralDenotes(v: nat, base: nat)
    requires base >= 2
    ensures Value(Numeral(v, base), base) == v
    ensures Below(Numeral(v, base), base)
    ensures v > 0 ==> Numeral(v, base) != [] && Numeral(v, base)[0] != 0
  {
    if v > 0 {
      DivSmaller(v, base);
      NumeralDenotes(v / base, base);
      assert Numeral(v, base)[..|Numeral(v, base)| - 1] == Numeral(v / base, base);
    }
  }

  /** Numerals without leading zeros are unique. */
  lemma {:induction false} NumeralUnique(d: seq<nat>, base: nat)
    requires base >= 2 && Below(d, base) && (d != [] ==> d[0] != 0)
    ensures Numeral(Value(d, base), base) == d
  {
    if d != [] {
      var p, x := d[..|d| - 1], d[|d| - 1];
      NumeralUnique(p, base);
      ValuePositive(d, base);
      DivModOf(Value(p, base), base, x);
      assert d == p + [x];
    }
  }

  /** Changing base and back is the identity on every numeral, leading zeros included. */
  lemma TranscodeInverse(d: seq<nat>, source: nat, target: nat)
    requires source >= 2 && target >= 2 && Below(d, source)
    ensures Below(Transcode(d, source, target), target)
    ensures Leading(Transcode(d, source, target)) == Leading(d)
    ensures Value(Transcode(d, source, target), target) == Value(d, source)
    ensures Transcode(Transcode(d, source, target), target, source) == d
  {
    TranscodeKeeps(d, source, target);
    StripZeros(d, source);
  }

  lemma TranscodeKeeps(d: seq<nat>, source: nat, target: nat)
    requires target >= 2
    ensures Below(Transcode(d, source, target), target)
    ensures Leading(Transcode(d, source, target)) == Leading(d)
    ensures Value(Transcode(d, source, target), target) == Value(d, source)
  {
    var z, v := Leading(d), Value(d, source);
    NumeralDenotes(v, target);
    ValueAfterZeros(z, Numeral(v, target), target);
    LeadingAfterZeros(z, Numeral(v, target));
  }

  lemma StripZeros(d: seq<nat>, base: nat)
    requires base >= 2 && Below(d, base)
    ensures Zeros(Leading(d)) + Numeral(Value(d, base), base) == d
  {
    var z := Leading(d);
    var r := d[z..];
    assert d == Zeros(z) + r;
    ValueAfterZeros(z, r, base);
    NumeralUnique(r, base);
  }

  lemma {:induction false} LeadingAfterZeros(n: nat, d: seq<nat>)
    requires d == [] || d[0] != 0
    ensures Leading(Zeros(n) + d) == n
  {
    if n == 0 {
      assert Zeros(n) + d == d;
    } else {
      LeadingAfterZeros(n - 1, d);
      assert (Zeros(n) + d)[1..] == Zeros(n - 1) + d;
    }
  }
}
