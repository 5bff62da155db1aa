/** Divisibility on natural numbers: the vocabulary in which the indentation
    unit is specified (a common divisor of all indentation levels that every
    other common divisor divides). */
module Arith {

  /** `d` divides `n`. By convention 0 divides only 0, and every number divides 0. */
  predicate Divides(d: nat, n: nat) {
    if d == 0 then n == 0 else n % d == 0
  }

  /** `d` divides every element of `xs`. */
  predicate CommonDivisor(d: nat, xs: seq<nat>) {
    forall k :: 0 <= k < |xs| ==> Divides(d, xs[k])
  }

  /** `g` is a greatest common divisor of `xs`: a common divisor that every
      other common divisor divides. */
  ghost predicate IsGcdOf(g: nat, xs: seq<nat>) {
    CommonDivisor(g, xs) && forall d :: CommonDivisor(d, xs) ==> Divides(d, g)
  }

  /** Euclidean division is unique: a quotient and remainder that fit are the ones `/` and `%` give. */
  lemma DivModUnique(n: nat, d: nat, q: int, r: int)
    requires d > 0 && 0 <= r < d && n == d * q + r
    ensures n / d == q && n % d == r
  {
    var q', r' := n / d, n % d;
    assert n == d * q' + r';
    assert d * (q - q') == r' - r;
    SmallMultipleIsZero(d, q - q');
  }

  /** The only multiple of `d` strictly between `-d` and `d` is `0`. */
  lemma SmallMultipleIsZero(d: int, x: int)
    requires d > 0 && -d < d * x < d
    ensures x == 0
  {
    if x > 0 {
      MultipleAtLeast(d, x);
    } else if x < 0 {
      MultipleAtLeast(d, -x);
    }
  }

  /** A positive multiple of a positive number is at least that number. */
  lemma {:induction false} MultipleAtLeast(d: int, x: int)
    requires d > 0 && x >= 1
    ensures d * x >= d
    decreases x
  {
    if x > 1 {
      MultipleAtLeast(d, x - 1);
      assert d * x == d * (x - 1) + d;
    }
  }

  /** Every multiple of `d` is divisible by `d`. */
  lemma MultipleIsDivisible(d: nat, m: nat)
    ensures Divides(d, d * m)
  {
    if d > 0 {
      DivModUnique(d * m, d, m, 0);
    }
  }

  /** Every number divides 0, 1 divides everything, everything divides itself. */
  lemma DividesBasics(n: nat)
    ensures Divides(n, 0) && Divides(1, n) && Divides(n, n)
  {
    if n > 0 {
      DivModUnique(n, n, 1, 0);
    }
  }

  /** A positive multiple is at least as large as its divisor. */
  lemma DividesBound(d: nat, n: nat)
    requires n > 0 && Divides(d, n)
    ensures 1 <= d <= n
  {
    var q := n / d;
    assert n == d * q;
  }

  /** Divisibility is antisymmetric. */
  lemma DividesAntisymmetric(a: nat, b: nat)
    requires Divides(a, b) && Divides(b, a)
    ensures a == b
  {
    if a > 0 && b > 0 {
      DividesBound(a, b);
      DividesBound(b, a);
    }
  }

  /** Divisibility is transitive. */
  lemma DividesTransitive(a: nat, b: nat, c: nat)
    requires Divides(a, b) && Divides(b, c)
    ensures Divides(a, c)
  {
    if a > 0 && b > 0 {
      var p, q := b / a, c / b;
      assert b == a * p && c == b * q;
      assert c == a * (p * q);
      MultipleIsDivisible(a, p * q);
    }
  }

  /** A common divisor of `a` and `b` divides their absolute difference. */
  lemma DividesAbsDiff(d: nat, a: nat, b: nat)
    requires Divides(d, a) && Divides(d, b)
    ensures Divides(d, if a >= b then a - b else b - a)
  {
    if d > 0 {
      var p, q := a / d, b / d;
      assert a == d * p && b == d * q;
      if a >= b {
        assert a - b == d * (p - q);
        MultipleIsDivisible(d, p - q);
      } else {
        assert b - a == d * (q - p);
        MultipleIsDivisible(d, q - p);
      }
    }
  }

  /** A common divisor of `a` and `b` divides `a % b`. */
  lemma DividesMod(d: nat, a: nat, b: nat)
    requires b > 0 && Divides(d, a) && Divides(d, b)
    ensures Divides(d, a % b)
  {
    var t, p, q := a / b, a / d, b / d;
    assert a == b * t + a % b;
    assert a == d * p && b == d * q;
    assert b * t == d * (q * t);
    assert a % b == d * (p - q * t);
    MultipleIsDivisible(d, p - q * t);
  }

  /** A common divisor of `b` and `a % b` divides `a`. */
  lemma DividesFromMod(d: nat, a: nat, b: nat)
    requires b > 0 && Divides(d, b) && Divides(d, a % b)
    ensures Divides(d, a)
  {
    var t, q, s := a / b, b / d, (a % b) / d;
    assert a == b * t + a % b;
    assert b == d * q && a % b == d * s;
    assert b * t == d * (q * t);
    assert a == d * (q * t + s);
    MultipleIsDivisible(d, q * t + s);
  }

  /** The step of Euclid's algorithm keeps the common divisors: for `b > 0`,
      `d` divides `a` and `b` exactly when it divides `b` and `a % b`. */
  lemma DividesModStep(d: nat, a: nat, b: nat)
    requires b > 0
    ensures Divides(d, a) && Divides(d, b) <==> Divides(d, b) && Divides(d, a % b)
  {
    if Divides(d, a) && Divides(d, b) { DividesMod(d, a, b); }
    if Divides(d, b) && Divides(d, a % b) { DividesFromMod(d, a, b); }
  }

  /** A greatest common divisor is unique. */
  lemma GcdOfIsUnique(g1: nat, g2: nat, xs: seq<nat>)
    requires IsGcdOf(g1, xs) && IsGcdOf(g2, xs)
    ensures g1 == g2
  {
    assert Divides(g1, g2) && Divides(g2, g1);
    DividesAntisymmetric(g1, g2);
  }

  /** One step of a left fold with a two-argument gcd: if `r` is the gcd of
      `xs` and `g` the gcd of `r` and `x`, then `g` is the gcd of `xs + [x]`. */
  lemma GcdOfSnoc(xs: seq<nat>, x: nat, r: nat, g: nat)
    requires IsGcdOf(r, xs)
    requires Divides(g, r) && Divides(g, x)
    requires forall d :: Divides(d, r) && Divides(d, x) ==> Divides(d, g)
    ensures IsGcdOf(g, xs + [x])
  {
    var ys := xs + [x];
    forall k | 0 <= k < |ys| ensures Divides(g, ys[k]) {
      if k < |xs| {
        DividesTransitive(g, r, xs[k]);
      }
    }
    forall d | CommonDivisor(d, ys) ensures Divides(d, g) {
      assert CommonDivisor(d, xs) by {
        forall k | 0 <= k < |xs| ensures Divides(d, xs[k]) { assert ys[k] == xs[k]; }
      }
      assert ys[|xs|] == x;
    }
  }

  /** Once a prefix has gcd 1, the whole sequence has gcd 1: folding further
      elements into a running gcd of 1 cannot change it. */
  lemma GcdOneExtends(xs: seq<nat>, n: nat)
    requires n <= |xs| && IsGcdOf(1, xs[..n])
    ensures IsGcdOf(1, xs)
  {
    forall k | 0 <= k < |xs| ensures Divides(1, xs[k]) { DividesBasics(xs[k]); }
    forall d | CommonDivisor(d, xs) ensures Divides(d, 1) {
      assert CommonDivisor(d, xs[..n]) by {
        forall k | 0 <= k < n ensures Divides(d, xs[..n][k]) { assert xs[..n][k] == xs[k]; }
      }
    }
  }
}
