/** Greatest common divisors of weights: the Euclid function that stands for
    `big.Int.GCD` on non-negative arguments, the left fold `calcGCD` performs
    over a list of weights, and the facts that make that fold a GCD. */
module Euclid {

  /** `d` divides `n`; by convention only 0 is divisible by 0. */
  predicate Divides(d: nat, n: nat) {
    if d == 0 then n == 0 else n % d == 0
  }

  /** `d` divides every element of `s`. */
  predicate CommonDivisor(d: nat, s: seq<nat>) {
    forall i :: 0 <= i < |s| ==> Divides(d, s[i])
  }

  /** `g` is the greatest common divisor of `s` in the divisibility order:
      a common divisor that every common divisor divides. */
  ghost predicate IsGcd(g: nat, s: seq<nat>) {
    CommonDivisor(g, s) && forall d: nat :: CommonDivisor(d, s) ==> Divides(d, g)
  }

  // ---------------------------------------------------------------------
  // Arithmetic about remainders

  /** Euclidean division is unique: a decomposition `x == d * q + r` with
      `0 <= r < d` has the remainder `x % d`. */
  lemma ModUnique(x: int, d: int, q: int, r: int)
    requires d > 0 && 0 <= r < d && x == d * q + r
    ensures x % d == r
  {
    var q0, r0 := x / d, x % d;
    assert x == d * q0 + r0;
    var k := q - q0;
    assert d * k == r0 - r by {
      assert d * q - d * q0 == d * k;
    }
    if k > 0 {
      MulAtLeast(d, k);
      assert false;
    }
  }

  /** A positive multiple of `d` is at least `d`. */
  lemma {:induction false} MulAtLeast(d: nat, k: nat)
    requires k >= 1
    ensures d * k >= d
    decreases k
  {
    if k > 1 {
      MulAtLeast(d, k - 1);
      assert d * k == d * (k - 1) + d;
    }
  }

  /** A multiple of `d` is divisible by `d`. */
  lemma MultipleDivides(d: nat, k: nat)
    ensures Divides(d, d * k)
  {
    if d > 0 {
      ModUnique(d * k, d, k, 0);
    }
  }

  /** One Euclid step keeps every common divisor: what divides `m` and `n`
      divides `m % n`. */
  lemma DividesRemainder(d: nat, m: nat, n: nat)
    requires n > 0 && Divides(d, m) && Divides(d, n)
    ensures Divides(d, m % n)
  {
    var a, b, q := m / d, n / d, m / n;
    assert m == d * a && n == d * b;
    assert m % n == d * (a - q * b) by {
      assert m % n == m - n * q;
      assert n * q == d * (b * q);
    }
    assert a - q * b >= 0;
    MultipleDivides(d, a - q * b);
  }

  /** One Euclid step loses no common divisor: what divides `n` and `m % n`
      divides `m`. */
  lemma DividesFromRemainder(d: nat, m: nat, n: nat)
    requires n > 0 && Divides(d, n) && Divides(d, m % n)
    ensures Divides(d, m)
  {
    var b, c, q := n / d, (m % n) / d, m / n;
    assert n == d * b && m % n == d * c;
    assert m == d * (q * b + c) by {
      assert m == n * q + m % n;
      assert n * q == d * (b * q);
    }
    MultipleDivides(d, q * b + c);
  }

  /** Two numbers that divide each other are equal. */
  lemma DividesAntisymmetric(a: nat, b: nat)
    requires Divides(a, b) && Divides(b, a)
    ensures a == b
  {
    if a > 0 && b > 0 {
      if a < b {
        ModUnique(a, b, 0, a);
      } else if b < a {
        ModUnique(b, a, 0, b);
      }
    }
  }

  // ---------------------------------------------------------------------
  // Euclid's algorithm

  /** Euclid's algorithm on naturals, the value `big.Int.GCD` returns for
      non-negative arguments. */
  function Gcd(m: nat, n: nat): (r: nat)
    ensures Divides(r, m) && Divides(r, n)
    ensures m == 0 ==> r == n
    ensures n == 0 ==> r == m
    ensures r <= m || r <= n
    decreases n
  {
    if n == 0 then m
    else
      assert m % n < n;
      var r := Gcd(n, m % n);
      DividesFromRemainder(r, m, n);
      r
  }

  /** Every common divisor of `m` and `n` divides `Gcd(m, n)`. */
  lemma {:induction false} GcdGreatest(m: nat, n: nat, d: nat)
    requires Divides(d, m) && Divides(d, n)
    ensures Divides(d, Gcd(m, n))
    decreases n
  {
    if n > 0 {
      DividesRemainder(d, m, n);
      GcdGreatest(n, m % n, d);
    }
  }

  // ---------------------------------------------------------------------
  // The fold `calcGCD` performs

  /** The accumulated value of `calcGCD`'s loop over `s`: each element `x`
      replaces the accumulator `z` by `Gcd(x, z)`. The empty list folds to 0,
      which `Gcd(x, 0) == x` turns into the list's first element. */
  function GcdOf(s: seq<nat>): nat
  {
    if s == [] then 0 else Gcd(s[|s| - 1], GcdOf(s[..|s| - 1]))
  }

  /** Appending an element folds it in last. */
  lemma GcdOfSnoc(s: seq<nat>, x: nat)
    ensures GcdOf(s + [x]) == Gcd(x, GcdOf(s))
  {
    assert (s + [x])[..|s|] == s;
  }

  /** A number is its own GCD with itself. */
  lemma GcdSelf(x: nat)
    ensures Gcd(x, x) == x
  {
    if x > 0 {
      assert x % x == 0;
    }
  }

  /** The fold is a greatest common divisor of the list. */
  lemma {:induction false} GcdOfIsGcd(s: seq<nat>)
    ensures IsGcd(GcdOf(s), s)
  {
    if s != [] {
      var init, x := s[..|s| - 1], s[|s| - 1];
      var z := GcdOf(init);
      GcdOfIsGcd(init);
      assert s == init + [x];
      forall i | 0 <= i < |s|
        ensures Divides(GcdOf(s), s[i])
      {
        if i < |s| - 1 {
          DividesTransitive(GcdOf(s), z, init[i]);
        }
      }
      forall d: nat | CommonDivisor(d, s)
        ensures Divides(d, GcdOf(s))
      {
        assert CommonDivisor(d, init) by {
          forall i | 0 <= i < |init| ensures Divides(d, init[i]) {
            assert init[i] == s[i];
          }
        }
        assert Divides(d, x) by { assert x == s[|s| - 1]; }
        GcdGreatest(x, z, d);
      }
    }
  }

  /** Divisibility is transitive. */
  lemma DividesTransitive(a: nat, b: nat, c: nat)
    requires Divides(a, b) && Divides(b, c)
    ensures Divides(a, c)
  {
    if a > 0 && b > 0 {
      var k, j := b / a, c / b;
      assert b == a * k && c == b * j;
      assert c == a * (k * j);
      MultipleDivides(a, k * j);
    }
  }

  /** The greatest common divisor is unique. */
  lemma IsGcdUnique(g: nat, h: nat, s: seq<nat>)
    requires IsGcd(g, s) && IsGcd(h, s)
    ensures g == h
  {
    DividesAntisymmetric(g, h);
  }

  /** The fold does not depend on the order of the list: any permutation of
      the list folds to the same value. This is what makes `calcGCD` over a
      Go map's randomly ordered weights deterministic. */
  lemma GcdOfPermutation(s: seq<nat>, t: seq<nat>)
    requires multiset(s) == multiset(t)
    ensures GcdOf(s) == GcdOf(t)
  {
    GcdOfIsGcd(s);
    GcdOfIsGcd(t);
    forall d: nat | CommonDivisor(d, s) ensures CommonDivisor(d, t) {
      forall j | 0 <= j < |t| ensures Divides(d, t[j]) {
        assert t[j] in multiset(s);
        var i :| 0 <= i < |s| && s[i] == t[j];
      }
    }
    forall d: nat | CommonDivisor(d, t) ensures CommonDivisor(d, s) {
      forall i | 0 <= i < |s| ensures Divides(d, s[i]) {
        assert s[i] in multiset(t);
        var j :| 0 <= j < |t| && t[j] == s[i];
      }
    }
    DividesAntisymmetric(GcdOf(s), GcdOf(t));
  }

  /** The fold is zero exactly when every element is zero. */
  lemma GcdOfZero(s: seq<nat>)
    ensures GcdOf(s) == 0 <==> forall i :: 0 <= i < |s| ==> s[i] == 0
  {
    GcdOfIsGcd(s);
    if GcdOf(s) != 0 && forall i :: 0 <= i < |s| ==> s[i] == 0 {
      var g := GcdOf(s);
      assert CommonDivisor(g + 1, s);
      ModUnique(g, g + 1, 0, g);
    }
  }

  /** The fold never exceeds a positive element. */
  lemma GcdOfBounded(s: seq<nat>, i: int)
    requires 0 <= i < |s| && s[i] > 0
    ensures 0 < GcdOf(s) <= s[i]
  {
    GcdOfIsGcd(s);
    GcdOfZero(s);
    var g := GcdOf(s);
    assert Divides(g, s[i]);
    if g > s[i] {
      ModUnique(s[i], g, 0, s[i]);
    }
  }
}
