/** Integer facts behind the referral-code generator: powers, Euclidean
    division, greatest common divisors, Bezout coefficients and the
    full-cycle property of stepping by a unit modulo n. */
module NumberTheory {

  /** b^e, the size of the code space of length e over an alphabet of size b. */
  function Pow(b: nat, e: nat): (r: nat)
    ensures b >= 1 ==> r >= 1
  {
    if e == 0 then 1 else b * Pow(b, e - 1)
  }

  lemma {:induction false} PowMonotone(b: nat, e1: nat, e2: nat)
    requires b >= 1 && e1 <= e2
    ensures Pow(b, e1) <= Pow(b, e2)
    decreases e2
  {
    if e1 < e2 {
      PowMonotone(b, e1, e2 - 1);
      MulAtLeast(Pow(b, e2 - 1), b);
    }
  }

  lemma PowAtLeastTwo(b: nat, e: nat)
    requires b >= 2 && e >= 1
    ensures Pow(b, e) >= 2
  {
    PowMonotone(b, 1, e);
  }

  lemma MulAtLeast(n: int, t: int)
    requires n > 0 && t >= 1
    ensures n * t >= n
  {
    assert n * t == n * (t - 1) + n;
  }

  lemma MulMonotone(n: int, a: int, b: int)
    requires n >= 0 && a <= b
    ensures n * a <= n * b
  {
    assert n * b - n * a == n * (b - a);
  }

  /** One more base-a digit in front of a number below p gives a number below a*p. */
  lemma DigitBound(i: int, a: int, v: int, p: int)
    requires 0 <= i < a && 0 <= v < p
    ensures 0 <= i + a * v < a * p
  {
    MulMonotone(a, 0, v);
    MulMonotone(a, v, p - 1);
    assert a * (p - 1) == a * p - a;
  }

  /** Euclidean quotient and remainder are the unique q, r with x == n*q + r, 0 <= r < n. */
  lemma DivModUnique(x: int, n: int, q: int, r: int)
    requires 0 < n && 0 <= r < n && x == n * q + r
    ensures x / n == q && x % n == r
  {
    var t := q - x / n;
    assert x == n * (x / n) + x % n;
    assert n * t == x % n - r by {
      assert n * q == n * (x / n) + n * t;
    }
    if t >= 1 {
      MulAtLeast(n, t);
      assert false;
    } else if t <= -1 {
      MulAtLeast(n, -t);
      assert false;
    }
  }

  lemma ModMultiple(n: int, t: int)
    requires n > 0
    ensures (n * t) % n == 0
  {
    DivModUnique(n * t, n, t, 0);
  }

  lemma ModAddMultiple(x: int, n: int, t: int)
    requires n > 0
    ensures (x + n * t) % n == x % n
  {
    DivModUnique(x + n * t, n, x / n + t, x % n);
  }

  /** Equal remainders mean the difference is a multiple of n. */
  lemma ModEqualDiff(a: int, b: int, n: int)
    requires n > 0 && a % n == b % n
    ensures (a - b) % n == 0
  {
    assert a - b == n * (a / n - b / n);
    ModMultiple(n, a / n - b / n);
  }

  /** Reducing the left operand of a sum first does not change the sum's remainder. */
  lemma ModAddLeft(a: int, b: int, n: int)
    requires n > 0
    ensures (a % n + b) % n == (a + b) % n
  {
    ModAddMultiple(a % n + b, n, a / n);
  }

  /** Dividing by a*b is dividing by a and then by b, and the remainder
      modulo a*b is the low digit plus a times the next remainder. */
  lemma DivModOfProduct(x: nat, a: nat, b: nat)
    requires a > 0 && b > 0
    ensures x / a / b == x / (a * b)
    ensures x % (a * b) == x % a + a * ((x / a) % b)
  {
    var q1, r1 := x / a, x % a;
    var q2, r2 := q1 / b, q1 % b;
    ProductSplit(x, a, b, q1, r1, q2, r2);
    DigitBound(r1, a, r2, b);
    DivModUnique(x, a * b, q2, r1 + a * r2);
  }

  /** The ring identity behind DivModOfProduct. */
  lemma ProductSplit(x: int, a: int, b: int, q1: int, r1: int, q2: int, r2: int)
    requires x == a * q1 + r1 && q1 == b * q2 + r2
    ensures x == (a * b) * q2 + (r1 + a * r2)
  {
    calc {
      x;
      a * (b * q2 + r2) + r1;
      (a * b) * q2 + (r1 + a * r2);
    }
  }

  /** d divides n; 0 divides only 0. */
  predicate Divides(d: nat, n: nat)
  {
    if d == 0 then n == 0 else n % d == 0
  }

  /** g is a greatest common divisor of a and b in the divisibility order. */
  ghost predicate IsGcd(a: nat, b: nat, g: nat)
  {
    && Divides(g, a) && Divides(g, b)
    && forall d: nat :: Divides(d, a) && Divides(d, b) ==> Divides(d, g)
  }

  /** Euclid's recursion; its meaning is stated by GcdIsGreatest. */
  function Gcd(a: nat, b: nat): nat
    decreases b
  {
    if b == 0 then a else Gcd(b, a % b)
  }

  lemma DivisorsOfRemainder(d: nat, a: nat, b: nat)
    requires b > 0
    ensures Divides(d, a) && Divides(d, b) <==> Divides(d, b) && Divides(d, a % b)
  {
    if d > 0 {
      if a % d == 0 && b % d == 0 {
        CommonDivisorOfRemainder(d, a, b);
      }
      if b % d == 0 && (a % b) % d == 0 {
        CommonDivisorOfDividend(d, a, b);
      }
    }
  }

  /** A common divisor of a and b divides a % b. */
  lemma CommonDivisorOfRemainder(d: nat, a: nat, b: nat)
    requires b > 0 && d > 0 && a % d == 0 && b % d == 0
    ensures (a % b) % d == 0
  {
    var q, r := a / b, a % b;
    var x, y := a / d, b / d;
    assert a == b * q + r;
    assert a == d * x && b == d * y;
    RemainderOfMultiples(d, x, y, q, r);
    ModMultiple(d, x - y * q);
  }

  /** A common divisor of b and a % b divides a. */
  lemma CommonDivisorOfDividend(d: nat, a: nat, b: nat)
    requires b > 0 && d > 0 && b % d == 0 && (a % b) % d == 0
    ensures a % d == 0
  {
    var q, r := a / b, a % b;
    var y, z := b / d, r / d;
    assert a == b * q + r;
    assert b == d * y && r == d * z;
    SumOfMultiples(d, y, q, z, a);
    ModMultiple(d, y * q + z);
  }

  lemma RemainderOfMultiples(d: int, x: int, y: int, q: int, r: int)
    requires d * x == (d * y) * q + r
    ensures r == d * (x - y * q)
  {
  }

  lemma SumOfMultiples(d: int, y: int, q: int, z: int, a: int)
    requires a == (d * y) * q + d * z
    ensures a == d * (y * q + z)
  {
  }

  lemma {:induction false} GcdIsGreatest(a: nat, b: nat)
    ensures IsGcd(a, b, Gcd(a, b))
    decreases b
  {
    if b == 0 {
      if a > 0 { ModMultiple(a, 1); }
    } else {
      GcdIsGreatest(b, a % b);
      forall d: nat
        ensures Divides(d, a) && Divides(d, b) <==> Divides(d, b) && Divides(d, a % b)
      {
        DivisorsOfRemainder(d, a, b);
      }
      DivisorsOfRemainder(Gcd(a, b), a, b);
    }
  }

  /** A divisor of a positive number is at most that number. */
  lemma DivisorBound(d: nat, n: nat)
    requires n > 0 && Divides(d, n)
    ensures 0 < d <= n
  {
    assert n == d * (n / d) + n % d;
    assert n / d != 0;
    MulAtLeast(d, n / d);
  }

  /** There is only one greatest common divisor. */
  lemma GcdUnique(a: nat, b: nat, g1: nat, g2: nat)
    requires IsGcd(a, b, g1) && IsGcd(a, b, g2)
    ensures g1 == g2
  {
    assert Divides(g1, g2) && Divides(g2, g1);
    if g1 > 0 && g2 > 0 {
      DivisorBound(g1, g2);
      DivisorBound(g2, g1);
    }
  }

  lemma GcdSymmetric(a: nat, b: nat)
    ensures Gcd(a, b) == Gcd(b, a)
  {
    GcdIsGreatest(a, b);
    GcdIsGreatest(b, a);
    GcdUnique(a, b, Gcd(a, b), Gcd(b, a));
  }

  lemma GcdWithOne(n: nat)
    ensures Gcd(1, n) == 1
  {
    GcdIsGreatest(1, n);
    DivisorBound(Gcd(1, n), 1);
  }

  /** The examples of the service's Euclid: gcd(48, 18) = 6 and gcd(101, 103) = 1. */
  lemma GcdExamples()
    ensures Gcd(48, 18) == 6 && Gcd(101, 103) == 1
  {
    assert Gcd(48, 18) == Gcd(18, 12) == Gcd(12, 6) == Gcd(6, 0);
    assert Gcd(101, 103) == Gcd(103, 101) == Gcd(101, 2) == Gcd(2, 1) == Gcd(1, 0);
  }

  /** A unit modulo n (n > 1) is not a multiple of n. */
  lemma UnitNotMultiple(g: nat, n: nat)
    requires n > 1 && Gcd(g, n) == 1
    ensures g % n != 0
  {
    GcdIsGreatest(g, n);
    ModMultiple(n, 1);
    DivModUnique(1, n, 0, 1);
  }

  /** Coefficients x, y with x*a + y*b == Gcd(a, b) (extended Euclid). */
  function Bezout(a: nat, b: nat): (xy: (int, int))
    ensures xy.0 * a + xy.1 * b == Gcd(a, b)
    decreases b
  {
    if b == 0 then (1, 0)
    else
      var (x, y) := Bezout(b, a % b);
      var q := a / b;
      assert a % b == a - b * q;
      assert y * a + (x - q * y) * b == x * b + y * (a - b * q);
      (y, x - q * y)
  }

  /** If n divides k*g and g is a unit modulo n, then n divides k. */
  lemma UnitCancels(g: nat, n: nat, k: int)
    requires n > 0 && Gcd(g, n) == 1 && (k * g) % n == 0
    ensures k % n == 0
  {
    var xy := Bezout(g, n);
    var m := (k * g) / n;
    assert k * g == n * m + (k * g) % n;
    CancelIdentity(k, g, n, xy.0, xy.1, m);
    ModMultiple(n, xy.0 * m + k * xy.1);
  }

  /** The ring identity behind UnitCancels. */
  lemma CancelIdentity(k: int, g: int, n: int, x: int, y: int, m: int)
    requires x * g + y * n == 1 && k * g == n * m
    ensures k == n * (x * m + k * y)
  {
    calc {
      k;
      k * (x * g + y * n);
      x * (k * g) + n * (k * y);
      x * (n * m) + n * (k * y);
      n * (x * m + k * y);
    }
  }

  /** The residue reached from s after k steps of adding g modulo n. */
  function Orbit(s: nat, g: nat, n: nat, k: nat): nat
    requires n > 0
  {
    if k == 0 then s else (Orbit(s, g, n, k - 1) + g) % n
  }

  lemma {:induction false} OrbitClosedForm(s: nat, g: nat, n: nat, k: nat)
    requires 0 < n && s < n
    ensures Orbit(s, g, n, k) == (s + k * g) % n
  {
    if k == 0 {
      DivModUnique(s, n, 0, s);
    } else {
      OrbitClosedForm(s, g, n, k - 1);
      var before := s + (k - 1) * g;
      ModAddLeft(before, g, n);
      MulSucc(k - 1, g);
    }
  }

  lemma MulSucc(k: nat, g: nat)
    ensures k * g + g == (k + 1) * g
  {
  }

  lemma OrbitInjective(s: nat, g: nat, n: nat, i: nat, j: nat)
    requires 0 < n && s < n && Gcd(g, n) == 1 && i < j < n
    ensures Orbit(s, g, n, i) != Orbit(s, g, n, j)
  {
    OrbitClosedForm(s, g, n, i);
    OrbitClosedForm(s, g, n, j);
    if Orbit(s, g, n, i) == Orbit(s, g, n, j) {
      ModEqualDiff(s + j * g, s + i * g, n);
      assert (s + j * g) - (s + i * g) == (j - i) * g;
      UnitCancels(g, n, j - i);
      DivModUnique(j - i, n, 0, j - i);
    }
  }

  /** Every residue below n is visited within the first n steps. */
  lemma OrbitCovers(s: nat, g: nat, n: nat, r: nat) returns (k: nat)
    requires 0 < n && s < n && Gcd(g, n) == 1 && r < n
    ensures k < n && Orbit(s, g, n, k) == r
  {
    var xy := Bezout(g, n);
    k := ((r - s) * xy.0) % n;
    CoverStep(s, r, xy.0, xy.1, g, n, k);
    OrbitAt(s, g, n, k, r);
  }

  /** The arithmetic behind OrbitCovers: with x*g + y*n == 1, taking
      k == ((r - s) * x) mod n steps of size g moves s to r modulo n. */
  lemma CoverStep(s: nat, r: nat, x: int, y: int, g: nat, n: nat, k: nat)
    requires 0 < n && r < n && x * g + y * n == 1 && k == ((r - s) * x) % n
    ensures (s + k * g) % n == r
  {
    var d := r - s;
    var w := (d * x) / n;
    var t := -(d * y) - w * g;
    assert s + k * g == r + n * t by {
      RingStep(s, r, d, x, y, g, n, w, k);
    }
    ModAddMultiple(r, n, t);
    DivModUnique(r, n, 0, r);
    assert (r + n * t) % n == r;
  }

  lemma RingStep(s: int, r: int, d: int, x: int, y: int, g: int, n: int, w: int, k: int)
    requires d == r - s && x * g + y * n == 1 && d * x == n * w + k
    ensures s + k * g == r + n * (-(d * y) - w * g)
  {
    assert k * g == (d * x) * g - (n * w) * g;
    assert (d * x) * g == d * (x * g);
    assert d * (x * g) == d * (1 - y * n);
    assert d * (1 - y * n) == d - n * (d * y);
    assert (n * w) * g == n * (w * g);
  }

  lemma OrbitAt(s: nat, g: nat, n: nat, k: nat, r: nat)
    requires 0 < n && s < n && (s + k * g) % n == r
    ensures Orbit(s, g, n, k) == r
  {
    OrbitClosedForm(s, g, n, k);
  }

  /** After n steps the orbit is back at its start. */
  lemma OrbitReturns(s: nat, g: nat, n: nat)
    requires 0 < n && s < n
    ensures Orbit(s, g, n, n) == s
  {
    OrbitClosedForm(s, g, n, n);
    ModAddMultiple(s, n, g);
    DivModUnique(s, n, 0, s);
  }

  /** Residue r is reached within the first n steps from s. */
  ghost predicate Visits(s: nat, g: nat, n: nat, r: nat)
    requires n > 0
  {
    exists k :: 0 <= k < n && Orbit(s, g, n, k) == r
  }

  /** Stepping by a unit modulo n from s < n returns to s after exactly n
      steps, and not before; in between it visits every residue once. */
  lemma FullCycle(s: nat, g: nat, n: nat)
    requires 0 < n && s < n && Gcd(g, n) == 1
    ensures Orbit(s, g, n, n) == s
    ensures forall k :: 0 < k < n ==> Orbit(s, g, n, k) != s
    ensures forall i, j :: 0 <= i < j < n ==> Orbit(s, g, n, i) != Orbit(s, g, n, j)
    ensures forall r :: 0 <= r < n ==> Visits(s, g, n, r)
  {
    OrbitReturns(s, g, n);
    forall i, j | 0 <= i < j < n
      ensures Orbit(s, g, n, i) != Orbit(s, g, n, j)
    {
      OrbitInjective(s, g, n, i, j);
    }
    forall k | 0 < k < n
      ensures Orbit(s, g, n, k) != s
    {
      OrbitInjective(s, g, n, 0, k);
    }
    forall r | 0 <= r < n
      ensures Visits(s, g, n, r)
    {
      var k := OrbitCovers(s, g, n, r);
    }
  }
}
