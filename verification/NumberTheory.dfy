/** Arithmetic the curve code rests on: powers, congruence, Euclid's lemma and
    Fermat's little theorem (proved through the binomial theorem). */
module NumberTheory {
  import opened Arithmetic

  function Pow(b: int, e: nat): (r: int)
    ensures b > 0 ==> r > 0
  {
    if e == 0 then 1 else b * Pow(b, e - 1)
  }

  /** `big.Int.Exp(b, e, m)` for a modulus m > 0. */
  function ExpMod(b: int, e: nat, m: int): nat
    requires m > 0
  {
    Pow(b, e) % m
  }

  ghost predicate IsPrime(p: int) {
    2 <= p && forall d :: 2 <= d < p ==> p % d != 0
  }

  ghost predicate Divides(d: int, x: int) {
    exists q :: d * q == x
  }

  /** a and b leave the same remainder modulo m. */
  ghost predicate Cong(a: int, b: int, m: int) {
    Divides(m, a - b)
  }

  // ---------- divisibility and remainders ----------

  lemma DividesIntro(d: int, q: int, x: int)
    requires d * q == x
    ensures Divides(d, x)
  {
  }

  lemma DividesMul(d: int, x: int, k: int)
    requires Divides(d, x)
    ensures Divides(d, k * x) && Divides(d, x * k)
  {
    var q :| d * q == x;
    assert d * (q * k) == x * k;
  }

  lemma DividesSum(d: int, x: int, y: int)
    requires Divides(d, x) && Divides(d, y)
    ensures Divides(d, x + y) && Divides(d, x - y)
  {
    var q :| d * q == x;
    var r :| d * r == y;
    assert d * (q + r) == x + y && d * (q - r) == x - y;
  }

  /** A multiple of d strictly between -d and d is zero. */
  lemma SmallMultipleIsZero(d: int, x: int)
    requires d > 0 && Divides(d, x) && -d < x < d
    ensures x == 0
  {
    var q :| d * q == x;
    MulBound(d, q);
  }

  lemma ModIsCong(a: int, m: int)
    requires m > 0
    ensures Cong(a, a % m, m) && Cong(a % m, a, m)
  {
    assert a - a % m == m * (a / m);
    assert a % m - a == m * (-(a / m));
  }

  lemma CongTrans(a: int, b: int, c: int, m: int)
    requires Cong(a, b, m) && Cong(b, c, m)
    ensures Cong(a, c, m)
  {
    DividesSum(m, a - b, b - c);
    assert (a - b) + (b - c) == a - c;
  }

  /** Congruence is equality of remainders. */
  lemma CongIffMod(a: int, b: int, m: int)
    requires m > 0
    ensures Cong(a, b, m) <==> a % m == b % m
  {
    ModIsCong(a, m);
    ModIsCong(b, m);
    if Cong(a, b, m) {
      CongTrans(a % m, a, b, m);
      CongTrans(a % m, b, b % m, m);
      SmallMultipleIsZero(m, a % m - b % m);
    }
    if a % m == b % m {
      CongTrans(a, a % m, b, m);
    }
  }

  lemma CongMul(a: int, b: int, c: int, d: int, m: int)
    requires Cong(a, b, m) && Cong(c, d, m)
    ensures Cong(a * c, b * d, m)
  {
    DividesMul(m, a - b, c);
    DividesMul(m, c - d, b);
    DividesSum(m, c * (a - b), b * (c - d));
    assert c * (a - b) + b * (c - d) == a * c - b * d;
  }

  lemma CongPow(a: int, b: int, e: nat, m: int)
    requires Cong(a, b, m)
    ensures Cong(Pow(a, e), Pow(b, e), m)
  {
    if e == 0 {
      DividesIntro(m, 0, 0);
    } else {
      CongPow(a, b, e - 1, m);
      CongMul(a, b, Pow(a, e - 1), Pow(b, e - 1), m);
    }
  }

  // ---------- powers ----------

  lemma {:induction false} PowAdd(b: int, i: nat, j: nat)
    ensures Pow(b, i + j) == Pow(b, i) * Pow(b, j)
  {
    if i > 0 {
      PowAdd(b, i - 1, j);
      Reassociate(b, Pow(b, i - 1), Pow(b, j));
      assert Pow(b, i + j) == b * Pow(b, (i - 1) + j);
    }
  }

  lemma {:induction false} PowOfProduct(a: int, b: int, e: nat)
    ensures Pow(a * b, e) == Pow(a, e) * Pow(b, e)
  {
    if e > 0 {
      PowOfProduct(a, b, e - 1);
      Interchange(a, b, Pow(a, e - 1), Pow(b, e - 1));
    }
  }

  lemma Interchange(a: int, b: int, s: int, t: int)
    ensures (a * b) * (s * t) == (a * s) * (b * t)
  {
    assert b * (s * t) == s * (b * t);
    assert a * (b * (s * t)) == (a * b) * (s * t);
    assert a * (s * (b * t)) == (a * s) * (b * t);
  }

  lemma {:induction false} PowMonotone(b: int, i: nat, j: nat)
    requires b >= 1 && i <= j
    ensures Pow(b, i) <= Pow(b, j)
    decreases j
  {
    if i < j {
      PowMonotone(b, i, j - 1);
      assert b * Pow(b, j - 1) >= Pow(b, j - 1);
    }
  }

  // ---------- Euclid's lemma ----------

  /** If a prime divides k*c with 0 < k < p, it divides c. */
  lemma {:induction false} EuclidSmall(p: int, k: int, c: int)
    requires IsPrime(p) && 0 < k < p && Divides(p, k * c)
    ensures Divides(p, c)
    decreases k
  {
    if k == 1 {
    } else {
      var q, r := p / k, p % k;
      assert p == k * q + r && 0 < r < k;
      // p divides p*c - q*(k*c) = r*c
      DividesIntro(p, c, p * c);
      DividesMul(p, k * c, q);
      DividesSum(p, p * c, q * (k * c));
      assert p * c - q * (k * c) == r * c;
      EuclidSmall(p, r, c);
    }
  }

  /** Euclid's lemma: a prime dividing a product divides one of the factors. */
  lemma Euclid(p: int, a: int, b: int)
    requires IsPrime(p) && Divides(p, a * b)
    ensures Divides(p, a) || Divides(p, b)
  {
    var k := a % p;
    ModIsCong(a, p);
    if k == 0 {
    } else {
      DividesMul(p, a - k, b);
      DividesSum(p, a * b, (a - k) * b);
      assert a * b - (a - k) * b == k * b;
      EuclidSmall(p, k, b);
    }
  }

  // ---------- binomial theorem and Fermat's little theorem ----------

  function Choose(n: nat, k: nat): nat {
    if k == 0 then 1
    else if n == 0 then 0
    else Choose(n - 1, k - 1) + Choose(n - 1, k)
  }

  lemma {:induction false} ChooseBeyond(n: nat, k: nat)
    requires n < k
    ensures Choose(n, k) == 0
  {
    if n > 0 {
      ChooseBeyond(n - 1, k - 1);
      ChooseBeyond(n - 1, k);
    }
  }

  lemma {:induction false} ChooseAll(n: nat)
    ensures Choose(n, n) == 1
  {
    if n > 0 {
      ChooseAll(n - 1);
      ChooseBeyond(n - 1, n);
    }
  }

  /** k * C(n,k) = n * C(n-1,k-1) */
  lemma {:induction false} Absorption(n: nat, k: nat)
    requires 0 < n && 0 < k
    ensures k * Choose(n, k) == n * Choose(n - 1, k - 1)
  {
    if n == 1 {
      if k > 1 { ChooseBeyond(0, k - 1); }
    } else {
      Absorption(n - 1, k);
      if k > 1 {
        Absorption(n - 1, k - 1);
      }
      var u, v := Choose(n - 1, k - 1), Choose(n - 1, k);
      var w, z := if k > 1 then Choose(n - 2, k - 2) else 0, Choose(n - 2, k - 1);
      assert u == w + z;
      assert (k - 1) * u == (n - 1) * w;
      AbsorptionSum(n, k, u, v, w, z);
    }
  }

  lemma AbsorptionSum(n: int, k: int, u: int, v: int, w: int, z: int)
    requires u == w + z && k * v == (n - 1) * z && (k - 1) * u == (n - 1) * w
    ensures k * (u + v) == n * u
  {
    assert k * (u + v) == (k - 1) * u + u + k * v;
    assert (n - 1) * u == (n - 1) * w + (n - 1) * z;
  }

  /** A prime p divides C(p,k) for 0 < k < p. */
  lemma PrimeDividesChoose(p: int, k: int)
    requires IsPrime(p) && 0 < k < p
    ensures Divides(p, Choose(p, k))
  {
    Absorption(p, k);
    DividesIntro(p, Choose(p - 1, k - 1), k * Choose(p, k));
    EuclidSmall(p, k, Choose(p, k));
  }

  /** Terms k..n of the expansion of (a+1)^n. */
  function Expansion(n: nat, a: int, k: nat): int
    decreases n + 1 - k
  {
    if k > n then 0 else Choose(n, k) * Pow(a, k) + Expansion(n, a, k + 1)
  }

  /** Pascal's rule summed: the tail of row n+1 in terms of tails of row n. */
  lemma {:induction false} ExpansionStep(n: nat, a: int, k: nat)
    requires 0 < k <= n + 1
    ensures Expansion(n + 1, a, k) == a * Expansion(n, a, k - 1) + Expansion(n, a, k)
    decreases n + 1 - k
  {
    var lo, hi, w := Choose(n, k - 1), Choose(n, k), Pow(a, k - 1);
    if k == n + 1 {
      ChooseBeyond(n, n + 1);
      assert Expansion(n + 1, a, k + 1) == 0 && Expansion(n, a, k) == 0;
      assert Expansion(n, a, k - 1) == lo * w;
      PascalTerm(a, lo, 0, w, 0);
    } else {
      ExpansionStep(n, a, k + 1);
      PascalTerm(a, lo, hi, w, Expansion(n, a, k));
    }
  }

  lemma PascalTerm(a: int, lo: int, hi: int, w: int, rest: int)
    ensures (lo + hi) * (a * w) == a * (lo * w) + hi * (a * w)
    ensures a * (lo * w + rest) == a * (lo * w) + a * rest
  {
    assert lo * (a * w) == a * (lo * w);
  }

  /** The binomial theorem for a + 1. */
  lemma {:induction false} Binomial(n: nat, a: int)
    ensures Pow(a + 1, n) == Expansion(n, a, 0)
  {
    if n == 0 {
      assert Expansion(0, a, 1) == 0;
    } else {
      Binomial(n - 1, a);
      ExpansionStep(n - 1, a, 1);
      var e := Expansion(n - 1, a, 0);
      assert e == 1 + Expansion(n - 1, a, 1);
      assert (a + 1) * e == a * e + e;
    }
  }

  /** All middle terms vanish modulo a prime. */
  lemma {:induction false} ExpansionModPrime(p: int, a: int, k: nat)
    requires IsPrime(p) && 0 < k <= p
    ensures Cong(Expansion(p, a, k), Pow(a, p), p)
    decreases p - k
  {
    if k == p {
      ChooseAll(p);
      assert Expansion(p, a, p + 1) == 0;
      DividesIntro(p, 0, 0);
    } else {
      PrimeDividesChoose(p, k);
      DividesMul(p, Choose(p, k), Pow(a, k));
      ExpansionModPrime(p, a, k + 1);
      var t, r := Choose(p, k) * Pow(a, k), Expansion(p, a, k + 1);
      DividesSum(p, t, r - Pow(a, p));
      assert t + (r - Pow(a, p)) == Expansion(p, a, k) - Pow(a, p);
    }
  }

  lemma {:induction false} FermatNat(p: int, a: nat)
    requires IsPrime(p)
    ensures Cong(Pow(a, p), a, p)
  {
    DividesIntro(p, 0, 0);
    if a == 0 {
      assert Pow(0, p) == 0 * Pow(0, p - 1);
    } else {
      FermatNat(p, a - 1);
      Binomial(p, a - 1);
      ExpansionModPrime(p, a - 1, 1);
      var e := Expansion(p, a - 1, 1);
      assert Pow(a, p) == 1 + e;
      CongTrans(e, Pow(a - 1, p), a - 1, p);
      assert e - (a - 1) == Pow(a, p) - a;
    }
  }

  /** Fermat's little theorem: a^p = a (mod p) for every integer a. */
  lemma Fermat(p: int, a: int)
    requires IsPrime(p)
    ensures Cong(Pow(a, p), a, p)
  {
    var b := a % p;
    ModIsCong(a, p);
    CongPow(a, b, p, p);
    FermatNat(p, b);
    CongTrans(Pow(a, p), Pow(b, p), b, p);
    CongTrans(Pow(a, p), b, a, p);
  }
}
