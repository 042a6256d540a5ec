/** Division and remainder facts, kept apart from everything else. */
module Arithmetic {

  lemma MulBound(d: int, q: int)
    requires d > 0
    ensures q >= 1 ==> d * q >= d
    ensures q <= -1 ==> d * q <= -d
  {
  }

  lemma MulMonotone(a: int, b: int, c: int)
    requires c >= 0 && a <= b
    ensures a * c <= b * c && c * a <= c * b
  {
  }

  /** Quotient and remainder are determined by their defining equation. */
  lemma DivModUnique(n: int, m: int, q: int, r: int)
    requires m > 0 && n == m * q + r && 0 <= r < m
    ensures n % m == r && n / m == q
  {
    var k := q - n / m;
    assert m * k == n % m - r;
    MulBound(m, k);
  }

  lemma Distribute(m: int, a: int, b: int)
    ensures m * (a + b) == m * a + m * b && (a + b) * m == a * m + b * m
  {
  }

  lemma Reassociate(a: int, b: int, c: int)
    ensures (a * b) * c == a * (b * c) && (a * b) * c == b * (a * c)
  {
  }

  lemma DivTwice(v: int, a: int, b: int)
    requires a > 0 && b > 0
    ensures (v / a) / b == v / (a * b)
  {
    var q, r, s := v / a / b, (v / a) % b, v % a;
    assert v == a * (b * q + r) + s;
    Distribute(a, b * q, r);
    Reassociate(a, b, q);
    MulMonotone(r, b - 1, a);
    Distribute(a, b, -1);
    MulBound(a, b);
    DivModUnique(v, a * b, q, a * r + s);
  }

  /** n mod (256 m), from the parts of n above and below the last byte. */
  lemma SplitMod(n: int, m: int)
    requires m > 0
    ensures 256 * ((n / 256) % m) + n % 256 == n % (256 * m)
  {
    var h, l := n / 256, n % 256;
    var q, r := h / m, h % m;
    assert n == 256 * (m * q + r) + l;
    Reassociate(256, m, q);
    DivModUnique(n, 256 * m, q, 256 * r + l);
  }

  lemma CarryMod(h: int, l: int, c: int, m: int)
    requires m > 0 && 0 <= l < 256 && 0 <= c <= 1
    ensures 256 * ((2 * h + l / 128) % m) + ((2 * l) % 256 + c) == (2 * (256 * h + l) + c) % (256 * m)
  {
    var upper, lower := 2 * h + l / 128, (2 * l) % 256 + c;
    DivModUnique(256 * upper + lower, 256, upper, lower);
    SplitMod(256 * upper + lower, m);
  }

  lemma OddComplement(p: int, y: int)
    requires p % 4 == 3 && y % 2 == 1
    ensures (p - y) % 2 == 0
  {
    assert p - y == 2 * (2 * (p / 4) + 1 - y / 2);
  }

  lemma ModOfMod(x: int)
    ensures (x % 256) % 128 == x % 128
  {
  }

  lemma NegHalves(h: int)
    ensures (-(2 * h)) / 2 == -h && (-(2 * h)) % 2 == 0
  {
  }

  /** Halving, rounding down to a multiple of h and doubling rounds down to one of 2h. */
  lemma DoubleMultiple(t: int, h: int, a: int)
    requires h > 0 && a == h * ((t / 2) / h)
    ensures 2 * a == (2 * h) * (t / (2 * h))
  {
    DivTwice(t, 2, h);
    Reassociate(2, h, t / (2 * h));
  }
}
