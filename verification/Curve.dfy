/** Point decompression and the elliptic-curve group of secp160r1.go, over an
    arbitrary short-Weierstrass curve y^2 = x^3 - 3x + b with p = 3 (mod 4). */
module Curve {
  import opened Options
  import opened NumberTheory
  import opened Octets
  import opened Arithmetic
  import opened Bytes
  import opened Groups

  datatype Params = Params(p: nat, n: nat, b: nat, gx: nat, gy: nat)

  const SECP160R1 := Params(
    0xffffffffffffffffffffffffffffffff7fffffff,
    0x100000000000000000001f4c8f927aed3ca752257,
    0x1c97befc54bd7a8b65acf89f81d4d4adc565fa45,
    0x4a96b5688ef573284664698968c38bb913cbfc82,
    0x23a628553168947d59dcc912042351377ac5fb32)

  /** Points with affine coordinates, plus the point at infinity. */
  datatype Point = Infinity | Affine(x: nat, y: nat)

  ghost predicate ValidField(c: Params) {
    IsPrime(c.p) && c.p % 4 == 3
  }

  /** x^3 - 3x + b reduced modulo p. */
  function Rhs(c: Params, x: int): nat
    requires c.p > 0
  {
    (x * x * x - 3 * x + c.b) % c.p
  }

  predicate OnCurve(c: Params, P: Point)
    requires c.p > 0
  {
    P.Affine? ==> 0 <= P.x < c.p && 0 <= P.y < c.p && (P.y * P.y) % c.p == Rhs(c, P.x)
  }

  function Neg(c: Params, P: Point): Point
    requires c.p > 0
  {
    match P
    case Infinity => Infinity
    case Affine(x, y) => Affine(x, (c.p - y) % c.p)
  }

  /** The generator. */
  function G(c: Params): Point {
    Affine(c.gx, c.gy)
  }

  /** The x result of a curve operation; Go's generic code reports (0, 0) for infinity. */
  function XOf(P: Point): nat {
    if P.Infinity? then 0 else P.x
  }

  /** The point of abscissa x with an even ordinate, if the candidate root checks. */
  function Lift(c: Params, x: nat): Option<Point>
    requires c.p > 0
  {
    if x >= c.p then None else
    var yy := Rhs(c, x);
    var y := ExpMod(yy, (c.p + 1) / 4, c.p);
    if (y * y) % c.p != yy then None
    else Some(Affine(x, if y % 2 == 1 then c.p - y else y))
  }

  method PointFromX(c: Params, xBytes: bytes) returns (r: Option<Point>)
    requires c.p > 0
    ensures r == Lift(c, FromBE(xBytes))
  {
    var xInt := FromBE(xBytes);
    if xInt >= c.p {
      return None;
    }

    var x3 := ExpMod(xInt, 3, c.p);
    var aX := -3 * xInt;
    aX := aX % c.p;
    var yy := x3 + aX;
    yy := yy + c.b;
    yy := yy % c.p;
    RhsByParts(c, xInt);

    var exp := c.p + 1;
    exp := exp / 4;
    var yInt := ExpMod(yy, exp, c.p);

    var check := yInt * yInt;
    check := check % c.p;
    if check != yy {
      return None;
    }

    if yInt % 2 == 1 {
      yInt := c.p - yInt;
    }
    return Some(Affine(xInt, yInt));
  }

  /** Reducing the summands one at a time gives the reduced sum. */
  lemma RhsByParts(c: Params, x: int)
    requires c.p > 0
    ensures (ExpMod(x, 3, c.p) + (-3 * x) % c.p + c.b) % c.p == Rhs(c, x)
  {
    Cube(x);
    ReduceSummands(x * x * x, -3 * x, c.b, c.p);
  }

  lemma Cube(x: int)
    ensures Pow(x, 3) == x * x * x
  {
    assert Pow(x, 1) == x && Pow(x, 2) == x * x;
    assert x * (x * x) == x * x * x;
  }

  lemma ReduceSummands(u: int, v: int, w: int, m: int)
    requires m > 0
    ensures (u % m + v % m + w) % m == (u + v + w) % m
  {
    assert (u % m + v % m + w) - (u + v + w) == m * (-(u / m) - (v / m)) by {
      assert u == m * (u / m) + u % m && v == m * (v / m) + v % m;
    }
    DividesIntro(m, -(u / m) - (v / m), (u % m + v % m + w) - (u + v + w));
    CongIffMod(u % m + v % m + w, u + v + w, m);
  }

  // ---------- the square root ----------

  /** For p = 3 (mod 4), a^((p+1)/4) is a root of every square a = t^2. */
  lemma RootOfSquare(p: int, t: int, a: int)
    requires IsPrime(p) && p % 4 == 3 && 0 <= a < p && (t * t) % p == a
    ensures var y := ExpMod(a, (p + 1) / 4, p); (y * y) % p == a
  {
    var e := (p + 1) / 4;
    var u := Pow(t * t, e);
    var y := ExpMod(a, e, p);
    // y = (t^2)^e (mod p)
    ModIsCong(t * t, p);
    CongPow(a, t * t, e, p);
    ModIsCong(Pow(a, e), p);
    CongTrans(y, Pow(a, e), u, p);
    CongMul(y, u, y, u, p);
    // u^2 = t^(4e) = t^(p+1) = t * t
    PowOfProduct(t, t, e);
    PowAdd(t, e, e);
    PowAdd(t, 2 * e, 2 * e);
    assert u * u == Pow(t, p + 1);
    Fermat(p, t);
    DividesIntro(p, 0, 0);
    CongMul(t, t, Pow(t, p), t, p);
    assert Pow(t, p + 1) == t * Pow(t, p);
    CongTrans(y * y, u * u, t * t, p);
    CongIffMod(y * y, t * t, p);
  }

  /** Two square roots of the same residue are equal or opposite. */
  lemma RootsOpposite(p: int, y: int, z: int)
    requires IsPrime(p) && 0 <= y < p && 0 <= z < p && (y * y) % p == (z * z) % p
    ensures y == z || y + z == p
  {
    CongIffMod(y * y, z * z, p);
    assert (y - z) * (y + z) == y * y - z * z;
    Euclid(p, y - z, y + z);
    if Divides(p, y - z) {
      SmallMultipleIsZero(p, y - z);
    } else {
      DividesIntro(p, 1, p);
      DividesSum(p, y + z, p);
      SmallMultipleIsZero(p, y + z - p);
    }
  }

  lemma NegatedRoot(p: int, y: int)
    requires p > 0
    ensures ((p - y) * (p - y)) % p == (y * y) % p
  {
    assert (p - y) * (p - y) - y * y == p * (p - 2 * y);
    DividesIntro(p, p - 2 * y, (p - y) * (p - y) - y * y);
    CongIffMod((p - y) * (p - y), y * y, p);
  }

  /** A returned point is on the curve, has the given x and an even y in [0, p). */
  lemma LiftSound(c: Params, x: nat)
    requires ValidField(c) && Lift(c, x).Some?
    ensures var P := Lift(c, x).value;
      P.Affine? && P.x == x && OnCurve(c, P) && P.y % 2 == 0
  {
    var y := ExpMod(Rhs(c, x), (c.p + 1) / 4, c.p);
    NegatedRoot(c.p, y);
    if y % 2 == 1 {
      OddComplement(c.p, y);
      assert Lift(c, x).value == Affine(x, c.p - y);
    }
  }

  function Square(p: nat, t: int): nat
    requires p > 0
  {
    (t * t) % p
  }

  ghost predicate IsSquare(p: nat, a: int)
    requires p > 0
  {
    exists t :: Square(p, t) == a
  }

  /** Decompression succeeds exactly on reduced abscissas whose x^3-3x+b is a square. */
  lemma LiftComplete(c: Params, x: nat)
    requires ValidField(c)
    ensures Lift(c, x).Some? <==> x < c.p && IsSquare(c.p, Rhs(c, x))
  {
    if Lift(c, x).Some? {
      assert Square(c.p, ExpMod(Rhs(c, x), (c.p + 1) / 4, c.p)) == Rhs(c, x);
    }
    if x < c.p && IsSquare(c.p, Rhs(c, x)) {
      var t :| Square(c.p, t) == Rhs(c, x);
      RootOfSquare(c.p, t, Rhs(c, x));
    }
  }

  /** Decompressing the abscissa of a curve point gives that point or its negation,
      and gives the only even choice. */
  lemma LiftRecovers(c: Params, P: Point)
    requires ValidField(c) && OnCurve(c, P) && P.Affine?
    ensures Lift(c, P.x).Some?
    ensures Lift(c, P.x).value == P || Lift(c, P.x).value == Neg(c, P)
    ensures P.y % 2 == 0 ==> Lift(c, P.x).value == P
  {
    assert Square(c.p, P.y) == Rhs(c, P.x);
    LiftComplete(c, P.x);
    LiftSound(c, P.x);
    var Q := Lift(c, P.x).value;
    RootsOpposite(c.p, Q.y, P.y);
    EvenRoot(c.p, Q.y, P.y);
  }

  /** Of two equal or opposite residues of an odd modulus, parity tells which. */
  lemma EvenRoot(p: int, y: int, z: int)
    requires p % 4 == 3 && 0 <= y < p && 0 <= z < p && (y == z || y + z == p)
    ensures y == z || y == (p - z) % p
    ensures y % 2 == 0 && z % 2 == 0 ==> y == z
  {
    assert p % 2 == 1;
    if y + z == p {
      DivModUnique(y, p, 0, y);
    }
  }

  // ---------- the group ----------

  type Addition = (Point, Point) -> Point

  /** The points of the curve under `add`, with reflection in the x-axis as inverse. */
  function CurveGroup(c: Params, add: Addition): Group<Point>
    requires c.p > 0
  {
    Group(P => OnCurve(c, P), add, P => Neg(c, P), Infinity)
  }

  /** k * P. */
  function ScalarMul(c: Params, add: Addition, k: nat, P: Point): Point
    requires c.p > 0
  {
    Mul(CurveGroup(c, add), k, P)
  }

  /** A curve over a prime field with p = 3 (mod 4) whose points form a group under
      `add` and whose generator has prime order n. */
  ghost predicate ValidCurve(c: Params, add: Addition) {
    && ValidField(c)
    && Laws(CurveGroup(c, add))
    && IsPrime(c.n)
    && OnCurve(c, G(c))
    && ScalarMul(c, add, c.n, G(c)) == Infinity
  }

  lemma NegKeepsX(c: Params, P: Point)
    requires c.p > 0
    ensures XOf(Neg(c, P)) == XOf(P) && (Neg(c, P).Infinity? <==> P.Infinity?)
  {
  }

  /** Multiples of the generator are curve points; they are infinity exactly for
      multiples of the order. */
  lemma BaseMul(c: Params, add: Addition, k: nat)
    requires ValidCurve(c, add)
    ensures OnCurve(c, ScalarMul(c, add, k, G(c)))
    ensures ScalarMul(c, add, k, G(c)).Infinity? <==> k % c.n == 0
  {
    var g := CurveGroup(c, add);
    assert g.member(G(c));
    MulMember(g, k, G(c));
    MulKills(g, c.n, k, G(c));
    assert g.member(Mul(g, k, G(c)));
  }

  /** i * (j * G) == (i * j) * G */
  lemma BaseMulMul(c: Params, add: Addition, i: nat, j: nat)
    requires ValidCurve(c, add)
    ensures ScalarMul(c, add, i, ScalarMul(c, add, j, G(c))) == ScalarMul(c, add, i * j, G(c))
  {
    assert CurveGroup(c, add).member(G(c));
    MulMul(CurveGroup(c, add), i, j, G(c));
  }

  /** Multiplying the decompressed abscissa of P gives the abscissa of multiplying P. */
  lemma MulLifted(c: Params, add: Addition, k: nat, P: Point)
    requires ValidCurve(c, add) && OnCurve(c, P) && P.Affine?
    ensures Lift(c, P.x).Some?
    ensures var Q, R := ScalarMul(c, add, k, Lift(c, P.x).value), ScalarMul(c, add, k, P);
      OnCurve(c, Q) && XOf(Q) == XOf(R) && (Q.Infinity? <==> R.Infinity?)
  {
    LiftRecovers(c, P);
    LiftSound(c, P.x);
    var g, L := CurveGroup(c, add), Lift(c, P.x).value;
    assert g.member(P) && g.member(L);
    MulNeg(g, k, P);
    MulMember(g, k, L);
    assert g.member(Mul(g, k, L));
    NegKeepsX(c, ScalarMul(c, add, k, P));
    assert g.neg(P) == Neg(c, P) && g.neg(Mul(g, k, P)) == Neg(c, Mul(g, k, P));
  }

  /** x-only key agreement: whatever the parities of r*G and s*G, both sides, each
      knowing only the other's abscissa, reach the same finite abscissa. */
  lemma KeyAgreement(c: Params, add: Addition, r: nat, s: nat)
    requires ValidCurve(c, add) && r % c.n != 0 && s % c.n != 0
    ensures var R, S := ScalarMul(c, add, r, G(c)), ScalarMul(c, add, s, G(c));
      && R.Affine? && S.Affine?
      && Lift(c, R.x).Some? && Lift(c, S.x).Some?
      && var finder, owner := ScalarMul(c, add, s, Lift(c, R.x).value), ScalarMul(c, add, r, Lift(c, S.x).value);
         finder.Affine? && owner.Affine? && finder.x == owner.x
  {
    BaseMul(c, add, r);
    BaseMul(c, add, s);
    MulLifted(c, add, s, ScalarMul(c, add, r, G(c)));
    MulLifted(c, add, r, ScalarMul(c, add, s, G(c)));
    BaseMulMul(c, add, s, r);
    BaseMulMul(c, add, r, s);
    assert s * r == r * s;
    NonMultipleProduct(c.n, r, s);
    BaseMul(c, add, r * s);
  }

  lemma NonMultipleProduct(n: int, r: nat, s: nat)
    requires IsPrime(n) && r % n != 0 && s % n != 0
    ensures (r * s) % n != 0
  {
    if (r * s) % n == 0 {
      DividesIntro(n, (r * s) / n, r * s);
      Euclid(n, r, s);
      CongIffMod(r, 0, n);
      CongIffMod(s, 0, n);
    }
  }

  /** 256^20 */
  const TWENTY_BYTES: nat := 0x1_00000000_00000000_00000000_00000000_00000000

  lemma TwentyBytes()
    ensures Pow(256, 20) == TWENTY_BYTES
  {
    PowAdd(256, 16, 4);
    PowAdd(256, 8, 8);
    PowAdd(256, 4, 4);
    assert Pow(256, 4) == 0x1_0000_0000 by {
      assert Pow(256, 1) == 256 && Pow(256, 2) == 65536 && Pow(256, 3) == 0x100_0000;
    }
  }

  /** The published constants fit the code's buffers: p = 3 (mod 4), abscissas fit
      20 bytes, and the generator satisfies the curve equation. */
  lemma ConstantsFit()
    ensures SECP160R1.p % 4 == 3
    ensures SECP160R1.p <= TWENTY_BYTES
    ensures OnCurve(SECP160R1, G(SECP160R1))
  {
  }

  // ---------- the hypotheses are satisfiable ----------

  /** The five-point curve y^2 = x^3 - 3x + 1 over Z_7. */
  const SEVEN := Params(7, 5, 1, 0, 1)

  function Index(P: Point): (i: nat)
    ensures i < 5
  {
    if P == Affine(0, 1) then 1 else if P == Affine(4, 5) then 2
    else if P == Affine(4, 2) then 3 else if P == Affine(0, 6) then 4 else 0
  }

  function Multiple(i: nat): Point {
    if i == 1 then Affine(0, 1) else if i == 2 then Affine(4, 5)
    else if i == 3 then Affine(4, 2) else if i == 4 then Affine(0, 6) else Infinity
  }

  function AddSeven(P: Point, Q: Point): Point {
    Multiple(Wrap(5, Index(P) + Index(Q)))
  }

  lemma PointsOfSeven(P: Point)
    requires OnCurve(SEVEN, P)
    ensures P == Multiple(Index(P))
  {
    if P.Affine? {
      var x, y := P.x, P.y;
      assert x in {0, 1, 2, 3, 4, 5, 6};
      assert y in {0, 1, 2, 3, 4, 5, 6};
    }
  }

  lemma MultipleOnCurve(i: nat)
    ensures OnCurve(SEVEN, Multiple(i))
  {
  }

  lemma {:induction false} MulSeven(k: nat)
    requires k <= 5
    ensures ScalarMul(SEVEN, AddSeven, k, G(SEVEN)) == Multiple(Wrap(5, k))
  {
    if k > 0 {
      MulSeven(k - 1);
      SevenStep(k - 1);
    }
  }

  lemma SevenStep(i: nat)
    requires i < 5
    ensures AddSeven(G(SEVEN), Multiple(i)) == AddSeven(Multiple(i), G(SEVEN)) == Multiple(Wrap(5, i + 1))
  {
    assert Index(Multiple(i)) == i && Index(G(SEVEN)) == 1;
  }

  lemma SevenLaws()
    ensures Laws(CurveGroup(SEVEN, AddSeven))
  {
    var g := CurveGroup(SEVEN, AddSeven);
    forall i: nat ensures Numbered(g, 5, Index, Multiple, i) { SevenNumbered(i); }
    forall P | g.member(P) ensures Multiple(Index(P)) == P { PointsOfSeven(P); }
    CyclicLaws(g, 5, Index, Multiple);
  }

  lemma SevenNumbered(i: nat)
    ensures Numbered(CurveGroup(SEVEN, AddSeven), 5, Index, Multiple, i)
  {
    MultipleOnCurve(i);
  }

  lemma SevenPrimes()
    ensures ValidField(SEVEN) && IsPrime(SEVEN.n)
  {
  }

  /** `ValidCurve` holds of a concrete curve, so results that assume it are not empty. */
  lemma ValidCurveExists()
    ensures ValidCurve(SEVEN, AddSeven)
  {
    assert OnCurve(SEVEN, G(SEVEN)) by { MultipleOnCurve(1); }
    assert ScalarMul(SEVEN, AddSeven, 5, G(SEVEN)) == Infinity by { MulSeven(5); }
    SevenPrimes();
    SevenLaws();
  }
}
