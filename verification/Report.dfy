/** Location reports from foreigntracker.go: a finder seals a report to an advertised
    identifier, the owner opens it knowing only the identity key and the time. */
module Report {
  import opened Options
  import opened NumberTheory
  import opened Octets
  import opened Arithmetic
  import opened Bytes
  import opened Groups
  import opened Cmac
  import opened Curve
  import opened Eax
  import opened Eid

  // ---------- what a report is ----------

  /** The key both sides derive from the abscissa of k * P. */
  function SharedKey(s: Setup, k: nat, P: Point): Key32
    requires s.curve.p > 0
  {
    s.hkdf(ToBE(XOf(ScalarMul(s.curve, s.add, k, P)), 20))
  }

  /** The last eight bytes of each public abscissa. */
  function Nonce(rx: nat, sx: nat): bytes {
    ToBE(rx, 20)[12..] + ToBE(sx, 20)[12..]
  }

  /** The sealed report and the finder's public abscissa. */
  function Sealed(s: Setup, message: bytes, random: bytes, eid: bytes): Result<(bytes, bytes), CryptoError>
    requires s.curve.p > 0 && s.curve.n > 0
  {
    var k := FromBE(random) % s.curve.n;
    if |random| == 0 then Err(EmptyRandom)
    else if k == 0 then Err(ZeroScalar)
    else
      match Lift(s.curve, FromBE(eid))
      case None => Err(InvalidEID)
      case Some(P) =>
        var sx := XOf(ScalarMul(s.curve, s.add, k, G(s.curve)));
        match Seal(s.aes, SharedKey(s, k, P), Nonce(FromBE(eid), sx), [], message)
        case Err(e) => Err(e)
        case Ok(c) => Ok((c, ToBE(sx, 20)))
  }

  function Opened(s: Setup, identityKey: bytes, sealed: bytes, sx: bytes, t: int): Result<bytes, CryptoError>
    requires s.curve.p > 0 && s.curve.n > 0
  {
    if |sealed| < 16 then Err(ShortCiphertext)
    else
      match R(s, identityKey, t)
      case Err(e) => Err(e)
      case Ok(r) =>
        if r == 0 then Err(ZeroScalar)
        else
          match Lift(s.curve, FromBE(sx))
          case None => Err(InvalidEID)
          case Some(S) =>
            var rx := XOf(ScalarMul(s.curve, s.add, r, G(s.curve)));
            Open(s.aes, SharedKey(s, r, S), Nonce(rx, FromBE(sx)), [], sealed)
  }

  // ---------- the code ----------

  /** `sharedX.FillBytes` and key derivation. */
  method DeriveKey(s: Setup, k: nat, P: Point) returns (key: Key32)
    requires ValidSetup(s) && OnCurve(s.curve, P)
    ensures key == SharedKey(s, k, P)
  {
    var shared := PointMul(s, k, P);
    TwentyBytes();
    MulStaysOnCurve(s.curve, s.add, k, P);
    key := s.hkdf(FillBytes(XOf(shared), 20));
  }

  method BuildNonce(rx: nat, sx: nat) returns (nonce: bytes)
    requires rx < TWENTY_BYTES && sx < TWENTY_BYTES
    ensures nonce == Nonce(rx, sx)
  {
    TwentyBytes();
    var lrX := FillBytes(rx, 20);
    var lsX := FillBytes(sx, 20);
    nonce := [];
    nonce := nonce + lrX[12..];
    nonce := nonce + lsX[12..];
  }

  method EncryptForeignTracker(s: Setup, message: bytes, random: bytes, eid: bytes)
    returns (r: Result<(bytes, bytes), CryptoError>)
    requires ValidSetup(s)
    ensures r == Sealed(s, message, random, eid)
  {
    if |random| == 0 {
      return Err(EmptyRandom);
    }
    var scalar := FromBE(random);
    scalar := scalar % s.curve.n;
    if scalar == 0 {
      return Err(ZeroScalar);
    }
    BaseMul(s.curve, s.add, scalar);
    var sx := XOf(PointMul(s, scalar, G(s.curve)));

    var rx := FromBE(eid);
    var lifted := PointFromX(s.curve, eid);
    if lifted.None? {
      return Err(InvalidEID);
    }
    LiftSound(s.curve, rx);
    var k := DeriveKey(s, scalar, lifted.value);
    var nonce := BuildNonce(rx, sx);
    var ctTag := EncryptEAX(s.aes, k, nonce, [], message);
    assert ctTag.Ok?;  // the derived key always has a valid size
    TwentyBytes();
    return Ok((ctTag.value, FillBytes(sx, 20)));
  }

  method DecryptForeignTracker(s: Setup, identityKey: bytes, sealed: bytes, sx: bytes, t: int)
    returns (r: Result<bytes, CryptoError>)
    requires ValidSetup(s)
    ensures r == Opened(s, identityKey, sealed, sx, t)
  {
    if |sealed| < 16 {
      return Err(ShortCiphertext);
    }
    var scalar := CalculateR(s, identityKey, t);
    if scalar.Err? {
      return Err(scalar.error);
    }
    if scalar.value == 0 {
      return Err(ZeroScalar);
    }
    BaseMul(s.curve, s.add, scalar.value);
    var rx := XOf(PointMul(s, scalar.value, G(s.curve)));
    var lifted := PointFromX(s.curve, sx);
    if lifted.None? {
      return Err(InvalidEID);
    }
    LiftSound(s.curve, FromBE(sx));
    var k := DeriveKey(s, scalar.value, lifted.value);
    var nonce := BuildNonce(rx, FromBE(sx));
    r := DecryptEAX(s.aes, k, nonce, [], sealed);
  }

  lemma MulStaysOnCurve(c: Params, add: Addition, k: nat, P: Point)
    requires ValidCurve(c, add) && OnCurve(c, P)
    ensures OnCurve(c, ScalarMul(c, add, k, P))
  {
    var g := CurveGroup(c, add);
    assert g.member(P);
    MulMember(g, k, P);
    assert g.member(Mul(g, k, P));
  }

  // ---------- the protocol ----------

  /** Sealing succeeds exactly for a nonempty scalar that is nonzero modulo the order and
      an identifier that is a reduced abscissa with a square right-hand side. */
  lemma SealSucceedsIff(s: Setup, message: bytes, random: bytes, eid: bytes)
    requires ValidSetup(s)
    ensures Sealed(s, message, random, eid).Ok? <==>
      && FromBE(random) % s.curve.n != 0
      && FromBE(eid) < s.curve.p
      && IsSquare(s.curve.p, Rhs(s.curve, FromBE(eid)))
  {
    LiftComplete(s.curve, FromBE(eid));
    if FromBE(random) % s.curve.n != 0 {
      NonzeroIsNonempty(random, s.curve.n);
    }
  }

  /** The report protocol is correct: for every identity key, message and nonzero scalar,
      a report sealed to the identifier advertised at t1 is opened by the owner at any t2
      of the same rotation window, giving back exactly the message. */
  lemma ReportRoundTrip(s: Setup, identityKey: bytes, message: bytes, random: bytes, t1: int, t2: int)
    requires ValidSetup(s) && |identityKey| == 32
    requires FromBE(random) % s.curve.n != 0
    requires R(s, identityKey, t1) != Ok(0)
    requires (t1 / 1024) % 0x40_0000 == (t2 / 1024) % 0x40_0000
    ensures EID(s, identityKey, t1).Ok?
    ensures Sealed(s, message, random, EID(s, identityKey, t1).value).Ok?
    ensures var (sealed, sx) := Sealed(s, message, random, EID(s, identityKey, t1).value).value;
      Opened(s, identityKey, sealed, sx, t2) == Ok(message)
  {
    SameWindow(t1, t2);
    var r, k := R(s, identityKey, t1).value, FromBE(random) % s.curve.n;
    OrderReduces(s.curve.n, FromBE(RDash(s.aes, identityKey, t1)));
    OrderReduces(s.curve.n, FromBE(random));
    SidesAgree(s, r, k);
    RoundTripFor(s, identityKey, message, random, r, k, t2);
  }

  /** With r and k as scalars, finder and owner decompress each other's 20-byte abscissas
      and derive one key. */
  ghost predicate Agree(s: Setup, r: nat, k: nat)
    requires s.curve.p > 0
  {
    var rx := XOf(ScalarMul(s.curve, s.add, r, G(s.curve)));
    var sx := XOf(ScalarMul(s.curve, s.add, k, G(s.curve)));
    && FromBE(ToBE(rx, 20)) == rx && FromBE(ToBE(sx, 20)) == sx
    && Lift(s.curve, rx).Some? && Lift(s.curve, sx).Some?
    && SharedKey(s, k, Lift(s.curve, rx).value) == SharedKey(s, r, Lift(s.curve, sx).value)
  }

  /** The round trip, given agreeing sides. */
  lemma RoundTripFor(s: Setup, identityKey: bytes, message: bytes, random: bytes, r: nat, k: nat, t: int)
    requires s.curve.p > 0 && s.curve.n > 0 && Agree(s, r, k)
    requires R(s, identityKey, t) == Ok(r) && r != 0
    requires k == FromBE(random) % s.curve.n && k != 0
    ensures var eid := ToBE(XOf(ScalarMul(s.curve, s.add, r, G(s.curve))), 20);
            && Sealed(s, message, random, eid).Ok?
            && var (sealed, sx) := Sealed(s, message, random, eid).value;
               Opened(s, identityKey, sealed, sx, t) == Ok(message)
  {
    NonzeroIsNonempty(random, s.curve.n);
    var rx := XOf(ScalarMul(s.curve, s.add, r, G(s.curve)));
    var sx := XOf(ScalarMul(s.curve, s.add, k, G(s.curve)));
    var sealed := SealedIs(s, message, random, ToBE(rx, 20), k, sx);
    OpenedIs(s, identityKey, sealed, ToBE(sx, 20), t, r, rx, SharedKey(s, k, Lift(s.curve, rx).value), message);
  }

  /** A successful sealing, spelled out. */
  lemma SealedIs(s: Setup, message: bytes, random: bytes, eid: bytes, k: nat, sx: nat) returns (sealed: bytes)
    requires s.curve.p > 0 && s.curve.n > 0
    requires |random| > 0 && k == FromBE(random) % s.curve.n && k != 0
    requires Lift(s.curve, FromBE(eid)).Some? && sx == XOf(ScalarMul(s.curve, s.add, k, G(s.curve)))
    ensures Sealed(s, message, random, eid) == Ok((sealed, ToBE(sx, 20)))
    ensures Seal(s.aes, SharedKey(s, k, Lift(s.curve, FromBE(eid)).value), Nonce(FromBE(eid), sx), [], message) == Ok(sealed)
  {
    var P := Lift(s.curve, FromBE(eid)).value;
    sealed := Seal(s.aes, SharedKey(s, k, P), Nonce(FromBE(eid), sx), [], message).value;
  }

  /** Opening what was sealed under the owner's own key and nonce. */
  lemma OpenedIs(s: Setup, identityKey: bytes, sealed: bytes, sx: bytes, t: int, r: nat, rx: nat, key: Key32, message: bytes)
    requires s.curve.p > 0 && s.curve.n > 0
    requires R(s, identityKey, t) == Ok(r) && r != 0 && rx == XOf(ScalarMul(s.curve, s.add, r, G(s.curve)))
    requires Lift(s.curve, FromBE(sx)).Some? && SharedKey(s, r, Lift(s.curve, FromBE(sx)).value) == key
    requires Seal(s.aes, key, Nonce(rx, FromBE(sx)), [], message) == Ok(sealed)
    ensures Opened(s, identityKey, sealed, sx, t) == Ok(message)
  {
    EaxExact(s.aes, key, Nonce(rx, FromBE(sx)), [], message, sealed);
  }

  lemma SidesAgree(s: Setup, r: nat, k: nat)
    requires ValidSetup(s) && r % s.curve.n != 0 && k % s.curve.n != 0
    ensures Agree(s, r, k)
  {
    KeyAgreement(s.curve, s.add, r, k);
    BaseMul(s.curve, s.add, r);
    BaseMul(s.curve, s.add, k);
    var rx := XOf(ScalarMul(s.curve, s.add, r, G(s.curve)));
    var sx := XOf(ScalarMul(s.curve, s.add, k, G(s.curve)));
    TwentyBytes();
    assert FillBytes(rx, 20) == ToBE(rx, 20) && FillBytes(sx, 20) == ToBE(sx, 20);
  }

  lemma NonzeroIsNonempty(random: bytes, n: nat)
    requires n > 0 && FromBE(random) % n != 0
    ensures |random| > 0
  {
    DivModUnique(0, n, 0, 0);
  }

  lemma OrderReduces(n: nat, x: nat)
    requires n > 0
    ensures (x % n) % n == x % n
  {
  }

  /** Whoever opens a report at all opens what sealing under the same scalar and abscissas
      produces: an accepted report is the sealing of the message it opens to. */
  lemma AcceptedIsSealed(s: Setup, identityKey: bytes, sealed: bytes, sx: bytes, t: int, message: bytes)
    requires ValidSetup(s) && Opened(s, identityKey, sealed, sx, t) == Ok(message)
    ensures R(s, identityKey, t).Ok? && Lift(s.curve, FromBE(sx)).Some?
    ensures var r := R(s, identityKey, t).value;
      var rx := XOf(ScalarMul(s.curve, s.add, r, G(s.curve)));
      Seal(s.aes, SharedKey(s, r, Lift(s.curve, FromBE(sx)).value), Nonce(rx, FromBE(sx)), [], message) == Ok(sealed)
  {
    var r := R(s, identityKey, t).value;
    var rx := XOf(ScalarMul(s.curve, s.add, r, G(s.curve)));
    EaxExact(s.aes, SharedKey(s, r, Lift(s.curve, FromBE(sx)).value), Nonce(rx, FromBE(sx)), [], message, sealed);
  }

  // ---------- key and nonce, from the bytes up ----------

  /** key is derived from the 20-byte abscissa of k * P, P the even point with abscissa x. */
  ghost predicate KeyFor(s: Setup, k: nat, x: nat, key: Key32)
    requires s.curve.p > 0
  {
    exists P, b :: EvenPoint(s.curve, x, P) && Spells(b, XOf(ScalarMul(s.curve, s.add, k, P))) && key == s.hkdf(b)
  }

  predicate EvenPoint(c: Params, x: nat, P: Point)
    requires c.p > 0
  {
    P.Affine? && OnCurve(c, P) && P.x == x && P.y % 2 == 0
  }

  /** b is x as twenty big-endian bytes. */
  predicate Spells(b: bytes, x: nat) {
    |b| == 20 && FromBE(b) == x
  }

  /** n is the last eight bytes of rx followed by those of sx. */
  ghost predicate NonceFor(rx: nat, sx: nat, n: bytes) {
    exists a, b :: Spells(a, rx) && Spells(b, sx) && n == a[12..20] + b[12..20]
  }

  lemma SpellsUnique(a: bytes, b: bytes, x: nat)
    requires Spells(a, x) && Spells(b, x)
    ensures a == b
  {
    FromBEInjective(a, b);
  }

  /** There is at most one such key and one such nonce. */
  lemma KeyAndNonceUnique(s: Setup, k: nat, x: nat, key1: Key32, key2: Key32, rx: nat, sx: nat, n1: bytes, n2: bytes)
    requires ValidSetup(s) && KeyFor(s, k, x, key1) && KeyFor(s, k, x, key2)
    requires NonceFor(rx, sx, n1) && NonceFor(rx, sx, n2)
    ensures key1 == key2 && n1 == n2
  {
    var P, b :| EvenPoint(s.curve, x, P) && Spells(b, XOf(ScalarMul(s.curve, s.add, k, P))) && key1 == s.hkdf(b);
    var Q, c :| EvenPoint(s.curve, x, Q) && Spells(c, XOf(ScalarMul(s.curve, s.add, k, Q))) && key2 == s.hkdf(c);
    LiftRecovers(s.curve, P);
    LiftRecovers(s.curve, Q);
    SpellsUnique(b, c, XOf(ScalarMul(s.curve, s.add, k, P)));
    var a1, b1 :| Spells(a1, rx) && Spells(b1, sx) && n1 == a1[12..20] + b1[12..20];
    var a2, b2 :| Spells(a2, rx) && Spells(b2, sx) && n2 == a2[12..20] + b2[12..20];
    SpellsUnique(a1, a2, rx);
    SpellsUnique(b1, b2, sx);
  }

  lemma ToBESpells(x: nat)
    requires x < TWENTY_BYTES
    ensures Spells(ToBE(x, 20), x)
  {
    TwentyBytes();
    assert FillBytes(x, 20) == ToBE(x, 20);
  }

  lemma SharedKeyIs(s: Setup, k: nat, x: nat)
    requires ValidSetup(s) && Lift(s.curve, x).Some?
    ensures KeyFor(s, k, x, SharedKey(s, k, Lift(s.curve, x).value))
  {
    var P := Lift(s.curve, x).value;
    LiftSound(s.curve, x);
    MulStaysOnCurve(s.curve, s.add, k, P);
    ToBESpells(XOf(ScalarMul(s.curve, s.add, k, P)));
    assert EvenPoint(s.curve, x, P);
  }

  lemma NonceIs(rx: nat, sx: nat)
    requires rx < TWENTY_BYTES && sx < TWENTY_BYTES
    ensures NonceFor(rx, sx, Nonce(rx, sx))
  {
    ToBESpells(rx);
    ToBESpells(sx);
  }

  lemma BaseFits(s: Setup, k: nat)
    requires ValidSetup(s)
    ensures XOf(ScalarMul(s.curve, s.add, k, G(s.curve))) < TWENTY_BYTES
  {
    BaseMul(s.curve, s.add, k);
  }

  /** A sealed report is the EAX sealing of the message under the key for the identifier's
      point and the nonce of both abscissas, with the finder's abscissa beside it. */
  lemma SealedSpelled(s: Setup, message: bytes, random: bytes, eid: bytes)
    requires ValidSetup(s) && Sealed(s, message, random, eid).Ok?
    ensures var (sealed, sx) := Sealed(s, message, random, eid).value;
      var k := FromBE(random) % s.curve.n;
      && Spells(sx, XOf(ScalarMul(s.curve, s.add, k, G(s.curve))))
      && exists key: Key32, n :: KeyFor(s, k, FromBE(eid), key) && NonceFor(FromBE(eid), FromBE(sx), n)
                                 && Seal(s.aes, key, n, [], message) == Ok(sealed)
  {
    var k, x := FromBE(random) % s.curve.n, FromBE(eid);
    var sx := XOf(ScalarMul(s.curve, s.add, k, G(s.curve)));
    BaseFits(s, k);
    ToBESpells(sx);
    SharedKeyIs(s, k, x);
    LiftSound(s.curve, x);
    NonceIs(x, sx);
  }

  /** Whatever is opened is the EAX sealing of the message under the key for the finder's
      point and the owner's scalar, and the nonce of both abscissas. */
  lemma OpenedSpelled(s: Setup, identityKey: bytes, sealed: bytes, sx: bytes, t: int, message: bytes)
    requires ValidSetup(s) && Opened(s, identityKey, sealed, sx, t) == Ok(message)
    ensures R(s, identityKey, t).Ok?
    ensures var r := R(s, identityKey, t).value;
      var rx := XOf(ScalarMul(s.curve, s.add, r, G(s.curve)));
      exists key: Key32, n :: KeyFor(s, r, FromBE(sx), key) && NonceFor(rx, FromBE(sx), n)
                              && Seal(s.aes, key, n, [], message) == Ok(sealed)
  {
    var r, x := R(s, identityKey, t).value, FromBE(sx);
    AcceptedIsSealed(s, identityKey, sealed, sx, t, message);
    BaseFits(s, r);
    SharedKeyIs(s, r, x);
    LiftSound(s.curve, x);
    NonceIs(XOf(ScalarMul(s.curve, s.add, r, G(s.curve))), x);
  }

  /** Conversely, what is sealed that way is opened. */
  lemma SpelledOpens(s: Setup, identityKey: bytes, sealed: bytes, sx: bytes, t: int, r: nat, key: Key32, n: bytes, message: bytes)
    requires ValidSetup(s) && R(s, identityKey, t) == Ok(r) && r != 0
    requires KeyFor(s, r, FromBE(sx), key) && NonceFor(XOf(ScalarMul(s.curve, s.add, r, G(s.curve))), FromBE(sx), n)
    requires Seal(s.aes, key, n, [], message) == Ok(sealed)
    ensures Opened(s, identityKey, sealed, sx, t) == Ok(message)
  {
    var x, rx := FromBE(sx), XOf(ScalarMul(s.curve, s.add, r, G(s.curve)));
    var P, b :| EvenPoint(s.curve, x, P) && Spells(b, XOf(ScalarMul(s.curve, s.add, r, P))) && key == s.hkdf(b);
    LiftRecovers(s.curve, P);
    BaseFits(s, r);
    SharedKeyIs(s, r, x);
    NonceIs(rx, x);
    KeyAndNonceUnique(s, r, x, key, SharedKey(s, r, P), rx, x, n, Nonce(rx, x));
    EaxExact(s.aes, key, n, [], message, sealed);
  }

  /** Which error a failed sealing gives. */
  lemma SealFailsAs(s: Setup, message: bytes, random: bytes, eid: bytes)
    requires ValidSetup(s)
    ensures Sealed(s, message, random, eid) == Err(EmptyRandom) <==> random == []
    ensures Sealed(s, message, random, eid) == Err(ZeroScalar) <==> random != [] && FromBE(random) % s.curve.n == 0
    ensures Sealed(s, message, random, eid) == Err(InvalidEID) <==>
              FromBE(random) % s.curve.n != 0 && !(FromBE(eid) < s.curve.p && IsSquare(s.curve.p, Rhs(s.curve, FromBE(eid))))
  {
    LiftComplete(s.curve, FromBE(eid));
    if FromBE(random) % s.curve.n != 0 {
      NonzeroIsNonempty(random, s.curve.n);
    }
  }

  /** Which error a failed opening gives, in the order of the checks. */
  lemma OpenFailsAs(s: Setup, identityKey: bytes, sealed: bytes, sx: bytes, t: int)
    requires ValidSetup(s)
    ensures var r, x, o := R(s, identityKey, t), FromBE(sx), Opened(s, identityKey, sealed, sx, t);
      && (o == Err(ShortCiphertext) <==> |sealed| < 16)
      && (o == Err(BadIdentityKey) <==> |sealed| >= 16 && |identityKey| != 32)
      && (o == Err(ZeroScalar) <==> |sealed| >= 16 && r == Ok(0))
      && (o == Err(InvalidEID) <==> |sealed| >= 16 && r.Ok? && r.value != 0 && !(x < s.curve.p && IsSquare(s.curve.p, Rhs(s.curve, x))))
      && (o.Ok? || o.error in {ShortCiphertext, BadIdentityKey, ZeroScalar, InvalidEID, TagMismatch})
  {
    LiftComplete(s.curve, FromBE(sx));
  }

  /** For the published curve the numeric side conditions hold; what remains to be assumed is
      the primality of its two moduli, the group law and the order of the generator. */
  lemma PublishedCurveSetup(s: Setup)
    requires s.curve == SECP160R1 && IsPrime(s.curve.p) && IsPrime(s.curve.n)
    requires Laws(CurveGroup(s.curve, s.add))
    requires ScalarMul(s.curve, s.add, s.curve.n, G(s.curve)) == Infinity
    ensures ValidSetup(s)
  {
    ConstantsFit();
  }
}
