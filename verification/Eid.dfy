/** Identifier rotation from eid.go: the masked timestamp, the ECB-encrypted structure,
    the scalar r and the ephemeral identifier. */
module Eid {
  import opened Options
  import opened NumberTheory
  import opened Bits
  import opened Octets
  import opened Arithmetic
  import opened Bytes
  import opened Cmac
  import opened Curve

  const EIDK: nat := 10

  type Key32 = k: bytes | |k| == 32 witness seq(32, _ => 0)

  /** Block cipher, key derivation (HKDF-SHA256 to 32 bytes), curve and point addition. */
  datatype Setup = Setup(aes: Cipher, hkdf: bytes -> Key32, curve: Params, add: Addition)

  /** What the code takes from its curve: the group, and abscissas that fit 20 bytes. */
  ghost predicate ValidSetup(s: Setup) {
    ValidCurve(s.curve, s.add) && s.curve.p <= TWENTY_BYTES
  }

  /** Go's generic scalar multiplication, which panics on a point off the curve. */
  function PointMul(s: Setup, k: nat, P: Point): Point
    requires s.curve.p > 0 && OnCurve(s.curve, P)
  {
    ScalarMul(s.curve, s.add, k, P)
  }

  /** The start of the rotation window of width 2^k containing t, as 4 big-endian bytes. */
  function WindowBytes(t: int, k: nat): bytes {
    ToBE((Pow(2, k) * (t / Pow(2, k))) % Pow(256, 4), 4)
  }

  /** byte(v) */
  function LowByte(v: int): byte {
    (v % 256) as byte
  }

  method GetMaskedTimestamp(timestamp: int, k: nat) returns (out: array<byte>)
    ensures fresh(out) && out[..] == WindowBytes(timestamp, k)
  {
    var mask := BitNot(Shl(1, k) - 1);
    var ts := BitAnd(timestamp, mask);
    MaskLow(timestamp, k);
    out := new byte[4](_ => 0);
    for i := 0 to 4
      invariant forall j :: 3 - i < j < 4 ==> out[j] == LowByte(Shr(ts, 8 * (3 - j)))
    {
      out[3 - i] := LowByte(Shr(ts, 8 * i));
    }
    FourBytes(ts);
    SameFour(out[..], WordBytes(ts));
  }

  /** The four low bytes of a word, most significant first. */
  function WordBytes(ts: int): bytes {
    [LowByte(Shr(ts, 24)), LowByte(Shr(ts, 16)), LowByte(Shr(ts, 8)), LowByte(Shr(ts, 0))]
  }

  lemma SameFour(a: bytes, b: bytes)
    requires |a| == 4 && |b| == 4 && a[0] == b[0] && a[1] == b[1] && a[2] == b[2] && a[3] == b[3]
    ensures a == b
  {
  }

  /** Four shifted low bytes of a word spell its value modulo 2^32. */
  lemma FourBytes(ts: int)
    ensures WordBytes(ts) == ToBE(ts % Pow(256, 4), 4)
  {
    SmallPowers();
    var v := ts % 0x1_0000_0000;
    WordByte(ts, 1);
    WordByte(ts, 0x100);
    WordByte(ts, 0x1_0000);
    WordByte(ts, 0x100_0000);
    assert ToBE(v, 1) == [LowByte(v)] by { assert ToBE(v / 256, 0) == []; }
    var v1, v2, v3 := v / 256, v / 256 / 256, v / 256 / 256 / 256;
    assert ToBE(v3, 1) == [LowByte(v3)] by { assert ToBE(v3 / 256, 0) == []; }
    assert ToBE(v2, 2) == [LowByte(v3), LowByte(v2)];
    assert ToBE(v1, 3) == [LowByte(v3), LowByte(v2), LowByte(v1)];
    assert ToBE(v, 4) == [LowByte(v3), LowByte(v2), LowByte(v1), LowByte(v)];
    DivTwice(v, 256, 256);
    DivTwice(v, 0x1_0000, 256);
  }

  /** Truncating to 32 bits first does not change the byte at offset m in {2^0, 2^8, 2^16, 2^24}. */
  lemma WordByte(ts: int, m: int)
    requires m == 1 || m == 0x100 || m == 0x1_0000 || m == 0x100_0000
    ensures LowByte(ts / m) == LowByte((ts % 0x1_0000_0000) / m)
  {
    ByteOfRemainder(ts, m, 0x100_0000 / m);
  }

  lemma ByteOfRemainder(ts: int, m: int, c: int)
    requires m > 0 && 256 * (m * c) == 0x1_0000_0000
    ensures (ts / m) % 256 == ((ts % 0x1_0000_0000) / m) % 256
  {
    var q, v := ts / 0x1_0000_0000, ts % 0x1_0000_0000;
    assert ts == 256 * (m * c) * q + v;
    assert 256 * (m * c) * q == m * (256 * (c * q));
    var hi, lo := v / m, v % m;
    assert v == m * hi + lo;
    assert m * (256 * (c * q)) + m * hi == m * (256 * (c * q) + hi);
    DivModUnique(ts, m, 256 * (c * q) + hi, lo);
    DivModUnique(ts / m, 256, c * q + hi / 256, hi % 256);
  }

  lemma SmallPowers()
    ensures Pow(2, 0) == 1 && Pow(2, 8) == 256 && Pow(2, 10) == 1024 && Pow(2, 16) == 0x1_0000
    ensures Pow(2, 24) == 0x100_0000 && Pow(2, 22) == 0x40_0000 && Pow(256, 4) == 0x1_0000_0000
  {
    assert Pow(2, 2) == 4 && Pow(2, 4) == 16 && Pow(2, 6) == 64 && Pow(2, 8) == 256 && Pow(2, 10) == 1024;
    PowAdd(2, 8, 8);
    PowAdd(2, 16, 8);
    PowAdd(2, 16, 6);
    assert Pow(256, 2) == 0x1_0000 && Pow(256, 4) == 0x1_0000_0000;
  }

  // ---------- the encrypted structure and r ----------

  /** ECB: each 16-byte block on its own. */
  function Ecb(aes: Cipher, key: bytes, data: bytes): bytes {
    if |data| < 16 then [] else aes(key, data[..16]) + Ecb(aes, key, data[16..])
  }

  /** Encrypting the next block continues what is done. */
  lemma EcbStep(aes: Cipher, key: bytes, data: bytes, i: nat, done: bytes)
    requires i + 16 <= |data| && Ecb(aes, key, data) == done + Ecb(aes, key, data[i..])
    ensures Ecb(aes, key, data) == (done + aes(key, data[i..i + 16])) + Ecb(aes, key, data[i + 16..])
  {
    var rest, block := data[i..], aes(key, data[i..i + 16]);
    var after := Ecb(aes, key, data[i + 16..]);
    assert rest[..16] == data[i..i + 16] && rest[16..] == data[i + 16..];
    assert done + (block + after) == (done + block) + after;
  }

  /** Block i of the output is the encryption of block i of the input. */
  lemma {:induction false} EcbBlock(aes: Cipher, key: bytes, data: bytes, i: nat)
    requires 16 * i + 16 <= |data|
    ensures |Ecb(aes, key, data)| == 16 * (|data| / 16)
    ensures Ecb(aes, key, data)[16 * i..16 * i + 16] == aes(key, data[16 * i..16 * i + 16])
    decreases |data|
  {
    var first, rest := aes(key, data[..16]), data[16..];
    EcbLength(aes, key, data);
    if i > 0 {
      EcbBlock(aes, key, rest, i - 1);
      assert rest[16 * (i - 1)..16 * i] == data[16 * i..16 * i + 16];
      assert Ecb(aes, key, data)[16 * i..16 * i + 16] == Ecb(aes, key, rest)[16 * (i - 1)..16 * i];
    }
  }

  lemma {:induction false} EcbLength(aes: Cipher, key: bytes, data: bytes)
    ensures |Ecb(aes, key, data)| == 16 * (|data| / 16)
    decreases |data|
  {
    if |data| >= 16 {
      EcbLength(aes, key, data[16..]);
    }
  }

  lemma EcbDone(aes: Cipher, key: bytes, data: bytes, i: nat, done: bytes)
    requires i == |data| && Ecb(aes, key, data) == done + Ecb(aes, key, data[i..])
    ensures Ecb(aes, key, data) == done
  {
    assert data[i..] == [] && Ecb(aes, key, []) == [];
  }

  /** `cipher.Block.Encrypt` into a slice of the output. */
  method EncryptBlock(aes: Cipher, key: bytes, out: array<byte>, i: nat, src: Block)
    requires i + 16 <= out.Length
    modifies out
    ensures out[..i + 16] == old(out[..i]) + aes(key, src)
  {
    var block := aes(key, src);
    forall j | 0 <= j < 16 { out[i + j] := block[j]; }
  }

  method AesEcbEncrypt(aes: Cipher, key: bytes, data: bytes) returns (r: Result<bytes, CryptoError>)
    ensures r == if !AesKeySize(key) then Err(InvalidKeySize)
                 else if |data| % 16 != 0 then Err(UnalignedInput)
                 else Ok(Ecb(aes, key, data))
  {
    if !AesKeySize(key) {
      return Err(InvalidKeySize);
    }
    if |data| % 16 != 0 {
      return Err(UnalignedInput);
    }
    var out := new byte[|data|](_ => 0);
    var i := 0;
    assert data[0..] == data;
    while i < |data|
      invariant 0 <= i <= |data| && i % 16 == 0
      invariant Ecb(aes, key, data) == out[..i] + Ecb(aes, key, data[i..])
    {
      EcbStep(aes, key, data, i, out[..i]);
      EncryptBlock(aes, key, out, i, data[i..i + 16]);
      i := i + 16;
    }
    EcbDone(aes, key, data, i, out[..i]);
    assert out[..i] == out[..];
    return Ok(out[..]);
  }

  /** The 32 bytes that are encrypted for a window: two blocks carrying the same timestamp. */
  function Structure(ts: bytes): bytes
    requires |ts| == 4
  {
    seq(11, _ => 0xFF) + [EIDK as byte] + ts + Zeros(11) + [EIDK as byte] + ts
  }

  /** r': the encrypted structure of the window containing t. */
  function RDash(aes: Cipher, key: bytes, t: int): bytes {
    Ecb(aes, key, Structure(WindowBytes(t, EIDK)))
  }

  function R(s: Setup, key: bytes, t: int): Result<nat, CryptoError>
    requires s.curve.n > 0
  {
    if |key| != 32 then Err(BadIdentityKey) else Ok(FromBE(RDash(s.aes, key, t)) % s.curve.n)
  }

  /** The identifier advertised at time t: the abscissa of r * G. */
  function EID(s: Setup, key: bytes, t: int): Result<bytes, CryptoError>
    requires s.curve.n > 0 && s.curve.p > 0
  {
    match R(s, key, t)
    case Err(e) => Err(e)
    case Ok(r) =>
      if r == 0 then Err(ZeroScalar)
      else
        var x := XOf(ScalarMul(s.curve, s.add, r, G(s.curve)));
        Ok(ToBE(x, 20))
  }

  /** The buffer assembled in place: eleven 0xFF, the exponent, the timestamp, zeros, and
      the exponent and timestamp again. */
  method FillStructure(tsBytes: array<byte>) returns (data: array<byte>)
    requires tsBytes.Length == 4
    ensures fresh(data) && data[..] == Structure(tsBytes[..])
  {
    data := new byte[32](_ => 0);
    for i := 0 to 11
      invariant forall j :: 0 <= j < 32 ==> data[j] == if j < i then 0xFF else 0
    {
      data[i] := 0xFF;
    }
    data[11] := EIDK as byte;
    forall j | 0 <= j < 4 { data[12 + j] := tsBytes[j]; }
    data[27] := EIDK as byte;
    forall j | 0 <= j < 4 { data[28 + j] := tsBytes[j]; }
  }

  method CalculateR(s: Setup, identityKey: bytes, timestamp: int) returns (r: Result<nat, CryptoError>)
    requires s.curve.n > 0
    ensures r == R(s, identityKey, timestamp)
  {
    if |identityKey| != 32 {
      return Err(BadIdentityKey);
    }
    var tsBytes := GetMaskedTimestamp(timestamp, EIDK);
    var data := FillStructure(tsBytes);
    var rDash := AesEcbEncrypt(s.aes, identityKey, data[..]);
    var rDashInt := FromBE(rDash.value);
    return Ok(rDashInt % s.curve.n);
  }

  method GenerateEID(s: Setup, identityKey: bytes, timestamp: int) returns (r: Result<bytes, CryptoError>)
    requires ValidSetup(s)
    ensures r == EID(s, identityKey, timestamp)
  {
    var scalar := CalculateR(s, identityKey, timestamp);
    if scalar.Err? {
      return Err(scalar.error);
    }
    if scalar.value == 0 {
      return Err(ZeroScalar);
    }
    BaseMul(s.curve, s.add, scalar.value);
    TwentyBytes();
    var x := XOf(PointMul(s, scalar.value, G(s.curve)));
    return Ok(FillBytes(x, 20));
  }

  // ---------- rotation ----------

  /** The masked timestamp, read big-endian, is the window start modulo 2^32. */
  lemma WindowValue(t: int)
    ensures FromBE(WindowBytes(t, EIDK)) == (1024 * (t / 1024)) % 0x1_0000_0000
    ensures FromBE(WindowBytes(t, EIDK)) == 1024 * ((t / 1024) % 0x40_0000)
  {
    SmallPowers();
    var w := t / 1024;
    FromToBE((1024 * w) % 0x1_0000_0000, 4);
    DivModUnique(1024 * w, 0x1_0000_0000, w / 0x40_0000, 1024 * (w % 0x40_0000));
  }

  /** The scalar, without its names for the parts: for the 4-byte window start ts, the two
      blocks 0xFF.. 10 ts and 0x00.. 10 ts are encrypted, read as one 32-byte big-endian
      number, first block first, and reduced. */
  lemma ScalarSpelled(s: Setup, key: bytes, t: int, ts: bytes)
    requires s.curve.n > 0 && |ts| == 4 && FromBE(ts) == (1024 * (t / 1024)) % 0x1_0000_0000
    ensures R(s, key, t).Ok? <==> |key| == 32
    ensures |key| == 32 ==>
              R(s, key, t) == Ok((FromBE(s.aes(key, seq(11, _ => 0xFF) + [10] + ts)) * Pow(256, 16)
                                  + FromBE(s.aes(key, Zeros(11) + [10] + ts))) % s.curve.n)
  {
    WindowValue(t);
    FromBEInjective(ts, WindowBytes(t, EIDK));
    TwoBlocks(s.aes, key, t);
    var r := RDash(s.aes, key, t);
    assert r == r[..16] + r[16..];
    FromBEAppend(r[..16], r[16..]);
  }

  /** The identifier exists exactly for a scalar that is not zero, and is the abscissa of its
      multiple of the generator in twenty big-endian bytes. */
  lemma IdentifierSpelled(s: Setup, key: bytes, t: int)
    requires ValidSetup(s)
    ensures EID(s, key, t).Ok? <==> R(s, key, t).Ok? && R(s, key, t).value != 0
    ensures EID(s, key, t).Ok? ==>
              && |EID(s, key, t).value| == 20
              && FromBE(EID(s, key, t).value) == XOf(ScalarMul(s.curve, s.add, R(s, key, t).value, G(s.curve)))
  {
    if EID(s, key, t).Ok? {
      var r := R(s, key, t).value;
      BaseMul(s.curve, s.add, r);
      TwentyBytes();
      var x := XOf(ScalarMul(s.curve, s.add, r, G(s.curve)));
      assert FillBytes(x, 20) == ToBE(x, 20);
    }
  }

  lemma SameWindow(t1: int, t2: int)
    ensures WindowBytes(t1, EIDK) == WindowBytes(t2, EIDK) <==> (t1 / 1024) % 0x40_0000 == (t2 / 1024) % 0x40_0000
  {
    WindowValue(t1);
    WindowValue(t2);
    if FromBE(WindowBytes(t1, EIDK)) == FromBE(WindowBytes(t2, EIDK)) {
      FromBEInjective(WindowBytes(t1, EIDK), WindowBytes(t2, EIDK));
    }
  }

  lemma TwoBlocks(aes: Cipher, key: bytes, t: int)
    ensures var ts, r := WindowBytes(t, EIDK), RDash(aes, key, t);
            && |r| == 32
            && r[..16] == aes(key, seq(11, _ => 0xFF) + [EIDK as byte] + ts)
            && r[16..] == aes(key, Zeros(11) + [EIDK as byte] + ts)
  {
    var ts := WindowBytes(t, EIDK);
    var a: Block := seq(11, _ => 0xFF) + [EIDK as byte] + ts;
    var b: Block := Zeros(11) + [EIDK as byte] + ts;
    assert Structure(ts) == a + b;
    EcbTwo(aes, key, a, b);
  }

  lemma EcbTwo(aes: Cipher, key: bytes, a: Block, b: Block)
    ensures Ecb(aes, key, a + b) == aes(key, a) + aes(key, b)
  {
    assert (a + b)[..16] == a && (a + b)[16..] == b;
    assert b[..16] == b && b[16..] == [];
    assert Ecb(aes, key, []) == [];
    assert aes(key, b) + [] == aes(key, b);
  }

  /** For every pair of times the encrypted structures agree exactly when the window
      indices agree modulo 2^22, and the two halves of one structure always differ. */
  lemma RotationExact(aes: Cipher, key: bytes, t1: int, t2: int)
    requires Permutation(aes)
    ensures RDash(aes, key, t1) == RDash(aes, key, t2) <==> (t1 / 1024) % 0x40_0000 == (t2 / 1024) % 0x40_0000
    ensures RDash(aes, key, t1)[..16] != RDash(aes, key, t1)[16..]
  {
    TwoBlocks(aes, key, t1);
    TwoBlocks(aes, key, t2);
    SameWindow(t1, t2);
    var a1: Block := Zeros(11) + [EIDK as byte] + WindowBytes(t1, EIDK);
    var a2: Block := Zeros(11) + [EIDK as byte] + WindowBytes(t2, EIDK);
    if RDash(aes, key, t1) == RDash(aes, key, t2) {
      assert aes(key, a1) == aes(key, a2);
      assert a1[12..] == WindowBytes(t1, EIDK) && a2[12..] == WindowBytes(t2, EIDK);
    }
    var f1: Block := seq(11, _ => 0xFF) + [EIDK as byte] + WindowBytes(t1, EIDK);
    assert f1[0] == 0xFF && a1[0] == 0;
    assert aes(key, f1) != aes(key, a1);
  }
}
