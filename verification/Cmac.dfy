/** CMAC as computed by eax.go, against the block-list definition of
    NIST SP 800-38B sections 6.1 and 6.2. The block cipher is a parameter. */
module Cmac {
  import opened Options
  import opened NumberTheory
  import opened Octets
  import opened Arithmetic
  import opened Bytes

  /** A block cipher: key, then input block. */
  type Cipher = (bytes, Block) -> Block

  /** Different blocks encrypt differently under one key. */
  ghost predicate Permutation(aes: Cipher) {
    forall k, a: Block, b: Block :: aes(k, a) == aes(k, b) ==> a == b
  }

  datatype CryptoError =
    | InvalidKeySize
    | ShortCiphertext
    | TagMismatch
    | UnalignedInput
    | BadIdentityKey
    | ZeroScalar
    | EmptyRandom
    | InvalidEID

  /** Key sizes accepted by `aes.NewCipher`. */
  predicate AesKeySize(key: bytes) {
    |key| == 16 || |key| == 24 || |key| == 32
  }

  const ZERO: Block := Zeros(16)
  const RB128: Block := Zeros(15) + [0x87]

  // ---------- shifting and doubling ----------

  /** s shifted left by one bit, with c shifted in on the right. */
  function ShiftIn(s: bytes, c: byte): (r: bytes)
    ensures |r| == |s|
  {
    if |s| == 0 then [] else
    ShiftIn(s[..|s| - 1], s[|s| - 1] >> 7) + [(s[|s| - 1] << 1) | c]
  }

  method ShiftLeft(dst: array<byte>, src: array<byte>)
    requires dst != src && src.Length <= dst.Length
    modifies dst
    ensures dst[..src.Length] == ShiftIn(src[..], 0)
    ensures dst[src.Length..] == old(dst[src.Length..])
  {
    var carry: byte := 0;
    var i := src.Length - 1;
    ghost var shifted := ShiftIn(src[..], 0);
    while i >= 0
      invariant -1 <= i < src.Length
      invariant carry == if i + 1 < src.Length then src[i + 1] >> 7 else 0
      invariant forall k :: i < k < src.Length ==> dst[k] == shifted[k]
      invariant forall k :: src.Length <= k < dst.Length ==> dst[k] == old(dst[k])
    {
      ShiftInAt(src[..], 0, i);
      var n := src[i] << 1;
      dst[i] := n | carry;
      carry := src[i] >> 7;
      i := i - 1;
    }
  }

  /** `shiftLeft` doubles the big-endian value modulo 256^n, for every length n. */
  lemma {:induction false} ShiftDoubles(s: bytes, c: byte)
    requires c <= 1
    ensures FromBE(ShiftIn(s, c)) == (2 * FromBE(s) + c as int) % Pow(256, |s|)
  {
    if |s| > 0 {
      var hi, lo := s[..|s| - 1], s[|s| - 1];
      ShiftDoubles(hi, lo >> 7);
      ShiftedByte(lo, c);
      FromBESnoc(ShiftIn(hi, lo >> 7), (lo << 1) | c);
      CarryMod(FromBE(hi), lo as int, c as int, Pow(256, |s| - 1));
    }
  }

  lemma FromBESnoc(hi: bytes, lo: byte)
    ensures FromBE(hi + [lo]) == 256 * FromBE(hi) + lo as nat
  {
    assert (hi + [lo])[..|hi|] == hi;
  }

  lemma {:induction false} ShiftInAt(s: bytes, c: byte, i: nat)
    requires i < |s|
    ensures ShiftIn(s, c)[i] == (s[i] << 1) | (if i + 1 < |s| then s[i + 1] >> 7 else c)
  {
    if i < |s| - 1 {
      var hi := s[..|s| - 1];
      ShiftInAt(hi, s[|s| - 1] >> 7, i);
    }
  }

  predicate HighBit(b: Block) {
    b[0] & 0x80 != 0
  }

  /** The conditional doubling that derives K1 from L and K2 from K1. */
  function Double(b: Block): Block {
    if HighBit(b) then Xor(ShiftIn(b, 0), RB128) else ShiftIn(b, 0)
  }

  lemma DoubleAt(b: Block, i: nat)
    requires i < 16
    ensures Double(b)[i] ==
      ((b[i] << 1) | (if i < 15 then b[i + 1] >> 7 else 0)) ^ (if i == 15 && HighBit(b) then 0x87 else 0)
  {
    ShiftInAt(b, 0, i);
  }

  /** Doubling is linear over XOR, as multiplication by x in GF(2^128) must be. */
  lemma DoubleLinear(a: Block, b: Block)
    ensures Double(Xor(a, b)) == Xor(Double(a), Double(b))
  {
    forall i | 0 <= i < 16
      ensures Double(Xor(a, b))[i] == Xor(Double(a), Double(b))[i]
    {
      DoubleAt(a, i);
      DoubleAt(b, i);
      DoubleAt(Xor(a, b), i);
      TopBitXor(a[0], b[0]);
      if i < 15 {
        HighXor(a[i + 1], b[i + 1]);
        HighXor(b[i + 1], a[i + 1]);
        ShiftXor(a[i], b[i], a[i + 1] >> 7, b[i + 1] >> 7);
      } else {
        ShiftXor(a[i], b[i], 0, 0);
      }
    }
  }

  lemma TopBitXor(a: byte, b: byte)
    ensures (a ^ b) & 0x80 != 0 <==> (a & 0x80 != 0) != (b & 0x80 != 0)
  {
  }

  lemma ShiftXor(a: byte, b: byte, c: byte, d: byte)
    requires c <= 1 && d <= 1
    ensures ((a ^ b) << 1) | (c ^ d) == ((a << 1) | c) ^ ((b << 1) | d)
  {
  }

  lemma HighXor(u: byte, v: byte)
    ensures (u ^ v) >> 7 == (u >> 7) ^ (v >> 7) && u >> 7 <= 1
  {
  }

  /** Bit j of a byte, the lowest first. */
  predicate BitAt(x: byte, j: nat)
    requires j < 8
  {
    if j == 0 then x & 0x01 != 0 else if j == 1 then x & 0x02 != 0
    else if j == 2 then x & 0x04 != 0 else if j == 3 then x & 0x08 != 0
    else if j == 4 then x & 0x10 != 0 else if j == 5 then x & 0x20 != 0
    else if j == 6 then x & 0x40 != 0 else x & 0x80 != 0
  }

  /** A block as a polynomial over GF(2): the coefficient of x^i. */
  predicate Coefficient(b: Block, i: nat)
    requires i < 128
  {
    BitAt(b[15 - i / 8], i % 8)
  }

  /** Doubling multiplies by x modulo x^128 + x^7 + x^2 + x + 1. */
  lemma DoubleIsTimesX(b: Block, i: nat)
    requires i < 128
    ensures Coefficient(Double(b), i) <==>
            (i > 0 && Coefficient(b, i - 1)) != (Coefficient(b, 127) && i in {0, 1, 2, 7})
  {
    DoubleBit(b, 15 - i / 8, i % 8);
    if i > 0 {
      Neighbours(i);
    }
  }

  lemma DoubleBit(b: Block, k: nat, j: nat)
    requires k < 16 && j < 8
    ensures BitAt(Double(b)[k], j) <==>
            (if j > 0 then BitAt(b[k], j - 1) else k < 15 && BitAt(b[k + 1], 7))
              != (k == 15 && BitAt(b[0], 7) && j in {0, 1, 2, 7})
  {
    DoubleAt(b, k);
    DoubledByte(b[k], if k < 15 then b[k + 1] else 0, k == 15 && HighBit(b), j);
    assert k == 15 ==> Double(b)[k] == ((b[k] << 1) | ((0 as byte) >> 7)) ^ (if HighBit(b) then 0x87 else 0);
  }

  lemma DoubledByte(x: byte, next: byte, reduce: bool, j: nat)
    requires j < 8
    ensures BitAt(((x << 1) | (next >> 7)) ^ (if reduce then 0x87 else 0), j) <==>
            (if j > 0 then BitAt(x, j - 1) else BitAt(next, 7)) != (reduce && j in {0, 1, 2, 7})
  {
    TopBit(next);
    ShiftedBit(x, next >> 7, j);
    ReducedBit((x << 1) | (next >> 7), j);
  }

  lemma Neighbours(i: nat)
    requires 0 < i < 128
    ensures if i % 8 > 0 then (i - 1) / 8 == i / 8 && (i - 1) % 8 == i % 8 - 1
            else (i - 1) / 8 == i / 8 - 1 && (i - 1) % 8 == 7
  {
  }

  lemma TopBit(x: byte)
    ensures x >> 7 <= 1 && (x >> 7 == 1 <==> BitAt(x, 7))
  {
  }

  lemma ShiftedBit(x: byte, c: byte, j: nat)
    requires c <= 1 && j < 8
    ensures BitAt((x << 1) | c, j) <==> if j == 0 then c == 1 else BitAt(x, j - 1)
  {
  }

  lemma ReducedBit(x: byte, j: nat)
    requires j < 8
    ensures BitAt(x ^ 0x87, j) <==> BitAt(x, j) != (j in {0, 1, 2, 7})
    ensures BitAt(x ^ 0, j) <==> BitAt(x, j)
  {
  }

  /** lo shifted right by one bit, taking in the low bit of hi. */
  function RightByte(hi: byte, lo: byte): byte {
    (lo >> 1) | (hi << 7)
  }

  /** z shifted right by one bit, with the low bit of `top` as its new top bit. */
  function ShiftRight(z: Block, top: byte): Block {
    seq(16, i requires 0 <= i < 16 => RightByte(if i > 0 then z[i - 1] else top, z[i]))
  }

  /** Division by x in GF(2^128). */
  function Halve(y: Block): Block {
    if y[15] & 1 != 0 then ShiftRight(Xor(y, RB128), 1) else ShiftRight(y, 0)
  }

  lemma RightThenLeft(p: byte, z: byte, n: byte)
    ensures (RightByte(p, z) << 1) | (RightByte(z, n) >> 7) == z
    ensures z & 1 == 0 ==> RightByte(p, z) << 1 == z
    ensures p <= 1 ==> (RightByte(p, z) & 0x80 != 0 <==> p == 1)
  {
  }

  lemma LeftThenRight(p: byte, b: byte, n: byte)
    requires n <= 1
    ensures RightByte((p << 1) | (b >> 7), (b << 1) | n) == b
    ensures RightByte(if b & 0x80 != 0 then 1 else 0, (b << 1) | n) == b
    ensures (b << 1) & 1 == 0 && ((b << 1) ^ 0x87) & 1 == 1
  {
  }

  lemma ShiftLeftOfRight(z: Block, top: byte)
    requires z[15] & 1 == 0 && top <= 1
    ensures ShiftIn(ShiftRight(z, top), 0) == z && (HighBit(ShiftRight(z, top)) <==> top == 1)
  {
    RightThenLeft(top, z[0], z[1]);
    forall i | 0 <= i < 16
      ensures ShiftIn(ShiftRight(z, top), 0)[i] == z[i]
    {
      ShiftInAt(ShiftRight(z, top), 0, i);
      RightThenLeft(if i > 0 then z[i - 1] else top, z[i], if i < 15 then z[i + 1] else 0);
    }
  }

  lemma ShiftRightOfLeft(b: Block)
    ensures ShiftRight(ShiftIn(b, 0), if HighBit(b) then 1 else 0) == b && ShiftIn(b, 0)[15] == b[15] << 1
  {
    forall i | 0 <= i < 16
      ensures ShiftRight(ShiftIn(b, 0), if HighBit(b) then 1 else 0)[i] == b[i]
    {
      ShiftInAt(b, 0, i);
      if i > 0 { ShiftInAt(b, 0, i - 1); }
      if i < 15 { HighXor(b[i + 1], 0); }
      LeftThenRight(if i > 0 then b[i - 1] else 0, b[i], if i < 15 then b[i + 1] >> 7 else 0);
    }
    ShiftInAt(b, 0, 15);
  }

  /** Doubling is a bijection on blocks: `Halve` inverts it on both sides. */
  lemma DoubleBijective(b: Block)
    ensures Double(Halve(b)) == b && Halve(Double(b)) == b
  {
    var odd := b[15] & 1 != 0;
    var z: Block := if odd then Xor(b, RB128) else b;
    LowBitCleared(b[15]);
    ShiftLeftOfRight(z, if odd then 1 else 0);
    XorCancels(b, RB128);

    ShiftRightOfLeft(b);
    LeftThenRight(0, b[15], 0);
    XorCancels(ShiftIn(b, 0), RB128);
  }

  lemma LowBitCleared(b: byte)
    ensures b & 1 != 0 ==> (b ^ 0x87) & 1 == 0
  {
  }

  // ---------- the block list and its chain ----------

  /** A final partial block: 0x80 then zeros. */
  function Pad(rest: bytes): Block
    requires |rest| < 16
  {
    rest + [0x80] + Zeros(15 - |rest|)
  }

  /** The message as blocks: the last one is a whole block masked with k1, or a padded
      partial (possibly empty) block masked with k2. */
  function Format(data: bytes, k1: Block, k2: Block): seq<Block> {
    if |data| < 16 then [Xor(Pad(data), k2)]
    else if |data| == 16 then [Xor(data, k1)]
    else [data[..16]] + Format(data[16..], k1, k2)
  }

  /** CBC-MAC chaining: C_i = E(C_{i-1} xor M_i). */
  function Chain(aes: Cipher, key: bytes, x: Block, blocks: seq<Block>): Block
    decreases |blocks|
  {
    if |blocks| == 0 then x
    else Chain(aes, key, aes(key, Xor(x, blocks[0])), blocks[1..])
  }

  function SubKey1(aes: Cipher, key: bytes): Block {
    Double(aes(key, ZERO))
  }

  function SubKey2(aes: Cipher, key: bytes): Block {
    Double(SubKey1(aes, key))
  }

  /** Only zero is its own double. */
  lemma DoubleFixesZero(b: Block)
    ensures Double(b) == b <==> b == ZERO
  {
    if Double(b) == b {
      DoubleAt(b, 15);
      FixedLastByte(b[15]);
      ForcedZero(b, 0);
    } else {
      forall i | 0 <= i < 16 ensures b == ZERO ==> Double(b)[i] == b[i] {
        DoubleAt(b, i);
      }
    }
  }

  lemma FixedLastByte(x: byte)
    ensures x == ((x << 1) | 0) ^ 0x87 ==> x < 0x80
    ensures x == ((x << 1) | 0) ^ 0 ==> x == 0
  {
  }

  lemma FixedByte(x: byte, next: byte)
    requires next < 0x80 && x == ((x << 1) | (next >> 7)) ^ 0
    ensures x == 0
  {
  }

  /** Below a byte without top bit every byte of a fixed block is zero, so that nothing is
      reduced and the last byte is zero too. */
  lemma {:induction false} ForcedZero(b: Block, i: nat)
    requires Double(b) == b && b[15] < 0x80 && i < 16
    ensures forall k :: i <= k < 15 ==> b[k] == 0
    ensures i == 0 ==> b == ZERO
    decreases 16 - i
  {
    if i < 15 {
      ForcedZero(b, i + 1);
      DoubleAt(b, i);
      FixedByte(b[i], b[i + 1]);
    }
    if i == 0 {
      DoubleAt(b, 15);
      assert !HighBit(b) by { assert b[0] == 0; }
      FixedLastByte(b[15]);
    }
  }

  /** The two masks differ, so that whole and padded last blocks are told apart, unless the
      cipher maps the zero block to itself. */
  lemma MasksDiffer(aes: Cipher, key: bytes)
    ensures SubKey1(aes, key) == SubKey2(aes, key) <==> aes(key, ZERO) == ZERO
  {
    var l := aes(key, ZERO);
    DoubleFixesZero(l);
    DoubleFixesZero(Double(l));
    DoubleBijective(l);
    DoubleBijective(ZERO);
    DoubleFixesZero(ZERO);
  }

  /** CMAC by the standard's definition. */
  function Mac(aes: Cipher, key: bytes, data: bytes): Block {
    Chain(aes, key, ZERO, Format(data, SubKey1(aes, key), SubKey2(aes, key)))
  }

  method XorBytes(dst: array<byte>, a: array<byte>, b: bytes)
    requires dst.Length <= a.Length && dst.Length <= |b|
    modifies dst
    ensures dst[..] == Xor(old(a[..dst.Length]), b[..dst.Length])
  {
    for i := 0 to dst.Length
      invariant forall k :: 0 <= k < i ==> dst[k] == old(a[k]) ^ b[k]
      invariant forall k :: i <= k < dst.Length ==> a[k] == old(a[k])
    {
      dst[i] := a[i] ^ b[i];
    }
  }

  /** In-place block encryption. */
  method EncryptInPlace(aes: Cipher, key: bytes, x: array<byte>)
    requires x.Length == 16
    modifies x
    ensures x[..] == aes(key, old(x[..]))
  {
    var out := aes(key, x[..]);
    forall i | 0 <= i < 16 { x[i] := out[i]; }
    assert x[..] == out;
  }

  /** One chaining step on the mutable block x. */
  method ChainStep(aes: Cipher, key: bytes, x: array<byte>, block: bytes)
    requires x.Length == 16 && |block| == 16
    modifies x
    ensures x[..] == aes(key, Xor(old(x[..]), block))
  {
    XorBytes(x, x, block);
    assert old(x[..16]) == old(x[..]) && block[..16] == block;
    EncryptInPlace(aes, key, x);
  }

  /** One subkey: shift, then reduce when the top bit was set. */
  method DeriveSubKey(from: array<byte>) returns (k: array<byte>)
    requires from.Length == 16
    ensures fresh(k) && k.Length == 16 && k[..] == Double(from[..])
  {
    k := new byte[16];
    ShiftLeft(k, from);
    assert k[..16] == k[..];
    if from[0] & 0x80 != 0 {
      XorBytes(k, k, RB128);
      assert RB128[..16] == RB128;
    }
  }

  /** Mask the final block in place and chain it. */
  method ChainLast(aes: Cipher, key: bytes, x: array<byte>, last: array<byte>, mask: Block)
    requires x.Length == 16 && last.Length == 16 && x != last
    modifies x, last
    ensures x[..] == Chain(aes, key, old(x[..]), [Xor(old(last[..]), mask)])
  {
    XorBytes(last, last, mask);
    assert old(last[..16]) == old(last[..]) && mask[..16] == mask;
    ChainStep(aes, key, x, last[..]);
  }

  /** The full blocks before the last one. */
  method ChainRegular(aes: Cipher, key: bytes, x: array<byte>, data: bytes, count: nat, ghost k1: Block, ghost k2: Block)
    requires x.Length == 16 && (count * 16 < |data| || count == 0)
    modifies x
    ensures Chain(aes, key, x[..], Format(data[count * 16..], k1, k2))
         == Chain(aes, key, old(x[..]), Format(data, k1, k2))
  {
    assert data[0..] == data;
    for i := 0 to count
      invariant Chain(aes, key, x[..], Format(data[i * 16..], k1, k2))
             == Chain(aes, key, old(x[..]), Format(data, k1, k2))
    {
      ghost var rest := data[i * 16..];
      assert rest[..16] == data[i * 16..(i + 1) * 16] && rest[16..] == data[(i + 1) * 16..];
      ChainStep(aes, key, x, data[i * 16..(i + 1) * 16]);
    }
  }

  /** The last block: copied, masked with k1 when full, else padded and masked with k2. */
  method ChainTail(aes: Cipher, key: bytes, x: array<byte>, rest: bytes, k1: Block, k2: Block)
    requires x.Length == 16 && 0 < |rest| <= 16
    modifies x
    ensures x[..] == Chain(aes, key, old(x[..]), Format(rest, k1, k2))
  {
    var last := new byte[16](_ => 0);
    forall i | 0 <= i < |rest| { last[i] := rest[i]; }
    if |rest| == 16 {
      assert last[..] == rest && x[..] == old(x[..]);
      ChainLast(aes, key, x, last, k1);
    } else {
      last[|rest|] := 0x80;
      assert last[..] == Pad(rest) && x[..] == old(x[..]);
      ChainLast(aes, key, x, last, k2);
    }
  }

  method Cmac(aes: Cipher, key: bytes, data: bytes) returns (r: Result<Block, CryptoError>)
    ensures r == if AesKeySize(key) then Ok(Mac(aes, key, data)) else Err(InvalidKeySize)
  {
    if !AesKeySize(key) {
      return Err(InvalidKeySize);
    }
    var L := new byte[16](_ => 0);
    assert L[..] == ZERO;
    EncryptInPlace(aes, key, L);
    var K1 := DeriveSubKey(L);
    var K2 := DeriveSubKey(K1);
    var k1: Block, k2: Block := K1[..], K2[..];
    assert k1 == SubKey1(aes, key) && k2 == SubKey2(aes, key);

    var x := new byte[16](_ => 0);
    assert x[..] == ZERO;
    var n := |data| / 16;
    var rem := |data| % 16;

    if |data| == 0 {
      var last := new byte[16](_ => 0);
      last[0] := 0x80;
      assert last[..] == Pad(data);
      ChainLast(aes, key, x, last, k2);
      return Ok(x[..]);
    }

    var lastIsFull := rem == 0;
    var numRegular := n;
    if lastIsFull {
      numRegular := n - 1;
    }
    ChainRegular(aes, key, x, data, numRegular, k1, k2);

    ChainTail(aes, key, x, data[numRegular * 16..], k1, k2);
    return Ok(x[..]);
  }

  // ---------- the standard, block by block ----------

  /** The chaining value after the first i whole blocks. */
  function After(aes: Cipher, key: bytes, data: bytes, i: nat): Block
    requires 16 * i <= |data|
  {
    if i == 0 then Zeros(16) else aes(key, Xor(After(aes, key, data, i - 1), data[16 * (i - 1)..16 * i]))
  }

  lemma {:induction false} ChainAfter(aes: Cipher, key: bytes, data: bytes, i: nat, k1: Block, k2: Block)
    requires i == 0 || 16 * i < |data|
    ensures Chain(aes, key, ZERO, Format(data, k1, k2)) == Chain(aes, key, After(aes, key, data, i), Format(data[16 * i..], k1, k2))
  {
    if i > 0 {
      ChainAfter(aes, key, data, i - 1, k1, k2);
      var rest := data[16 * (i - 1)..];
      assert rest[..16] == data[16 * (i - 1)..16 * i] && rest[16..] == data[16 * i..];
    } else {
      assert data[0..] == data;
    }
  }

  lemma ChainOne(aes: Cipher, key: bytes, x: Block, b: Block)
    ensures Chain(aes, key, x, [b]) == aes(key, Xor(x, b))
  {
    assert [b][1..] == [];
  }

  /** Sections 6.1 and 6.2 of the standard: all blocks but the last are chained from zero;
      the last one is masked with the doubled encryption of zero when whole, and otherwise
      padded with a one bit and zeros and masked with its double. */
  lemma MacByStandard(aes: Cipher, key: bytes, data: bytes)
    ensures var n, l := |data| / 16, aes(key, Zeros(16));
      Mac(aes, key, data) ==
        if n > 0 && |data| == 16 * n
        then aes(key, Xor(After(aes, key, data, n - 1), Xor(data[16 * (n - 1)..], Double(l))))
        else aes(key, Xor(After(aes, key, data, n), Xor(data[16 * n..] + [0x80] + Zeros(15 - |data| % 16), Double(Double(l)))))
  {
    var n, k1, k2 := |data| / 16, SubKey1(aes, key), SubKey2(aes, key);
    if n > 0 && |data| == 16 * n {
      ChainAfter(aes, key, data, n - 1, k1, k2);
      LastWhole(aes, key, After(aes, key, data, n - 1), data[16 * (n - 1)..], k1, k2);
    } else {
      ChainAfter(aes, key, data, n, k1, k2);
      LastPartial(aes, key, After(aes, key, data, n), data[16 * n..], k1, k2);
    }
  }

  lemma LastWhole(aes: Cipher, key: bytes, x: Block, rest: bytes, k1: Block, k2: Block)
    requires |rest| == 16
    ensures Chain(aes, key, x, Format(rest, k1, k2)) == aes(key, Xor(x, Xor(rest, k1)))
  {
    ChainOne(aes, key, x, Xor(rest, k1));
  }

  lemma LastPartial(aes: Cipher, key: bytes, x: Block, rest: bytes, k1: Block, k2: Block)
    requires |rest| < 16
    ensures Chain(aes, key, x, Format(rest, k1, k2)) == aes(key, Xor(x, Xor(rest + [0x80] + Zeros(15 - |rest|), k2)))
  {
    ChainOne(aes, key, x, Xor(Pad(rest), k2));
  }

  // ---------- formatting is injective ----------

  /** Whether the last block is masked with k1. */
  predicate WholeBlocks(data: bytes) {
    |data| > 0 && |data| % 16 == 0
  }

  lemma PadInjective(a: bytes, b: bytes)
    requires |a| < 16 && |b| < 16 && Pad(a) == Pad(b)
    ensures a == b
  {
    PadMark(a, |b|);
    PadMark(b, |a|);
    if |a| == |b| {
      assert a == Pad(a)[..|a|] && b == Pad(b)[..|b|];
    }
  }

  /** The mark is the last nonzero byte of a padded block. */
  lemma PadMark(a: bytes, k: nat)
    requires |a| < 16 && k < 16
    ensures Pad(a)[|a|] == 0x80 && (k > |a| ==> Pad(a)[k] == 0)
  {
  }

  /** Distinct messages differ in their block list or in the choice of mask. */
  lemma {:induction false} FormatInjective(a: bytes, b: bytes, k1: Block, k2: Block)
    requires Format(a, k1, k2) == Format(b, k1, k2)
    requires WholeBlocks(a) == WholeBlocks(b)
    ensures a == b
    decreases |a|
  {
    FormatLength(a, k1, k2);
    FormatLength(b, k1, k2);
    var f, g := Format(a, k1, k2), Format(b, k1, k2);
    if |a| > 16 {
      assert |b| > 16;
      assert a[..16] == f[0] == g[0] == b[..16];
      assert f[1..] == g[1..];
      FormatInjective(a[16..], b[16..], k1, k2);
      assert a == a[..16] + a[16..] && b == b[..16] + b[16..];
    } else if WholeBlocks(a) {
      assert f[0] == Xor(a, k1) && g[0] == Xor(b, k1);
      XorInjective(a, b, k1);
    } else {
      assert f[0] == Xor(Pad(a), k2) && g[0] == Xor(Pad(b), k2);
      XorInjective(Pad(a), Pad(b), k2);
      PadInjective(a, b);
    }
  }

  lemma {:induction false} FormatLength(data: bytes, k1: Block, k2: Block)
    ensures |Format(data, k1, k2)| == if WholeBlocks(data) then |data| / 16 else |data| / 16 + 1
  {
    if |data| > 16 {
      FormatLength(data[16..], k1, k2);
    }
  }
}
