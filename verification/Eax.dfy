/** EAX as composed in eax.go from CMAC and counter mode. */
module Eax {
  import opened Options
  import opened NumberTheory
  import opened Octets
  import opened Arithmetic
  import opened Bytes
  import opened Cmac

  /** The block that starts every tweaked MAC: fifteen zeros and the flag. */
  function Prefix(flag: byte): Block {
    Zeros(15) + [flag]
  }

  function Omac(aes: Cipher, key: bytes, flag: byte, data: bytes): Block {
    Mac(aes, key, Prefix(flag) + data)
  }

  /** The i-th counter block: the initial one plus i, modulo 2^128. */
  function CounterBlock(iv: Block, i: nat): Block {
    ToBE((FromBE(iv) + i) % Pow(256, 16), 16)
  }

  /** `cipher.NewCTR(block, iv).XORKeyStream`. */
  function Ctr(aes: Cipher, key: bytes, iv: Block, data: bytes): (r: bytes)
    ensures |r| == |data|
  {
    seq(|data|, j requires 0 <= j < |data| => data[j] ^ aes(key, CounterBlock(iv, j / 16))[j % 16])
  }

  lemma CtrCancels(aes: Cipher, key: bytes, iv: Block, data: bytes)
    ensures Ctr(aes, key, iv, Ctr(aes, key, iv, data)) == data
  {
    var once := Ctr(aes, key, iv, data);
    forall j | 0 <= j < |data|
      ensures Ctr(aes, key, iv, once)[j] == data[j]
    {
      var k := aes(key, CounterBlock(iv, j / 16))[j % 16];
      assert once[j] == data[j] ^ k;
      assert (data[j] ^ k) ^ k == data[j];
    }
  }

  function Tag(aes: Cipher, key: bytes, nonce: bytes, header: bytes, ciphertext: bytes): Block {
    Xor(Xor(Omac(aes, key, 0, nonce), Omac(aes, key, 1, header)), Omac(aes, key, 2, ciphertext))
  }

  /** Ciphertext followed by its tag. */
  function Seal(aes: Cipher, key: bytes, nonce: bytes, header: bytes, plaintext: bytes): Result<bytes, CryptoError> {
    if !AesKeySize(key) then Err(InvalidKeySize) else
    var ciphertext := Ctr(aes, key, Omac(aes, key, 0, nonce), plaintext);
    Ok(ciphertext + Tag(aes, key, nonce, header, ciphertext))
  }

  function Open(aes: Cipher, key: bytes, nonce: bytes, header: bytes, sealed: bytes): Result<bytes, CryptoError> {
    if |sealed| < 16 then Err(ShortCiphertext)
    else if !AesKeySize(key) then Err(InvalidKeySize) else
    var ciphertext, tag := sealed[..|sealed| - 16], sealed[|sealed| - 16..];
    if tag == Tag(aes, key, nonce, header, ciphertext)
    then Ok(Ctr(aes, key, Omac(aes, key, 0, nonce), ciphertext))
    else Err(TagMismatch)
  }

  method EaxOmac(aes: Cipher, key: bytes, flag: byte, data: bytes) returns (r: Result<Block, CryptoError>)
    ensures r == if AesKeySize(key) then Ok(Omac(aes, key, flag, data)) else Err(InvalidKeySize)
  {
    var prefix := new byte[16](_ => 0);
    prefix[15] := flag;
    assert prefix[..] == Prefix(flag);
    r := Cmac.Cmac(aes, key, prefix[..] + data);
  }

  /** The byte loop that combines the three MACs. */
  method CombineMacs(a: Block, b: Block, c: Block) returns (tag: array<byte>)
    ensures fresh(tag) && tag[..] == Xor(Xor(a, b), c)
  {
    tag := new byte[16](_ => 0);
    for i := 0 to 16
      invariant forall k :: 0 <= k < i ==> tag[k] == a[k] ^ b[k] ^ c[k]
    {
      tag[i] := a[i] ^ b[i] ^ c[i];
    }
  }

  method EncryptEAX(aes: Cipher, key: bytes, nonce: bytes, header: bytes, plaintext: bytes)
    returns (r: Result<bytes, CryptoError>)
    ensures r == Seal(aes, key, nonce, header, plaintext)
  {
    if !AesKeySize(key) {
      return Err(InvalidKeySize);
    }
    var nonceMac := EaxOmac(aes, key, 0, nonce);
    var headerMac := EaxOmac(aes, key, 1, header);
    var ciphertext := Ctr(aes, key, nonceMac.value, plaintext);
    var cipherMac := EaxOmac(aes, key, 2, ciphertext);
    var tag := CombineMacs(nonceMac.value, headerMac.value, cipherMac.value);
    return Ok(ciphertext + tag[..]);
  }

  method DecryptEAX(aes: Cipher, key: bytes, nonce: bytes, header: bytes, sealed: bytes)
    returns (r: Result<bytes, CryptoError>)
    ensures r == Open(aes, key, nonce, header, sealed)
  {
    if |sealed| < 16 {
      return Err(ShortCiphertext);
    }
    var ciphertext := sealed[..|sealed| - 16];
    var tag := sealed[|sealed| - 16..];
    if !AesKeySize(key) {
      return Err(InvalidKeySize);
    }
    var nonceMac := EaxOmac(aes, key, 0, nonce);
    var headerMac := EaxOmac(aes, key, 1, header);
    var plaintext := Ctr(aes, key, nonceMac.value, ciphertext);
    var cipherMac := EaxOmac(aes, key, 2, ciphertext);
    var expected := CombineMacs(nonceMac.value, headerMac.value, cipherMac.value);
    if expected[..] != tag {
      return Err(TagMismatch);
    }
    return Ok(plaintext);
  }

  /** EAX is exact: decryption accepts `sealed` with message m exactly when encrypting m
      gives `sealed`. Keys of a wrong size are rejected on both sides. */
  lemma EaxExact(aes: Cipher, key: bytes, nonce: bytes, header: bytes, m: bytes, sealed: bytes)
    ensures Open(aes, key, nonce, header, sealed) == Ok(m) <==> Seal(aes, key, nonce, header, m) == Ok(sealed)
  {
    var iv := Omac(aes, key, 0, nonce);
    if AesKeySize(key) {
      if |sealed| >= 16 {
        var ciphertext, tag := sealed[..|sealed| - 16], sealed[|sealed| - 16..];
        assert sealed == ciphertext + tag;
        CtrCancels(aes, key, iv, ciphertext);
      }
      CtrCancels(aes, key, iv, m);
      var own := Ctr(aes, key, iv, m);
      var full := own + Tag(aes, key, nonce, header, own);
      assert full[..|full| - 16] == own && full[|full| - 16..] == Tag(aes, key, nonce, header, own);
    }
  }

  /** Which error a rejected string gives: too short comes before a wrong key size, and the
      tag is checked last. */
  lemma RejectedAs(aes: Cipher, key: bytes, nonce: bytes, header: bytes, sealed: bytes)
    ensures Open(aes, key, nonce, header, sealed) == Err(ShortCiphertext) <==> |sealed| < 16
    ensures Open(aes, key, nonce, header, sealed) == Err(InvalidKeySize) <==> |sealed| >= 16 && |key| !in {16, 24, 32}
    ensures Open(aes, key, nonce, header, sealed) == Err(TagMismatch) <==>
              |sealed| >= 16 && |key| in {16, 24, 32} && forall m :: Seal(aes, key, nonce, header, m) != Ok(sealed)
  {
    forall m ensures Open(aes, key, nonce, header, sealed) == Ok(m) <==> Seal(aes, key, nonce, header, m) == Ok(sealed) {
      EaxExact(aes, key, nonce, header, m, sealed);
    }
  }

  /** One message has one accepted ciphertext. */
  lemma AcceptedUnique(aes: Cipher, key: bytes, nonce: bytes, header: bytes, m: bytes, a: bytes, b: bytes)
    requires Open(aes, key, nonce, header, a) == Ok(m) && Open(aes, key, nonce, header, b) == Ok(m)
    ensures a == b
  {
    EaxExact(aes, key, nonce, header, m, a);
    EaxExact(aes, key, nonce, header, m, b);
  }

  /** Tweaked inputs of different flags or data never coincide, and none is empty. */
  lemma OmacInputsDistinct(flag1: byte, data1: bytes, flag2: byte, data2: bytes)
    ensures Prefix(flag1) + data1 == Prefix(flag2) + data2 <==> flag1 == flag2 && data1 == data2
    ensures |Prefix(flag1) + data1| >= 16
  {
    var a, b := Prefix(flag1) + data1, Prefix(flag2) + data2;
    assert a[15] == flag1 && b[15] == flag2;
    assert a[16..] == data1 && b[16..] == data2;
  }

  /** A tweaked MAC is one whole block masked with K1 when there is no data, and otherwise
      the chain over the data continued from the encrypted prefix. */
  lemma OmacContinues(aes: Cipher, key: bytes, flag: byte, data: bytes)
    ensures data == [] ==> Omac(aes, key, flag, data) == aes(key, Xor(Prefix(flag), SubKey1(aes, key)))
    ensures data != [] ==>
              Omac(aes, key, flag, data) ==
              Chain(aes, key, aes(key, Prefix(flag)), Format(data, SubKey1(aes, key), SubKey2(aes, key)))
  {
    var k1, k2 := SubKey1(aes, key), SubKey2(aes, key);
    var input := Prefix(flag) + data;
    if data == [] {
      assert input == Prefix(flag);
      var last: Block := Xor(input, k1);
      XorZero(last);
      assert Format(input, k1, k2) == [last];
      assert Chain(aes, key, ZERO, [last]) == Chain(aes, key, aes(key, Xor(ZERO, last)), [last][1..]);
    } else {
      assert input[..16] == Prefix(flag) && input[16..] == data;
      XorZero(Prefix(flag));
    }
  }

  lemma XorZero(b: Block)
    ensures Xor(ZERO, b) == b
  {
    assert forall i :: 0 <= i < 16 ==> 0 ^ b[i] == b[i];
  }

  lemma XorSame(x: Block, c: Block, d: Block)
    requires Xor(x, c) == Xor(x, d)
    ensures c == d
  {
    XorCommutes(x, c);
    XorCommutes(x, d);
    XorInjective(c, d, x);
  }

  /** The tag binds each of its parts: changing only the header, or only the ciphertext, is
      noticed exactly when that part's MAC changes. */
  lemma TagBinds(aes: Cipher, key: bytes, nonce: bytes, header: bytes, header2: bytes, c: bytes, c2: bytes)
    ensures Tag(aes, key, nonce, header, c) == Tag(aes, key, nonce, header2, c)
       <==> Omac(aes, key, 1, header) == Omac(aes, key, 1, header2)
    ensures Tag(aes, key, nonce, header, c) == Tag(aes, key, nonce, header, c2)
       <==> Omac(aes, key, 2, c) == Omac(aes, key, 2, c2)
  {
    var n, h, h2 := Omac(aes, key, 0, nonce), Omac(aes, key, 1, header), Omac(aes, key, 1, header2);
    var t, t2 := Omac(aes, key, 2, c), Omac(aes, key, 2, c2);
    if Xor(Xor(n, h), t) == Xor(Xor(n, h2), t) {
      XorInjective(Xor(n, h), Xor(n, h2), t);
      XorSame(n, h, h2);
    }
    if Xor(Xor(n, h), t) == Xor(Xor(n, h), t2) {
      XorSame(Xor(n, h), t, t2);
    }
  }

  /** A sealed message opens under another header exactly when the two headers have the same
      tweaked MAC, and then to the same plaintext. */
  lemma HeaderAuthenticated(aes: Cipher, key: bytes, nonce: bytes, header: bytes, header2: bytes, m: bytes)
    requires AesKeySize(key)
    ensures var sealed := Seal(aes, key, nonce, header, m).value;
      Open(aes, key, nonce, header2, sealed) ==
        if Omac(aes, key, 1, header) == Omac(aes, key, 1, header2) then Ok(m) else Err(TagMismatch)
  {
    var c := Ctr(aes, key, Omac(aes, key, 0, nonce), m);
    var sealed := c + Tag(aes, key, nonce, header, c);
    assert sealed[..|sealed| - 16] == c && sealed[|sealed| - 16..] == Tag(aes, key, nonce, header, c);
    TagBinds(aes, key, nonce, header, header2, c, c);
    CtrCancels(aes, key, Omac(aes, key, 0, nonce), m);
  }

  /** Counter blocks repeat exactly after 2^128 blocks. */
  lemma CounterRepeats(iv: Block, i: nat, j: nat)
    ensures CounterBlock(iv, i) == CounterBlock(iv, j) <==> i % Pow(256, 16) == j % Pow(256, 16)
  {
    CounterValue(iv, i);
    CounterValue(iv, j);
    AddMod(FromBE(iv), i, j, Pow(256, 16));
    if FromBE(CounterBlock(iv, i)) == FromBE(CounterBlock(iv, j)) {
      FromBEInjective(CounterBlock(iv, i), CounterBlock(iv, j));
    }
  }

  /** The ciphertext, byte by byte and without the tag: the keystream of byte j is that of
      the counter block with value nonce MAC + j/16 modulo 2^128. */
  lemma SealedByte(aes: Cipher, key: bytes, nonce: bytes, header: bytes, m: bytes, j: nat, counter: Block)
    requires AesKeySize(key) && j < |m|
    requires FromBE(counter) == (FromBE(Mac(aes, key, Zeros(16) + nonce)) + j / 16) % Pow(256, 16)
    ensures var sealed := Seal(aes, key, nonce, header, m);
      sealed.Ok? && |sealed.value| == |m| + 16 && sealed.value[j] == m[j] ^ aes(key, counter)[j % 16]
  {
    CounterFor(aes, key, nonce, j / 16, counter);
    SealedAt(aes, key, nonce, header, m, j, Omac(aes, key, 0, nonce));
  }

  lemma SealedAt(aes: Cipher, key: bytes, nonce: bytes, header: bytes, m: bytes, j: nat, iv: Block)
    requires AesKeySize(key) && j < |m| && iv == Omac(aes, key, 0, nonce)
    ensures var sealed := Seal(aes, key, nonce, header, m);
      sealed.Ok? && |sealed.value| == |m| + 16 && sealed.value[j] == m[j] ^ aes(key, CounterBlock(iv, j / 16))[j % 16]
  {
    SealedIsCtr(aes, key, nonce, header, m);
    CtrByte(aes, key, iv, m, j);
    var sealed := Seal(aes, key, nonce, header, m).value;
    assert sealed[j] == sealed[..|m|][j];
  }

  lemma CounterFor(aes: Cipher, key: bytes, nonce: bytes, i: nat, counter: Block)
    requires FromBE(counter) == (FromBE(Mac(aes, key, Zeros(16) + nonce)) + i) % Pow(256, 16)
    ensures counter == CounterBlock(Omac(aes, key, 0, nonce), i)
  {
    NonceMac(aes, key, nonce);
    CounterIs(Omac(aes, key, 0, nonce), i, counter);
  }

  lemma NonceMac(aes: Cipher, key: bytes, nonce: bytes)
    ensures Omac(aes, key, 0, nonce) == Mac(aes, key, Zeros(16) + nonce)
  {
    assert Prefix(0) == Zeros(16);
  }

  lemma SealedIsCtr(aes: Cipher, key: bytes, nonce: bytes, header: bytes, m: bytes)
    requires AesKeySize(key)
    ensures var sealed := Seal(aes, key, nonce, header, m);
      sealed.Ok? && |sealed.value| == |m| + 16 && sealed.value[..|m|] == Ctr(aes, key, Omac(aes, key, 0, nonce), m)
  {
  }

  lemma CtrByte(aes: Cipher, key: bytes, iv: Block, data: bytes, j: nat)
    requires j < |data|
    ensures Ctr(aes, key, iv, data)[j] == data[j] ^ aes(key, CounterBlock(iv, j / 16))[j % 16]
  {
  }

  lemma CounterIs(iv: Block, i: nat, counter: Block)
    requires FromBE(counter) == (FromBE(iv) + i) % Pow(256, 16)
    ensures counter == CounterBlock(iv, i)
  {
    CounterValue(iv, i);
    FromBEInjective(counter, CounterBlock(iv, i));
  }

  /** The tag, byte by byte: the XOR of the MACs of nonce, header and ciphertext, each behind
      fifteen zeros and its number. */
  lemma SealedTag(aes: Cipher, key: bytes, nonce: bytes, header: bytes, m: bytes, j: nat)
    requires AesKeySize(key) && j < 16
    ensures var sealed := Seal(aes, key, nonce, header, m);
      && sealed.Ok? && |sealed.value| == |m| + 16
      && sealed.value[|m| + j] ==
           Mac(aes, key, Zeros(15) + [0] + nonce)[j]
           ^ Mac(aes, key, Zeros(15) + [1] + header)[j]
           ^ Mac(aes, key, Zeros(15) + [2] + sealed.value[..|m|])[j]
  {
    var c := Ctr(aes, key, Omac(aes, key, 0, nonce), m);
    var sealed := c + Tag(aes, key, nonce, header, c);
    assert sealed[..|m|] == c;
  }

  /** Repetition does not show: under a block permutation two equal plaintext blocks of one
      message have equal ciphertext blocks exactly when they are a multiple of 2^128 blocks
      apart. */
  lemma EqualBlocksDiffer(aes: Cipher, key: bytes, iv: Block, data: bytes, i: nat, j: nat)
    requires Permutation(aes) && 16 * i + 16 <= |data| && 16 * j + 16 <= |data|
    requires data[16 * i..16 * i + 16] == data[16 * j..16 * j + 16]
    ensures var c := Ctr(aes, key, iv, data);
      c[16 * i..16 * i + 16] == c[16 * j..16 * j + 16] <==> i % Pow(256, 16) == j % Pow(256, 16)
  {
    CtrBlock(aes, key, iv, data, i);
    CtrBlock(aes, key, iv, data, j);
    CounterRepeats(iv, i, j);
    var p: Block := data[16 * i..16 * i + 16];
    var k, l := aes(key, CounterBlock(iv, i)), aes(key, CounterBlock(iv, j));
    if Xor(p, k) == Xor(p, l) {
      XorSame(p, k, l);
    }
  }

  lemma CtrBlock(aes: Cipher, key: bytes, iv: Block, data: bytes, i: nat)
    requires 16 * i + 16 <= |data|
    ensures Ctr(aes, key, iv, data)[16 * i..16 * i + 16] == Xor(data[16 * i..16 * i + 16], aes(key, CounterBlock(iv, i)))
  {
    var c, k := Ctr(aes, key, iv, data)[16 * i..16 * i + 16], aes(key, CounterBlock(iv, i));
    forall t | 0 <= t < 16 ensures c[t] == data[16 * i..16 * i + 16][t] ^ k[t] {
      DivModUnique(16 * i + t, 16, i, t);
      CtrByte(aes, key, iv, data, 16 * i + t);
      assert c[t] == Ctr(aes, key, iv, data)[16 * i + t];
    }
  }

  lemma CounterValue(iv: Block, i: nat)
    ensures FromBE(CounterBlock(iv, i)) == (FromBE(iv) + i) % Pow(256, 16)
  {
    var m := Pow(256, 16);
    var x := (FromBE(iv) + i) % m;
    FromToBE(x, 16);
    DivModUnique(x, m, 0, x);
  }

  lemma AddMod(v: int, i: int, j: int, m: int)
    requires m > 0
    ensures (v + i) % m == (v + j) % m <==> i % m == j % m
  {
    assert (v + i) - (v + j) == i - j;
    CongIffMod(v + i, v + j, m);
    CongIffMod(i, j, m);
  }
}
