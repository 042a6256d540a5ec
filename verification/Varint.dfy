/** The variable-length size prefix of push.go. */
module Varint {
  import opened Options
  import opened NumberTheory
  import opened Bits
  import opened Octets
  import opened Arithmetic

  const WORD: nat := 0x1_0000_0000

  datatype ReadError =
    | EndOfStream
    | VarintOverflow
    | UnsupportedVersion
    | Oversized
    | UnknownTag

  predicate Continues(b: byte) {
    b & 0x80 != 0
  }

  function Low7(b: byte): nat {
    (b & 0x7F) as nat
  }

  function ContinuedByte(x: nat): byte {
    ((x % 256) as byte) | 0x80
  }

  /** Seven bits at a time, least significant first; all but the last byte marked. */
  function Encode(x: nat): bytes {
    if x >= 0x80 then [ContinuedByte(x)] + Encode(x / 128) else [x as byte]
  }

  method EncodeVarint32(value: nat) returns (buf: bytes)
    requires value < WORD
    ensures buf == Encode(value)
  {
    var x: nat := value;
    buf := [];
    while x >= 0x80
      invariant buf + Encode(x) == Encode(value)
    {
      buf := buf + [ContinuedByte(x)];
      assert Pow(2, 7) == 128 by { assert Pow(2, 3) == 8 && Pow(2, 5) == 32; }
      x := Shr(x, 7);
    }
    buf := buf + [x as byte];
  }

  /** The decoder's loop from a given shift and partial result. */
  function DecodeFrom(s: bytes, shift: nat, result: nat): Result<(nat, bytes), ReadError>
    decreases |s|
  {
    if |s| == 0 then Err(EndOfStream)
    else if shift >= 32 then Err(VarintOverflow)
    else
      var next := BitOr(result, Shl(Low7(s[0]), shift) % WORD);
      if !Continues(s[0]) then Ok((next, s[1..]))
      else DecodeFrom(s[1..], shift + 7, next)
  }

  function Decode(s: bytes): Result<(nat, bytes), ReadError> {
    DecodeFrom(s, 0, 0)
  }

  // ---------- what the decoder computes ----------

  /** Length of the shortest prefix of s ending in an unmarked byte; |s| + 1 if none. */
  function PrefixLength(s: bytes): (n: nat)
    ensures 1 <= n <= |s| + 1
  {
    if |s| == 0 then 1 else if !Continues(s[0]) then 1 else 1 + PrefixLength(s[1..])
  }

  /** The sum of (b_i mod 128) * 128^i. */
  function Weigh(s: bytes): nat {
    if |s| == 0 then 0 else Low7(s[0]) + 128 * Weigh(s[1..])
  }

  lemma ByteBits(b: byte)
    ensures Low7(b) == b as nat % 128 && (Continues(b) <==> b as nat >= 128)
  {
    SevenBits(b);
  }

  lemma ContinuedBits(x: nat)
    ensures Continues(ContinuedByte(x)) && Low7(ContinuedByte(x)) == x % 128
  {
    var b: byte := (x % 256) as byte;
    MarkKeepsLow(b);
    ByteBits(b);
    ByteRoundTrip(x % 256);
    ModOfMod(x);
  }

  lemma Sevens()
    ensures Pow(2, 0) == 1 && Pow(2, 7) == 128 && Pow(2, 14) == 0x4000
    ensures Pow(2, 21) == 0x20_0000 && Pow(2, 28) == 0x1000_0000
  {
    assert Pow(2, 3) == 8 && Pow(2, 5) == 32 && Pow(2, 7) == 128;
    PowAdd(2, 7, 7);
    PowAdd(2, 14, 7);
    PowAdd(2, 14, 14);
  }

  /** The weight of the i-th group. */
  function Weight(i: nat): nat {
    Pow(2, 7 * i)
  }

  lemma Weights(i: nat)
    requires i <= 4
    ensures Weight(i) == if i == 0 then 1 else if i == 1 then 128 else if i == 2 then 0x4000
                         else if i == 3 then 0x20_0000 else 0x1000_0000
    ensures i < 4 ==> Weight(i + 1) == 128 * Weight(i)
  {
    Sevens();
  }

  /** One accumulation step: or-ing in seven shifted bits adds them, modulo 2^32. */
  lemma Accumulate(r: nat, l: nat, i: nat)
    requires i <= 4 && l < 128 && r < Weight(i)
    ensures BitOr(r, Shl(l, 7 * i) % WORD) == (r + Weight(i) * l) % WORD
    ensures i < 4 ==> (r + Weight(i) * l) % WORD == r + Weight(i) * l < Weight(i + 1)
  {
    Weights(i);
    var p := Weight(i);
    assert Shl(l, 7 * i) == p * l;
    if i < 4 {
      LowGroup(r, l, p);
      OrDisjoint(r, l, 7 * i);
    } else {
      TopGroup(r, l);
      OrDisjoint(r, l % 16, 28);
      assert Shl(l % 16, 28) == 0x1000_0000 * (l % 16);
    }
  }

  lemma LowGroup(r: nat, l: nat, p: nat)
    requires l < 128 && r < p <= 0x20_0000
    ensures (p * l) % WORD == p * l && (r + p * l) % WORD == r + p * l < 128 * p
  {
    MulMonotone(l, 127, p);
    SmallSum(r, p, p * l);
  }

  lemma SmallSum(r: nat, p: nat, q: nat)
    requires r < p <= 0x20_0000 && q <= 127 * p
    ensures q % WORD == q && (r + q) % WORD == r + q < 128 * p
  {
  }

  lemma TopGroup(r: nat, l: nat)
    requires l < 128 && r < 0x1000_0000
    ensures (0x1000_0000 * l) % WORD == 0x1000_0000 * (l % 16)
    ensures (r + 0x1000_0000 * l) % WORD == r + 0x1000_0000 * (l % 16)
  {
    DivModUnique(0x1000_0000 * l, WORD, l / 16, 0x1000_0000 * (l % 16));
    DivModUnique(r + 0x1000_0000 * l, WORD, l / 16, r + 0x1000_0000 * (l % 16));
  }

  /** The result of continuing from partial result r at group i with the groups of s. */
  function Total(r: nat, i: nat, s: bytes): nat {
    (r + Weight(i) * Weigh(s)) % WORD
  }

  /** One unrolling of the decoder's loop, in arithmetic terms. */
  lemma DecodeStep(s: bytes, i: nat, r: nat)
    requires |s| > 0 && i <= 4 && r < Weight(i)
    ensures var next := Total(r, i, s[..1]);
      DecodeFrom(s, 7 * i, r) ==
        if Continues(s[0]) then DecodeFrom(s[1..], 7 * (i + 1), next) else Ok((next, s[1..]))
    ensures i < 4 ==> Total(r, i, s[..1]) == r + Weight(i) * Low7(s[0]) < Weight(i + 1)
  {
    var l := Low7(s[0]);
    Low7Small(s[0]);
    OneGroup(s);
    Accumulate(r, l, i);
    var next := BitOr(r, Shl(l, 7 * i) % WORD);
    assert next == Total(r, i, s[..1]);
    assert 7 * i < 32 && 7 * i + 7 == 7 * (i + 1);
    assert DecodeFrom(s, 7 * i, r) == if Continues(s[0]) then DecodeFrom(s[1..], 7 * i + 7, next) else Ok((next, s[1..]));
  }

  lemma Low7Small(b: byte)
    ensures Low7(b) < 128
  {
    ByteBits(b);
  }

  lemma TotalStep(s: bytes, n: nat, i: nat, r: nat)
    requires 1 <= n <= |s| && i < 4 && Total(r, i, s[..1]) == r + Weight(i) * Low7(s[0])
    ensures Total(Total(r, i, s[..1]), i + 1, s[1..][..n - 1]) == Total(r, i, s[..n])
  {
    MoreGroups(s, n);
    Weights(i);
    StepWeight(r, Weight(i), Low7(s[0]), Weigh(s[1..][..n - 1]));
  }

  lemma {:induction false} DecodeFromExact(s: bytes, i: nat, r: nat)
    requires i <= 5 && (i < 5 ==> r < Weight(i))
    ensures var n := PrefixLength(s);
      DecodeFrom(s, 7 * i, r) ==
        if i + n <= 5 && n <= |s| then Ok((Total(r, i, s[..n]), s[n..]))
        else if i + |s| > 5 then Err(VarintOverflow)
        else Err(EndOfStream)
    decreases |s|
  {
    if |s| > 0 && i < 5 {
      var n := PrefixLength(s);
      DecodeStep(s, i, r);
      if Continues(s[0]) {
        DecodeFromExact(s[1..], i + 1, Total(r, i, s[..1]));
        if i < 4 && n <= |s| {
          TotalStep(s, n, i, r);
          MoreGroups(s, n);
        }
      }
    }
  }

  lemma OneGroup(s: bytes)
    requires |s| > 0
    ensures Weigh(s[..1]) == Low7(s[0])
  {
    assert s[..1][1..] == [];
  }

  lemma MoreGroups(s: bytes, n: nat)
    requires 1 <= n <= |s|
    ensures Weigh(s[..n]) == Low7(s[0]) + 128 * Weigh(s[1..][..n - 1]) && s[1..][n - 1..] == s[n..]
  {
    assert s[..n][1..] == s[1..][..n - 1];
  }

  lemma StepWeight(r: nat, p: nat, l: nat, w: nat)
    ensures (r + p * l) + (128 * p) * w == r + p * (l + 128 * w)
  {
    assert p * (l + 128 * w) == p * l + p * (128 * w);
    assert (128 * p) * w == p * (128 * w);
  }

  /** The decoder, characterised on every input: it accepts exactly when one of the first
      five bytes is unmarked, reads up to and including that byte, and returns the weighted
      sum modulo 2^32; otherwise it overflows on a sixth byte or runs out of input. */
  lemma DecodeExact(s: bytes)
    ensures var n := PrefixLength(s);
      Decode(s) ==
        if n <= 5 && n <= |s| then Ok((Weigh(s[..n]) % WORD, s[n..]))
        else if |s| > 5 then Err(VarintOverflow)
        else Err(EndOfStream)
  {
    assert Weight(0) == 1;
    DecodeFromExact(s, 0, 0);
    if PrefixLength(s) <= |s| {
      assert Total(0, 0, s[..PrefixLength(s)]) == Weigh(s[..PrefixLength(s)]) % WORD;
    }
  }

  // ---------- round trip ----------

  lemma {:induction false} EncodeShape(x: nat, tail: bytes)
    ensures PrefixLength(Encode(x) + tail) == |Encode(x)| && Weigh(Encode(x)) == x
    ensures x < 128 ==> |Encode(x)| == 1
    ensures x >= 128 ==> |Encode(x)| == 1 + |Encode(x / 128)|
  {
    var e := Encode(x);
    if x >= 128 {
      EncodeShape(x / 128, tail);
      ContinuedBits(x);
      assert (e + tail)[1..] == Encode(x / 128) + tail;
      assert e[1..] == Encode(x / 128);
    } else {
      var b := x as byte;
      ByteRoundTrip(x);
      ByteBits(b);
      assert e[1..] == [];
    }
  }

  lemma EncodeLength(x: nat)
    requires x < WORD
    ensures 1 <= |Encode(x)| <= 5
  {
    EncodeShape(x, []);
    EncodeShape(x / 128, []);
    EncodeShape(x / 128 / 128, []);
    EncodeShape(x / 128 / 128 / 128, []);
    EncodeShape(x / 128 / 128 / 128 / 128, []);
  }

  /** Decoding undoes encoding and leaves exactly what follows. */
  lemma VarintRoundTrip(x: nat, tail: bytes)
    requires x < WORD
    ensures Decode(Encode(x) + tail) == Ok((x, tail))
  {
    var s := Encode(x) + tail;
    EncodeShape(x, tail);
    EncodeLength(x);
    DecodeExact(s);
    assert s[..|Encode(x)|] == Encode(x) && s[|Encode(x)|..] == tail;
    DivModUnique(x, WORD, 0, x);
  }

  /** No encoding is a proper prefix of another. */
  lemma EncodePrefixFree(x: nat, y: nat)
    requires x < WORD && y < WORD && Encode(x) <= Encode(y)
    ensures x == y
  {
    var tail := Encode(y)[|Encode(x)|..];
    assert Encode(x) + tail == Encode(y) == Encode(y) + [];
    VarintRoundTrip(x, tail);
    VarintRoundTrip(y, []);
  }

  /** Padding is accepted, so decoding is not injective: both inputs decode to zero. */
  lemma DecodeNotInjective()
    ensures Decode([0]) == Ok((0, [])) && Decode([0x80, 0]) == Ok((0, []))
  {
    var a: bytes := [0];
    var b: bytes := [0x80, 0];
    assert b[1..] == a && a[..1] == a && b[..2] == b;
    assert PrefixLength(a) == 1 && PrefixLength(b) == 2;
    assert Weigh(a) == 0 by { OneGroup(a); }
    assert Weigh(b) == 0 by { MoreGroups(b, 2); assert b[1..][..1] == a; }
    DecodeExact(a);
    DecodeExact(b);
  }

  /** The fifth byte is shifted by 28, so its upper bits are lost: this input reads as 2^32
      and decodes to zero as well. */
  lemma FifthByteLosesBits()
    ensures var s: bytes := [0x80, 0x80, 0x80, 0x80, 0x10];
      Weigh(s) == WORD && Decode(s) == Ok((0, []))
  {
    var s: bytes := [0x80, 0x80, 0x80, 0x80, 0x10];
    FifthByte();
    assert s[..5] == s;
    DecodeExact(s);
  }

  lemma FifthByte()
    ensures var s: bytes := [0x80, 0x80, 0x80, 0x80, 0x10];
      Weigh(s) == WORD && PrefixLength(s) == 5
  {
    var t1: bytes := [0x10];
    var t2, t3 := [0x80] + t1, [0x80] + ([0x80] + t1);
    assert Low7(t1[0]) == 16 && !Continues(t1[0]) && t1[1..] == [];
    EmptyGroup(t1);
    EmptyGroup(t2);
    EmptyGroup(t3);
    EmptyGroup([0x80] + t3);
    assert [0x80] + ([0x80] + t3) == [0x80, 0x80, 0x80, 0x80, 0x10];
  }

  /** A marked byte with no bits set shifts what follows by a group. */
  lemma EmptyGroup(t: bytes)
    ensures Weigh([0x80] + t) == 128 * Weigh(t) && PrefixLength([0x80] + t) == 1 + PrefixLength(t)
  {
    var s: bytes := [0x80] + t;
    assert s[1..] == t && Low7(s[0]) == 0 && Continues(s[0]);
  }

  /** Exactly when an accepted prefix is the encoding of the value it decodes to: it is one
      byte, or its last byte is nonzero, and a fifth byte stays below 16. */
  predicate Canonical(s: bytes) {
    |s| == 1 || (|s| > 1 && s[|s| - 1] as nat > 0 && (|s| == 5 ==> s[4] as nat < 16))
  }

  lemma {:induction false} WeighBounds(s: bytes)
    requires |s| > 0 && PrefixLength(s) == |s|
    ensures s[|s| - 1] as nat * Weight(|s| - 1) <= Weigh(s) < (s[|s| - 1] as nat + 1) * Weight(|s| - 1)
  {
    ByteBits(s[0]);
    if |s| == 1 {
      assert s[1..] == [] && Weight(0) == 1;
    } else {
      WeighBounds(s[1..]);
      var k := |s| - 2;
      PowAdd(2, 7, 7 * k);
      Sevens();
      assert Weight(k + 1) == 128 * Weight(k);
      ScaleBounds(s[|s| - 1] as nat, Weight(k), Weigh(s[1..]), Low7(s[0]));
    }
  }

  lemma ScaleBounds(top: nat, p: nat, w: nat, l: nat)
    requires top * p <= w < (top + 1) * p && l < 128
    ensures top * (128 * p) <= l + 128 * w < (top + 1) * (128 * p)
  {
    assert top * (128 * p) == 128 * (top * p);
    assert (top + 1) * (128 * p) == 128 * ((top + 1) * p);
  }

  lemma {:induction false} EncodeOfWeigh(s: bytes)
    requires |s| > 0 && PrefixLength(s) == |s| && (|s| == 1 || s[|s| - 1] as nat > 0)
    ensures Encode(Weigh(s)) == s
    ensures |s| > 1 ==> Weigh(s) >= 128
  {
    if |s| == 1 {
      SingleByte(s);
    } else {
      EncodeOfWeigh(s[1..]);
      if |s| == 2 {
        OneMoreGroup(s);
      }
      EncodeStep(s[0], Weigh(s[1..]));
      assert s == [s[0]] + s[1..];
    }
  }

  lemma SingleByte(s: bytes)
    requires |s| == 1 && PrefixLength(s) == 1
    ensures Encode(Weigh(s)) == s
  {
    ByteBits(s[0]);
    assert s[1..] == [];
    ByteRoundTrip(s[0] as nat);
  }

  /** Encoding undoes one group of weighing. */
  lemma EncodeStep(b: byte, w: nat)
    requires Continues(b) && w > 0
    ensures Encode(Low7(b) + 128 * w) == [b] + Encode(w) && Low7(b) + 128 * w >= 128
  {
    var x := Low7(b) + 128 * w;
    ByteBits(b);
    DivModUnique(x, 128, w, Low7(b));
    RemarkByte(b, x);
  }

  lemma OneMoreGroup(s: bytes)
    requires |s| == 2 && PrefixLength(s) == 2 && s[1] as nat > 0
    ensures Weigh(s[1..]) > 0
  {
    ByteBits(s[1]);
    assert s[1..][1..] == [] && s[1..][0] == s[1];
    assert PrefixLength(s[1..]) == 1;
  }

  lemma RemarkByte(b: byte, x: nat)
    requires Continues(b) && x % 128 == Low7(b)
    ensures ContinuedByte(x) == b
  {
    var c: byte := (x % 256) as byte;
    ByteRoundTrip(x % 256);
    ByteBits(c);
    ModOfMod(x);
    LowBitsDecide(b, c);
    MarkRestores(b, c);
  }

  lemma {:induction false} LastOfEncode(x: nat)
    requires x > 0
    ensures Encode(x)[|Encode(x)| - 1] as nat > 0
  {
    if x >= 128 {
      LastOfEncode(x / 128);
    } else {
      ByteRoundTrip(x);
    }
  }

  lemma CanonicalFits(s: bytes)
    requires 1 <= |s| <= 5 && PrefixLength(s) == |s| && Canonical(s)
    ensures Weigh(s) < WORD
  {
    WeighBounds(s);
    Weights(|s| - 1);
    LastByteSmall(s);
    TopTimes(s[|s| - 1] as nat, Weight(|s| - 1), if |s| == 5 then 16 else 128);
  }

  lemma TopTimes(top: nat, p: nat, bound: nat)
    requires top < bound
    ensures (top + 1) * p <= bound * p
  {
  }

  lemma CanonicalIff(s: bytes)
    requires 1 <= |s| <= 5 && PrefixLength(s) == |s|
    ensures Encode(Weigh(s) % WORD) == s <==> Canonical(s)
  {
    if Canonical(s) {
      CanonicalFits(s);
      DivModUnique(Weigh(s), WORD, 0, Weigh(s));
      EncodeOfWeigh(s);
    } else if Encode(Weigh(s) % WORD) == s {
      CanonicalNeeded(s, Weigh(s) % WORD);
    }
  }

  lemma {:induction false} LastByteSmall(s: bytes)
    requires |s| > 0 && PrefixLength(s) == |s|
    ensures s[|s| - 1] as nat < 128
  {
    ByteBits(s[0]);
    if |s| > 1 {
      LastByteSmall(s[1..]);
    }
  }

  /** Encodings of 32-bit values have the canonical shape. */
  lemma CanonicalNeeded(s: bytes, x: nat)
    requires x < WORD && Encode(x) == s
    ensures Canonical(s)
  {
    EncodeShape(x, []);
    assert Encode(x) + [] == Encode(x);
    EncodeLength(x);
    if |s| > 1 {
      LastOfEncode(x);
      if |s| == 5 {
        WeighBounds(s);
        Weights(4);
      }
    }
  }
}
