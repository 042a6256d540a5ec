/** Byte strings: XOR, big-endian integers (`big.Int.SetBytes`, `FillBytes`) and
    16-byte blocks. */
module Bytes {
  import opened Octets
  import opened Arithmetic
  import opened NumberTheory

  type Block = b: bytes | |b| == 16 witness seq(16, _ => 0)

  function Zeros(n: nat): bytes {
    seq(n, _ => 0)
  }

  function Xor(a: bytes, b: bytes): (r: bytes)
    requires |a| == |b|
    ensures |r| == |a|
  {
    seq(|a|, i requires 0 <= i < |a| => a[i] ^ b[i])
  }

  lemma XorCancels(a: bytes, b: bytes)
    requires |a| == |b|
    ensures Xor(Xor(a, b), b) == a
  {
    assert forall i :: 0 <= i < |a| ==> (a[i] ^ b[i]) ^ b[i] == a[i];
  }

  lemma XorCommutes(a: bytes, b: bytes)
    requires |a| == |b|
    ensures Xor(a, b) == Xor(b, a)
  {
    assert forall i :: 0 <= i < |a| ==> a[i] ^ b[i] == b[i] ^ a[i];
  }

  lemma XorInjective(a: bytes, b: bytes, k: bytes)
    requires |a| == |b| == |k| && Xor(a, k) == Xor(b, k)
    ensures a == b
  {
    XorCancels(a, k);
    XorCancels(b, k);
  }

  // ---------- big-endian integers ----------

  /** `new(big.Int).SetBytes(s)`. */
  function FromBE(s: bytes): nat {
    if |s| == 0 then 0 else 256 * FromBE(s[..|s| - 1]) + s[|s| - 1] as nat
  }

  /** `n.FillBytes(make([]byte, len))` for a value that fits. */
  function ToBE(n: nat, len: nat): (s: bytes)
    ensures |s| == len
  {
    if len == 0 then [] else ToBE(n / 256, len - 1) + [(n % 256) as byte]
  }

  lemma {:induction false} FromBEBound(s: bytes)
    ensures FromBE(s) < Pow(256, |s|)
  {
    if |s| > 0 {
      FromBEBound(s[..|s| - 1]);
    }
  }

  lemma {:induction false} FromToBE(n: nat, len: nat)
    ensures FromBE(ToBE(n, len)) == n % Pow(256, len)
  {
    if len > 0 {
      FromToBE(n / 256, len - 1);
      var s := ToBE(n, len);
      assert s[..len - 1] == ToBE(n / 256, len - 1);
      ByteRoundTrip(n % 256);
      SplitMod(n, Pow(256, len - 1));
    } else {
      assert n % 1 == 0;
    }
  }

  lemma {:induction false} ToFromBE(s: bytes)
    ensures ToBE(FromBE(s), |s|) == s
  {
    if |s| > 0 {
      var hi, lo := s[..|s| - 1], s[|s| - 1];
      ToFromBE(hi);
      DivModUnique(FromBE(s), 256, FromBE(hi), lo as int);
      assert s == hi + [lo];
    }
  }

  /** Of two strings in a row the first one counts by the length of the second. */
  lemma {:induction false} FromBEAppend(a: bytes, b: bytes)
    ensures FromBE(a + b) == FromBE(a) * Pow(256, |b|) + FromBE(b)
  {
    if |b| == 0 {
      assert a + b == a;
    } else {
      var hi := b[..|b| - 1];
      FromBEAppend(a, hi);
      assert (a + b)[..|a + b| - 1] == a + hi;
      Reassociate(256, FromBE(a), Pow(256, |hi|));
      assert Pow(256, |b|) == 256 * Pow(256, |hi|);
      Distribute(256, FromBE(a) * Pow(256, |hi|), FromBE(hi));
    }
  }

  /** Equal-length big-endian strings with the same value are equal. */
  lemma FromBEInjective(a: bytes, b: bytes)
    requires |a| == |b| && FromBE(a) == FromBE(b)
    ensures a == b
  {
    ToFromBE(a);
    ToFromBE(b);
  }

  /** `n.FillBytes(make([]byte, len))`, which panics unless the value fits. */
  function FillBytes(n: nat, len: nat): (s: bytes)
    requires n < Pow(256, len)
    ensures |s| == len && FromBE(s) == n
  {
    FromToBE(n, len);
    DivModUnique(n, Pow(256, len), 0, n);
    ToBE(n, len)
  }
}
