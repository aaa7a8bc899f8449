/** Machine integers, and their big-endian and little-endian byte strings. */
module Numbers {

  type u8 = n: nat | n < 0x100
  type u32 = n: nat | n < 0x1_0000_0000
  type u64 = n: nat | n < 0x1_0000_0000_0000_0000
  type u128 = n: nat | n < 0x1_0000_0000_0000_0000_0000_0000_0000_0000
  type u256 = n: nat | n < 0x1_0000_0000_0000_0000_0000_0000_0000_0000_0000_0000_0000_0000_0000_0000_0000_0000

  const BLOB_LIMIT: nat := 0x8000_0000_0000_0000
  const U32_LIMIT: nat := 0x1_0000_0000
  const U64_LIMIT: nat := 0x1_0000_0000_0000_0000
  const U128_LIMIT: nat := 0x1_0000_0000_0000_0000_0000_0000_0000_0000
  const U256_LIMIT: nat := 0x1_0000_0000_0000_0000_0000_0000_0000_0000_0000_0000_0000_0000_0000_0000_0000_0000

  type bytes = seq<u8>

  /** A Rust `Vec<u8>`: no allocation exceeds `isize::MAX` bytes. */
  type Blob = b: bytes | |b| < 0x8000_0000_0000_0000

  /** A `Vec<u8>` that SCALE can carry: the codec writes the length as a compact `u32`. */
  type ScaleBlob = b: bytes | |b| < 0x1_0000_0000

  type H160 = b: bytes | |b| == 20 witness seq(20, _ => 0)
  type H256 = b: bytes | |b| == 32 witness seq(32, _ => 0)

  /** 256 to the power `k`: one more than the largest value of `k` bytes. */
  function Pow256(k: nat): (p: nat)
    ensures p > 0
  {
    if k == 0 then 1 else 256 * Pow256(k - 1)
  }

  lemma {:induction false} Pow256Monotone(j: nat, k: nat)
    requires j <= k
    ensures Pow256(j) <= Pow256(k)
  {
    if j == k {
    } else {
      Pow256Monotone(j, k - 1);
    }
  }

  lemma Pow256Widths()
    ensures Pow256(4) == U32_LIMIT && Pow256(8) == U64_LIMIT && Pow256(32) == U256_LIMIT
  {
    assert Pow256(8) == U64_LIMIT;
    assert Pow256(16) == U128_LIMIT;
    assert Pow256(24) == U128_LIMIT * U64_LIMIT;
  }

  // ----- big-endian -----

  /** The number whose most significant byte is `b[0]`. */
  function FromBigEndian(b: bytes): nat {
    if b == [] then 0 else FromBigEndian(b[..|b| - 1]) * 256 + b[|b| - 1]
  }

  /** The shortest big-endian string of `n`; zero has no bytes at all. */
  function BigEndian(n: nat): (b: bytes)
    ensures FromBigEndian(b) == n
    ensures b != [] ==> b[0] != 0
  {
    if n == 0 then [] else
      var high := BigEndian(n / 256);
      var b := high + [n % 256];
      assert b[..|b| - 1] == high;
      b
  }

  /** Big-endian, padded on the left to `k` bytes. */
  function FixedBigEndian(n: nat, k: nat): (b: bytes)
    ensures |b| == k
  {
    if k == 0 then [] else FixedBigEndian(n / 256, k - 1) + [n % 256]
  }

  lemma {:induction false} FromBigEndianBound(b: bytes)
    ensures FromBigEndian(b) < Pow256(|b|)
  {
    if b == [] {
    } else {
      FromBigEndianBound(b[..|b| - 1]);
    }
  }

  lemma {:induction false} FromBigEndianPositive(b: bytes)
    requires b != [] && b[0] != 0
    ensures FromBigEndian(b) >= Pow256(|b| - 1)
  {
    if |b| == 1 {
      assert b[..0] == [];
    } else {
      FromBigEndianPositive(b[..|b| - 1]);
    }
  }

  /** The shortest string has `k` bytes or fewer exactly when the number fits in `k` bytes. */
  lemma BigEndianWidth(n: nat, k: nat)
    ensures |BigEndian(n)| <= k <==> n < Pow256(k)
  {
    var b := BigEndian(n);
    FromBigEndianBound(b);
    if |b| <= k {
      Pow256Monotone(|b|, k);
    } else {
      FromBigEndianPositive(b);
      Pow256Monotone(k, |b| - 1);
    }
  }

  /** A string without leading zero bytes is the shortest string of its number. */
  lemma {:induction false} BigEndianCanonical(b: bytes)
    requires b != [] ==> b[0] != 0
    ensures BigEndian(FromBigEndian(b)) == b
  {
    if b == [] {
    } else {
      var high := b[..|b| - 1];
      BigEndianCanonical(high);
      FromBigEndianPositive(b);
      assert FromBigEndian(b) / 256 == FromBigEndian(high);
      assert b == high + [b[|b| - 1]];
    }
  }

  lemma {:induction false} FixedBigEndianRoundTrip(b: bytes)
    ensures FixedBigEndian(FromBigEndian(b), |b|) == b
  {
    if b == [] {
    } else {
      var high := b[..|b| - 1];
      FixedBigEndianRoundTrip(high);
      assert b == high + [b[|b| - 1]];
    }
  }

  lemma {:induction false} FixedBigEndianValue(n: nat, k: nat)
    requires n < Pow256(k)
    ensures FromBigEndian(FixedBigEndian(n, k)) == n
  {
    if k == 0 {
    } else {
      FixedBigEndianValue(n / 256, k - 1);
      var b := FixedBigEndian(n, k);
      assert b[..k - 1] == FixedBigEndian(n / 256, k - 1);
    }
  }

  // ----- little-endian, fixed width -----

  function LittleEndian(n: nat, k: nat): (b: bytes)
    ensures |b| == k
  {
    if k == 0 then [] else [n % 256] + LittleEndian(n / 256, k - 1)
  }

  function FromLittleEndian(b: bytes): nat {
    if b == [] then 0 else b[0] + 256 * FromLittleEndian(b[1..])
  }

  lemma {:induction false} LittleEndianValue(n: nat, k: nat)
    requires n < Pow256(k)
    ensures FromLittleEndian(LittleEndian(n, k)) == n
  {
    if k == 0 {
    } else {
      LittleEndianValue(n / 256, k - 1);
      assert LittleEndian(n, k)[1..] == LittleEndian(n / 256, k - 1);
    }
  }

  lemma {:induction false} LittleEndianCanonical(b: bytes)
    ensures FromLittleEndian(b) < Pow256(|b|)
    ensures LittleEndian(FromLittleEndian(b), |b|) == b
  {
    if b == [] {
    } else {
      LittleEndianCanonical(b[1..]);
      assert b == [b[0]] + b[1..];
    }
  }

  // ----- text -----

  /** The bytes of a Rust byte-string literal. */
  function Ascii(s: string): (b: bytes)
    requires forall i | 0 <= i < |s| :: s[i] < 128 as char
    ensures |b| == |s|
  {
    seq(|s|, i requires 0 <= i < |s| => s[i] as int)
  }
}
