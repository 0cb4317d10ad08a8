/** Bytes, fixed-size byte strings and little-endian integers of the wire formats. */
module Bytes {
  type byte = b: int | 0 <= b < 256
  type bytes = seq<byte>
  type Bytes32 = b: bytes | |b| == 32 witness seq<byte>(32, _ => 0)
  type Bytes64 = b: bytes | |b| == 64 witness seq<byte>(64, _ => 0)

  const U32_LIMIT := 0x1_0000_0000
  const U64_LIMIT := 0x1_0000_0000_0000_0000

  type u64 = n: int | 0 <= n < U64_LIMIT

  /** The array `[0; 32]` that marks an empty slot. */
  const ZERO_SLOT: Bytes32 := ZeroBytes(32)

  function ZeroBytes(n: nat): (z: bytes)
    ensures |z| == n && forall i | 0 <= i < n :: z[i] == 0
  {
    seq(n, _ => 0)
  }

  function Zeros(n: nat): (z: seq<Bytes32>)
    ensures |z| == n
    ensures forall i | 0 <= i < n :: z[i] == ZERO_SLOT
  {
    seq(n, _ => ZERO_SLOT)
  }

  function Pow256(k: nat): (p: nat)
    ensures p > 0
  {
    if k == 0 then 1 else 256 * Pow256(k - 1)
  }

  /** The low `k` bytes of `n`, least significant first. */
  function ToLe(n: nat, k: nat): (b: bytes)
    ensures |b| == k
    ensures k > 0 ==> b[0] == n % 256
  {
    if k == 0 then [] else [n % 256] + ToLe(n / 256, k - 1)
  }

  function FromLe(b: bytes): nat {
    if b == [] then 0 else b[0] + 256 * FromLe(b[1..])
  }

  lemma {:induction false} FromLeToLe(n: nat, k: nat)
    requires n < Pow256(k)
    ensures FromLe(ToLe(n, k)) == n
  {
    if k > 0 {
      FromLeToLe(n / 256, k - 1);
      assert ToLe(n, k)[1..] == ToLe(n / 256, k - 1);
    }
  }

  lemma {:induction false} ToLeFromLe(b: bytes)
    ensures FromLe(b) < Pow256(|b|)
    ensures ToLe(FromLe(b), |b|) == b
  {
    if b != [] {
      ToLeFromLe(b[1..]);
      assert b == [b[0]] + b[1..];
      assert FromLe(b) % 256 == b[0] && FromLe(b) / 256 == FromLe(b[1..]);
    }
  }

  lemma Widths()
    ensures Pow256(4) == U32_LIMIT
    ensures Pow256(8) == U64_LIMIT
  {
    assert Pow256(4) == U32_LIMIT;
    assert Pow256(8) == 256 * (256 * (256 * (256 * Pow256(4))));
  }

  lemma U32RoundTrips(n: nat, b: bytes)
    ensures n < U32_LIMIT ==> FromLe(ToLe(n, 4)) == n
    ensures |b| == 4 ==> FromLe(b) < U32_LIMIT && ToLe(FromLe(b), 4) == b
  {
    Widths();
    if n < U32_LIMIT { FromLeToLe(n, 4); }
    ToLeFromLe(b);
  }

  lemma U64RoundTrips(n: nat, b: bytes)
    ensures n < U64_LIMIT ==> FromLe(ToLe(n, 8)) == n
    ensures |b| == 8 ==> FromLe(b) < U64_LIMIT && ToLe(FromLe(b), 8) == b
  {
    Widths();
    if n < U64_LIMIT { FromLeToLe(n, 8); }
    ToLeFromLe(b);
  }

  lemma Cut(a: bytes, b: bytes)
    ensures (a + b)[..|a|] == a && (a + b)[|a|..] == b
  {
  }

  lemma Join(b: bytes, i: nat)
    requires i <= |b|
    ensures b[..i] + b[i..] == b
  {
  }
}
