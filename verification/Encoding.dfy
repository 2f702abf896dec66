/** Byte strings and fixed-width little-endian integers. */
module Encoding {
  const BLOCK_SIZE: nat := 4096

  type Bytes = seq<int>

  function ToLe(n: nat, size: nat): (r: Bytes)
    ensures |r| == size
  {
    if size == 0 then [] else [n % 256] + ToLe(n / 256, size - 1)
  }

  function FromLe(bs: Bytes): int {
    if bs == [] then 0 else bs[0] + 256 * FromLe(bs[1..])
  }

  function Pow256(size: nat): nat {
    if size == 0 then 1 else 256 * Pow256(size - 1)
  }

  /** Byte `i` is the digit of weight 256^i. */
  lemma {:induction false} LeDigit(n: nat, size: nat, i: nat)
    requires i < size
    ensures ToLe(n, size)[i] == Shifted(n, i) % 256
  {
    if i > 0 { LeDigit(n / 256, size - 1, i - 1); }
  }

  /** `n` shifted right by `i` bytes. */
  function Shifted(n: nat, i: nat): nat {
    if i == 0 then n else Shifted(n / 256, i - 1)
  }

  lemma {:induction false} LeRoundTrip(n: nat, size: nat)
    requires n < Pow256(size)
    ensures FromLe(ToLe(n, size)) == n
  {
    if size > 0 {
      LeRoundTrip(n / 256, size - 1);
      assert ToLe(n, size)[1..] == ToLe(n / 256, size - 1);
    }
  }

  lemma SliceOf(bytes: Bytes, b: Bytes, o: nat, i: nat, j: nat)
    requires o + |b| <= |bytes| && bytes[o..o + |b|] == b && i <= j <= |b|
    ensures bytes[o + i..o + j] == b[i..j]
  {
    forall k | i <= k < j ensures bytes[o + k] == b[k] { assert bytes[o..o + |b|][k] == b[k]; }
  }
}
