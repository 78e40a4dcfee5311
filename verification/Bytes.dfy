/** Byte strings and the numbers they stand for in big-endian order. */
module Bytes {

  newtype byte = x: int | 0 <= x < 256

  type bytes = seq<byte>

  function Pow256(n: nat): (p: nat)
    ensures p >= 1
  {
    if n == 0 then 1 else 256 * Pow256(n - 1)
  }

  /** The value of a big-endian byte string (`big.Int.SetBytes`). */
  function Value(b: bytes): nat {
    if b == [] then 0 else Value(b[..|b| - 1]) * 256 + b[|b| - 1] as nat
  }

  /** The shortest big-endian byte string with a value; zero has none at all (`big.Int.Bytes`). */
  function Minimal(n: nat): bytes {
    if n == 0 then [] else Minimal(n / 256) + [(n % 256) as byte]
  }

  lemma {:induction false} MinimalRoundTrip(n: nat)
    ensures Value(Minimal(n)) == n
    ensures n > 0 ==> Minimal(n) != [] && Minimal(n)[0] != 0
  {
    if n > 0 {
      MinimalRoundTrip(n / 256);
      assert Minimal(n)[..|Minimal(n)| - 1] == Minimal(n / 256);
    }
  }

  lemma {:induction false} MinimalLength(n: nat, k: nat)
    requires n < Pow256(k)
    ensures |Minimal(n)| <= k
  {
    if n > 0 {
      assert n / 256 < Pow256(k - 1);
      MinimalLength(n / 256, k - 1);
    }
  }

  lemma {:induction false} ValueBound(b: bytes)
    ensures Value(b) < Pow256(|b|)
  {
    if b != [] {
      ValueBound(b[..|b| - 1]);
    }
  }

  lemma {:induction false} PowMonotone(i: nat, j: nat)
    requires i <= j
    ensures Pow256(i) <= Pow256(j)
  {
    if i < j {
      PowMonotone(i, j - 1);
    }
  }

  /** Zero bytes on the left do not change a value. */
  lemma {:induction false} ValueLeftPad(zeros: bytes, b: bytes)
    requires forall i :: 0 <= i < |zeros| ==> zeros[i] == 0
    ensures Value(zeros + b) == Value(b)
  {
    if b == [] {
      assert zeros + b == zeros;
      ValueZeros(zeros);
    } else {
      ValueLeftPad(zeros, b[..|b| - 1]);
      assert (zeros + b)[..|zeros + b| - 1] == zeros + b[..|b| - 1];
    }
  }

  lemma {:induction false} ValueZeros(zeros: bytes)
    requires forall i :: 0 <= i < |zeros| ==> zeros[i] == 0
    ensures Value(zeros) == 0
  {
    if zeros != [] {
      ValueZeros(zeros[..|zeros| - 1]);
    }
  }
}
