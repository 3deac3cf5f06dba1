/** Big-endian positional notation in the two bases of the license codec: bytes and five-bit groups. */
module Digits {
  type Base = b: nat | b == 256 || b == 32 witness 32

  // The three operations are spelled out per base, which keeps the arithmetic linear.

  function Times(base: Base, x: nat): nat {
    if base == 256 then x * 256 else x * 32
  }

  function Quotient(base: Base, n: nat): nat {
    if base == 256 then n / 256 else n / 32
  }

  function Remainder(base: Base, n: nat): (r: nat)
    ensures r < base
  {
    if base == 256 then n % 256 else n % 32
  }

  function Pow(base: Base, e: nat): nat {
    if e == 0 then 1 else Times(base, Pow(base, e - 1))
  }

  /** x with k zero digits appended; a left shift by 8 or 5 bits per digit. */
  function Shift(base: Base, x: nat, k: nat): nat
    decreases k, x
  {
    if k == 0 then x else Times(base, Shift(base, x, k - 1))
  }

  /** int.from_bytes(..., 'big') for base 256. */
  function FromDigits(base: Base, ds: seq<nat>): nat {
    if ds == [] then 0 else Times(base, FromDigits(base, ds[..|ds| - 1])) + ds[|ds| - 1]
  }

  /** The last len digits of n; int.to_bytes(len, 'big') for base 256 when n is small enough. */
  function ToDigits(base: Base, n: nat, len: nat): (ds: seq<nat>)
    ensures |ds| == len
    ensures AreDigits(base, ds)
    decreases len, n
  {
    if len == 0 then [] else ToDigits(base, Quotient(base, n), len - 1) + [Remainder(base, n)]
  }

  ghost predicate AreDigits(base: Base, ds: seq<nat>) {
    forall i :: 0 <= i < |ds| ==> ds[i] < base
  }

  function Zeros(k: nat): (z: seq<nat>)
    ensures |z| == k && forall i :: 0 <= i < k ==> z[i] == 0
  {
    if k == 0 then [] else Zeros(k - 1) + [0]
  }

  lemma {:induction false} FromTo(base: Base, n: nat, len: nat)
    requires n < Pow(base, len)
    ensures FromDigits(base, ToDigits(base, n, len)) == n
  {
    if len > 0 {
      FromTo(base, Quotient(base, n), len - 1);
      assert ToDigits(base, n, len)[..len - 1] == ToDigits(base, Quotient(base, n), len - 1);
    }
  }

  lemma LastDigit(base: Base, x: nat, d: nat)
    requires d < base
    ensures Quotient(base, Times(base, x) + d) == x && Remainder(base, Times(base, x) + d) == d
  {
  }

  lemma {:induction false} ToFrom(base: Base, ds: seq<nat>)
    requires AreDigits(base, ds)
    ensures ToDigits(base, FromDigits(base, ds), |ds|) == ds
  {
    if ds != [] {
      var front := ds[..|ds| - 1];
      ToFrom(base, front);
      LastDigit(base, FromDigits(base, front), ds[|ds| - 1]);
      assert ds == front + [ds[|ds| - 1]];
    }
  }

  lemma {:induction false} FromBound(base: Base, ds: seq<nat>)
    requires AreDigits(base, ds)
    ensures FromDigits(base, ds) < Pow(base, |ds|)
  {
    if ds != [] {
      FromBound(base, ds[..|ds| - 1]);
    }
  }

  lemma {:induction false} FromConcat(base: Base, a: seq<nat>, b: seq<nat>)
    ensures FromDigits(base, a + b) == Shift(base, FromDigits(base, a), |b|) + FromDigits(base, b)
  {
    if b == [] {
      assert a + b == a;
    } else {
      FromConcat(base, a, b[..|b| - 1]);
      assert (a + b)[..|a + b| - 1] == a + b[..|b| - 1];
    }
  }

  lemma {:induction false} FromZeros(base: Base, k: nat)
    ensures FromDigits(base, Zeros(k)) == 0
  {
    if k > 0 {
      FromZeros(base, k - 1);
      assert Zeros(k)[..k - 1] == Zeros(k - 1);
    }
  }

  /** A number split after its first m digits. */
  lemma FromSplit(base: Base, ds: seq<nat>, m: nat)
    requires m <= |ds|
    ensures FromDigits(base, ds) == Shift(base, FromDigits(base, ds[..m]), |ds| - m) + FromDigits(base, ds[m..])
  {
    FromConcat(base, ds[..m], ds[m..]);
    assert ds[..m] + ds[m..] == ds;
  }

  lemma FromFilled(base: Base, ds: seq<nat>, k: nat)
    ensures FromDigits(base, ds + Zeros(k)) == Shift(base, FromDigits(base, ds), k)
  {
    FromConcat(base, ds, Zeros(k));
    FromZeros(base, k);
  }
}
