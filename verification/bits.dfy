/** Bitwise operations on unbounded naturals, the powers of two behind shifts, and
    little-endian words. */
module Bits {
  import opened Words

  function Pow2(k: nat): (r: nat)
    ensures r > 0
  {
    if k == 0 then 1 else 2 * Pow2(k - 1)
  }

  function And(a: nat, b: nat): nat
    decreases a
  {
    if a == 0 then 0 else (if a % 2 == 1 && b % 2 == 1 then 1 else 0) + 2 * And(a / 2, b / 2)
  }

  /** a & ~b */
  function AndNot(a: nat, b: nat): nat
    decreases a
  {
    if a == 0 then 0 else (if a % 2 == 1 && b % 2 == 0 then 1 else 0) + 2 * AndNot(a / 2, b / 2)
  }

  function Or(a: nat, b: nat): nat
    decreases a + b
  {
    if a == 0 && b == 0 then 0 else (if a % 2 == 0 && b % 2 == 0 then 0 else 1) + 2 * Or(a / 2, b / 2)
  }

  /** a >> k */
  function Shr(a: nat, k: nat): nat {
    QuotientNat(a, Pow2(k));
    a / Pow2(k)
  }

  lemma {:induction false} Pow2Add(a: nat, b: nat)
    ensures Pow2(a + b) == Pow2(a) * Pow2(b)
    decreases a
  {
    if a > 0 {
      Pow2Add(a - 1, b);
    }
  }

  /** a & (2^k - 1) keeps the low k bits. */
  lemma {:induction false} AndLow(a: nat, k: nat)
    ensures And(a, Pow2(k) - 1) == a % Pow2(k)
    decreases k
  {
    if k == 0 {
      AndZero(a);
    } else if a > 0 {
      AndLow(a / 2, k - 1);
      HalfMod(a, Pow2(k - 1));
      HalfMask(k);
    } else {
      ModUnique(0, 0, 0, Pow2(k));
    }
  }

  lemma HalfMask(k: nat)
    requires k > 0
    ensures (Pow2(k) - 1) / 2 == Pow2(k - 1) - 1 && (Pow2(k) - 1) % 2 == 1
  {}

  lemma {:induction false} AndZero(a: nat)
    ensures And(a, 0) == 0 && AndNot(a, 0) == a
    decreases a
  {
    if a > 0 { AndZero(a / 2); }
  }

  lemma HalfMod(a: nat, m: nat)
    requires m > 0
    ensures a % (2 * m) == a % 2 + 2 * ((a / 2) % m)
  {
    ModSplit(a / 2, m);
    var h := a / 2;
    assert a == (h / m) * (2 * m) + (a % 2 + 2 * (h % m)) by {
      assert m * (h / m) * 2 == (h / m) * (2 * m);
    }
    ModUnique(a, h / m, a % 2 + 2 * (h % m), 2 * m);
  }

  /** a & ~(2^k - 1) drops the low k bits. */
  lemma {:induction false} AndNotLow(a: nat, k: nat)
    ensures AndNot(a, Pow2(k) - 1) == a - a % Pow2(k)
    decreases k
  {
    if k == 0 {
      AndZero(a);
    } else if a > 0 {
      AndNotLow(a / 2, k - 1);
      HalfMod(a, Pow2(k - 1));
      HalfMask(k);
    } else {
      ModUnique(0, 0, 0, Pow2(k));
    }
  }

  /** Where the fields do not meet, | is +. */
  lemma {:induction false} OrAdd(a: nat, b: nat, k: nat)
    requires a % Pow2(k) == 0 && b < Pow2(k)
    ensures Or(a, b) == a + b
    decreases k
  {
    if k == 0 {
      OrZero(a);
    } else if a > 0 || b > 0 {
      HalfMod(a, Pow2(k - 1));
      OrAdd(a / 2, b / 2, k - 1);
    }
  }

  lemma {:induction false} OrZero(a: nat)
    ensures Or(a, 0) == a
    decreases a
  {
    if a > 0 { OrZero(a / 2); }
  }

  // --- Little-endian words ------------------------------------------------------

  function FromLE(b: seq<byte>): nat {
    if b == [] then 0 else b[0] + 0x100 * FromLE(b[1..])
  }

  function ToLE(v: nat, n: nat): (r: seq<byte>)
    ensures |r| == n
  {
    if n == 0 then [] else [v % 0x100] + ToLE(v / 0x100, n - 1)
  }

  /** Packing the unpacked word gives the bytes back. */
  lemma {:induction false} ToFromLE(b: seq<byte>)
    ensures ToLE(FromLE(b), |b|) == b
  {
    if b != [] {
      ToFromLE(b[1..]);
      assert FromLE(b) % 0x100 == b[0] && FromLE(b) / 0x100 == FromLE(b[1..]);
    }
  }

  lemma {:induction false} ZeroLE(n: nat)
    ensures ToLE(0, n) == seq(n, _ => 0)
  {
    if n > 0 { ZeroLE(n - 1); }
  }
}
