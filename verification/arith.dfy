/** Integer helpers shared by the three cores: powers, the 64-bit lane width
    and the modular-arithmetic facts the proofs rely on. */
module Arith {

  datatype Option<T> = None | Some(value: T)

  /** 2^32: below it the product of two residues fits in a 64-bit lane. */
  const U32: nat := 0x1_0000_0000
  /** 2^64: the modulus of OpenCL `ulong` arithmetic and of Rust `u64`. */
  const U64: nat := 0x1_0000_0000_0000_0000
  /** 2^128: the range of Rust `u128`. */
  const U128: nat := 0x1_0000_0000_0000_0000_0000_0000_0000_0000

  function Pow(b: nat, e: nat): (r: nat)
    ensures b > 0 ==> r > 0
  {
    if e == 0 then 1 else b * Pow(b, e - 1)
  }

  /** A value reduced into a 64-bit lane, as `ulong` and `u64` arithmetic wraps. */
  function Wrap64(x: int): (r: nat)
    ensures r < U64
    ensures 0 <= x < U64 ==> r == x
  {
    x % U64
  }

  /** The byte widths of `u64` and `u128`. */
  lemma ByteWidths()
    ensures Pow(256, 8) == U64 && Pow(256, 16) == U128
  {
    assert Pow(256, 8) == U64;
    PowAdd(256, 8, 8);
  }

  /** The bit widths of `u32` and `u64`. */
  lemma BitWidths()
    ensures Pow(2, 32) == U32 && Pow(2, 64) == U64
  {
    assert Pow(256, 4) == U32;
    assert Pow(256, 8) == U64;
    PowPow(2, 8, 4);
    PowPow(2, 8, 8);
  }

  lemma {:induction false} PowPow(b: nat, k: nat, e: nat)
    ensures Pow(Pow(b, k), e) == Pow(b, k * e)
  {
    if e > 0 {
      PowPow(b, k, e - 1);
      PowAdd(b, k, k * (e - 1));
      assert k + k * (e - 1) == k * e;
    }
  }

  /** Regrouping a product of three factors. */
  lemma MulRegroup(x: int, y: int, z: int)
    ensures x * (y * z) == y * (x * z)
  {
  }

  lemma MulInterchange(a: int, b: int, c: int, d: int)
    ensures (a * b) * (c * d) == (a * c) * (b * d)
  {
  }

  lemma {:induction false} PowAdd(b: nat, e1: nat, e2: nat)
    ensures Pow(b, e1 + e2) == Pow(b, e1) * Pow(b, e2)
  {
    if e2 > 0 {
      PowAdd(b, e1, e2 - 1);
      calc {
        Pow(b, e1 + e2);
        b * Pow(b, e1 + e2 - 1);
        b * (Pow(b, e1) * Pow(b, e2 - 1));
        { MulRegroup(b, Pow(b, e1), Pow(b, e2 - 1)); }
        Pow(b, e1) * (b * Pow(b, e2 - 1));
      }
    }
  }

  lemma {:induction false} PowMultiply(b: nat, c: nat, e: nat)
    ensures Pow(b * c, e) == Pow(b, e) * Pow(c, e)
  {
    if e > 0 {
      PowMultiply(b, c, e - 1);
      var x, y := Pow(b, e - 1), Pow(c, e - 1);
      calc {
        Pow(b * c, e);
        (b * c) * Pow(b * c, e - 1);
        (b * c) * (x * y);
        { MulInterchange(b, c, x, y); }
        (b * x) * (c * y);
      }
    }
  }

  /** Squaring the base doubles the exponent. */
  lemma PowSquare(b: nat, e: nat)
    ensures Pow(b * b, e) == Pow(b, 2 * e)
  {
    PowMultiply(b, b, e);
    PowAdd(b, e, e);
  }

  lemma {:induction false} PowMonotone(b: nat, e1: nat, e2: nat)
    requires b >= 1 && e1 <= e2
    ensures Pow(b, e1) <= Pow(b, e2)
  {
    if e1 < e2 {
      PowMonotone(b, e1, e2 - 1);
      assert Pow(b, e2) == b * Pow(b, e2 - 1);
    }
  }

  lemma {:induction false} PowOfOne(e: nat)
    ensures Pow(1, e) == 1
  {
    if e > 0 {
      PowOfOne(e - 1);
    }
  }

  lemma MulMonotone(a: int, b: int, c: int)
    requires 0 <= a <= b && 0 <= c
    ensures a * c <= b * c
  {
  }

  /** The product of two numbers below n is below n * n. */
  lemma MulBelowSquare(a: nat, b: nat, n: nat)
    requires a < n && b < n
    ensures a * b < n * n
  {
    MulMonotone(a, n - 1, b);
    MulMonotone(b, n - 1, n - 1);
  }

  /** Euclidean division is unique: a quotient and a remainder in [0, n) are THE quotient and remainder. */
  lemma DivModUnique(x: int, q: int, t: int, n: int)
    requires n > 0 && 0 <= t < n && x == q * n + t
    ensures x % n == t && x / n == q
  {
    var d := q - x / n;
    assert d * n == x % n - t;
  }

  /** Adding a multiple of n does not change the remainder. */
  lemma ModMultipleAdd(k: int, r: int, n: int)
    requires n > 0
    ensures (k * n + r) % n == r % n
  {
    assert k * n + r == (k + r / n) * n + r % n;
    DivModUnique(k * n + r, k + r / n, r % n, n);
  }

  lemma ProductExpand(qa: int, ra: int, qb: int, rb: int, n: int)
    ensures (qa * n + ra) * (qb * n + rb) == (qa * qb * n + qa * rb + ra * qb) * n + ra * rb
  {
  }

  lemma MulMod(a: nat, b: nat, n: nat)
    requires n > 0
    ensures (a * b) % n == ((a % n) * (b % n)) % n
  {
    var qa, ra := a / n, a % n;
    var qb, rb := b / n, b % n;
    ProductExpand(qa, ra, qb, rb, n);
    assert a * b == (qa * qb * n + qa * rb + ra * qb) * n + ra * rb;
    ModMultipleAdd(qa * qb * n + qa * rb + ra * qb, ra * rb, n);
  }

  lemma {:induction false} PowMod(b: nat, e: nat, n: nat)
    requires n > 0
    ensures Pow(b % n, e) % n == Pow(b, e) % n
  {
    if e > 0 {
      var r := b % n;
      var pr, pb := Pow(r, e - 1), Pow(b, e - 1);
      assert r % n == r by { DivModUnique(r, 0, r, n); }
      assert pr % n == pb % n by { PowMod(b, e - 1, n); }
      assert (r * pr) % n == (r * (pb % n)) % n by { MulMod(r, pr, n); }
      assert (b * pb) % n == (r * (pb % n)) % n by { MulMod(b, pb, n); }
    }
  }
}
