/** The prime screen `generate_primes(start, end)` of
    src/generate_primes.rs:17-137: every candidate of [start, end) is
    narrowed to 64 bits, judged by the `is_prime_kernel` Fermat test to base
    2 in 64-bit `ulong` arithmetic, and kept when its flag is 1. The OpenCL
    dispatch is modelled as a sequential loop over the candidates. */
module PrimeScreen {
  import opened Arith
  import ProbablePrime

  /** The base the host passes to the kernel. */
  const FERMAT_BASE: nat := 2

  /** The square-and-multiply loop of the kernel as a recursive reference:
      each product wraps modulo 2^64 before it is reduced mod n. */
  function SquareMultiply(result: nat, power: nat, exponent: nat, n: nat): nat
    requires n > 0
    decreases exponent
  {
    if exponent == 0 then result
    else
      SquareMultiply(if exponent % 2 == 1 then Wrap64(result * power) % n else result,
                     Wrap64(power * power) % n, exponent / 2, n)
  }

  /** The flag `is_prime_kernel` writes for the 64-bit candidate n. */
  function KernelFlag(n: nat, base: nat): (flag: nat)
    ensures flag <= 1
  {
    if n < 2 then 0
    else if n == 2 then 1
    else if n % 2 == 0 then 0
    else if SquareMultiply(1, Wrap64(base) % n, n - 1, n) == 1 then 1
    else 0
  }

  /** Multiplying by numbers that agree mod n gives products that agree mod n. */
  lemma ModMulRight(a: nat, b: nat, c: nat, n: nat)
    requires n > 0 && b % n == c % n
    ensures (a * b) % n == (a * c) % n
  {
    MulMod(a, b, n);
    MulMod(a, c, n);
  }

  /** While n < 2^32 a wrapped product of two residues is the exact product. */
  lemma WrapExact(a: nat, b: nat, n: nat)
    requires 0 < n < U32 && a < n && b < n
    ensures Wrap64(a * b) % n == (a * b) % n
  {
    MulBelowSquare(a, b, U32);
  }

  /** Squaring the power halves the exponent without changing power^exponent mod n. */
  lemma PowerStep(power: nat, exponent: nat, n: nat)
    requires 1 < n < U32 && power < n
    ensures Pow(Wrap64(power * power) % n, exponent / 2) % n ==
            Pow(power, 2 * (exponent / 2)) % n
  {
    WrapExact(power, power, n);
    PowMod(power * power, exponent / 2, n);
    PowSquare(power, exponent / 2);
  }

  /** The arithmetic of an odd round, with the powers as plain numbers:
      pw stands for the new power^(exponent / 2) and even for power^(exponent - 1). */
  lemma OddStepArith(result: nat, power: nat, even: nat, pw: nat, n: nat)
    requires 1 < n < U32 && result < n && power < n && pw % n == even % n
    ensures ((Wrap64(result * power) % n) * pw) % n == (result * (power * even)) % n
  {
    var rp := result * power;
    WrapExact(result, power, n);
    var result' := rp % n;
    DivModUnique(result', 0, result', n);
    calc {
      (result' * pw) % n;
      { ModMulRight(result', pw, even, n); }
      (result' * even) % n;
      (even * result') % n;
      { ModMulRight(even, result', rp, n); }
      (even * rp) % n;
      { MulRegroup(even, result, power); MulRegroup(result, power, even); }
      (result * (power * even)) % n;
    }
  }

  /** A round on an odd exponent multiplies the power into the result. */
  lemma OddStep(result: nat, power: nat, exponent: nat, n: nat)
    requires 1 < n < U32 && result < n && power < n && exponent % 2 == 1
    ensures (Wrap64(result * power) % n * Pow(Wrap64(power * power) % n, exponent / 2)) % n
         == (result * Pow(power, exponent)) % n
  {
    var h := exponent / 2;
    PowerStep(power, exponent, n);
    assert Pow(power, exponent) == power * Pow(power, 2 * h) by {
      assert exponent == 2 * h + 1;
    }
    OddStepArith(result, power, Pow(power, 2 * h), Pow(Wrap64(power * power) % n, h), n);
  }

  /** A round on an even exponent only squares the power. */
  lemma EvenStep(result: nat, power: nat, exponent: nat, n: nat)
    requires 1 < n < U32 && power < n && exponent % 2 == 0
    ensures (result * Pow(Wrap64(power * power) % n, exponent / 2)) % n
         == (result * Pow(power, exponent)) % n
  {
    PowerStep(power, exponent, n);
    assert 2 * (exponent / 2) == exponent;
    ModMulRight(result, Pow(Wrap64(power * power) % n, exponent / 2), Pow(power, exponent), n);
  }

  /** One round of the loop keeps result * power^exponent fixed mod n,
      provided the products are exact (n < 2^32). */
  lemma SquareStep(result: nat, power: nat, exponent: nat, n: nat)
    requires 1 < n < U32 && result < n && power < n && exponent > 0
    ensures var result' := if exponent % 2 == 1 then Wrap64(result * power) % n else result;
            var power' := Wrap64(power * power) % n;
            (result' * Pow(power', exponent / 2)) % n == (result * Pow(power, exponent)) % n
  {
    if exponent % 2 == 1 {
      OddStep(result, power, exponent, n);
    } else {
      EvenStep(result, power, exponent, n);
    }
  }

  /** While n < 2^32 the wrapped loop computes result * power^exponent mod n exactly. */
  lemma {:induction false} SquareMultiplyExact(result: nat, power: nat, exponent: nat, n: nat)
    requires 1 < n < U32 && result < n && power < n
    ensures SquareMultiply(result, power, exponent, n) == (result * Pow(power, exponent)) % n
    decreases exponent
  {
    if exponent == 0 {
      DivModUnique(result, 0, result, n);
    } else {
      SquareStep(result, power, exponent, n);
      SquareMultiplyExact(if exponent % 2 == 1 then Wrap64(result * power) % n else result,
                          Wrap64(power * power) % n, exponent / 2, n);
    }
  }

  /** For odd 3 <= n < 2^32 the kernel is exactly Fermat's test: the flag is
      1 when base^(n - 1) mod n is 1. */
  lemma KernelFlagExact(n: nat, base: nat)
    requires 3 <= n < U32 && n % 2 == 1 && base < U64
    ensures KernelFlag(n, base) == 1 <==> Pow(base, n - 1) % n == 1
  {
    SquareMultiplyExact(1, base % n, n - 1, n);
    PowMod(base, n - 1, n);
  }

  /** `is_prime_kernel` for one 64-bit candidate n. */
  method IsPrimeKernel(n: nat, base: nat) returns (flag: nat)
    requires n < U64 && base < U64
    ensures flag == KernelFlag(n, base)
    ensures 3 <= n < U32 && n % 2 == 1 ==> (flag == 1 <==> Pow(base, n - 1) % n == 1)
  {
    if n < 2 {
      return 0;
    }
    if n == 2 {
      return 1;
    }
    if n % 2 == 0 {
      return 0;
    }
    var result: nat := 1;
    var exponent: nat := n - 1;
    var power: nat := base % n;
    PowMod(base, n - 1, n);
    while exponent > 0
      invariant SquareMultiply(result, power, exponent, n) == SquareMultiply(1, base % n, n - 1, n)
      invariant result < n && power < n
      invariant n < U32 ==> (result * Pow(power, exponent)) % n == Pow(base, n - 1) % n
      decreases exponent
    {
      if n < U32 {
        SquareStep(result, power, exponent, n);
      }
      if exponent % 2 == 1 {
        result := Wrap64(result * power) % n;
      }
      power := Wrap64(power * power) % n;
      exponent := exponent / 2;
    }
    if n < U32 {
      DivModUnique(result, 0, result, n);
    }
    flag := if result == 1 then 1 else 0;
  }

  /** `n as u64`: the candidate's low 64 bits. */
  function Narrow(n: nat): (r: nat)
    ensures r < U64
  {
    n % U64
  }

  /** Does the screen keep the candidate n? */
  predicate Keeps(n: nat) {
    KernelFlag(Narrow(n), FERMAT_BASE) == 1
  }

  /** `(start..end).collect()`. */
  function Range(start: nat, end: nat): (r: seq<nat>)
    ensures |r| == if start < end then end - start else 0
    ensures forall idx :: 0 <= idx < |r| ==> r[idx] == start + idx
  {
    if start < end then seq(end - start, idx => start + idx) else []
  }

  predicate StrictlyAscending(s: seq<nat>) {
    forall i, j :: 0 <= i < j < |s| ==> s[i] < s[j]
  }

  /** The elements of range whose flag is 1, in order. */
  function Flagged(range: seq<nat>, flags: seq<nat>): (r: seq<nat>)
    requires |range| == |flags|
  {
    if range == [] then []
    else
      var last := |range| - 1;
      Flagged(range[..last], flags[..last]) + (if flags[last] == 1 then [range[last]] else [])
  }

  /** The kernel dispatch of src/generate_primes.rs:85-116: one flag per
      candidate, written to the results buffer at the candidate's index. */
  method EvaluateBatch(numbers: seq<nat>) returns (results: array<nat>)
    requires forall idx :: 0 <= idx < |numbers| ==> numbers[idx] < U64
    ensures results.Length == |numbers|
    ensures forall idx :: 0 <= idx < |numbers| ==> results[idx] == KernelFlag(numbers[idx], FERMAT_BASE)
  {
    results := new nat[|numbers|](_ => 0);
    var gid := 0;
    while gid < |numbers|
      invariant 0 <= gid <= |numbers|
      invariant forall idx :: 0 <= idx < gid ==> results[idx] == KernelFlag(numbers[idx], FERMAT_BASE)
    {
      var flag := IsPrimeKernel(numbers[gid], FERMAT_BASE);
      results[gid] := flag;
      gid := gid + 1;
    }
  }

  /** The collection loop of src/generate_primes.rs:125-132. */
  method CollectFlagged(range: seq<nat>, results: array<nat>) returns (primes: seq<nat>)
    requires results.Length == |range|
    ensures primes == Flagged(range, results[..])
  {
    primes := [];
    var idx := 0;
    while idx < |range|
      invariant 0 <= idx <= |range|
      invariant primes == Flagged(range[..idx], results[..idx])
    {
      assert range[..idx + 1][..idx] == range[..idx];
      assert results[..idx + 1][..idx] == results[..idx];
      if results[idx] == 1 {
        primes := primes + [range[idx]];
      }
      idx := idx + 1;
    }
    assert range[..idx] == range && results[..idx] == results[..];
  }

  /** `generate_primes(start, end)`: the candidates of [start, end) the
      screen keeps, in ascending order. */
  method GeneratePrimes(start: nat, end: nat) returns (primes: seq<nat>)
    requires start < U128 && end < U128
    ensures forall x :: x in primes <==> start <= x < end && Keeps(x)
    ensures StrictlyAscending(primes)
    ensures |primes| <= |Range(start, end)|
  {
    var range := Range(start, end);
    var numbers := seq(|range|, idx requires 0 <= idx < |range| => Narrow(range[idx]));
    var results := EvaluateBatch(numbers);
    primes := CollectFlagged(range, results);
    var flags := results[..];
    forall idx | 0 <= idx < |range|
      ensures flags[idx] == 1 <==> Keeps(range[idx])
    {
      assert flags[idx] == KernelFlag(numbers[idx], FERMAT_BASE);
    }
    FlaggedMembers(range, flags);
    forall x
      ensures x in primes <==> start <= x < end && Keeps(x)
    {
      if start <= x < end {
        var idx := x - start;
        assert range[idx] == x;
      }
    }
    FlaggedAscending(range, results[..]);
    FlaggedLength(range, results[..]);
  }

  /** x is flagged exactly when it sits in the range at a position whose flag is 1. */
  lemma {:induction false} FlaggedMembers(range: seq<nat>, flags: seq<nat>)
    requires |range| == |flags|
    ensures forall x :: x in Flagged(range, flags) <==>
      exists idx :: 0 <= idx < |range| && range[idx] == x && flags[idx] == 1
  {
    if range != [] {
      var last := |range| - 1;
      FlaggedMembers(range[..last], flags[..last]);
      forall x
        ensures x in Flagged(range, flags) <==>
          exists idx :: 0 <= idx < |range| && range[idx] == x && flags[idx] == 1
      {
        if exists idx :: 0 <= idx < |range| && range[idx] == x && flags[idx] == 1 {
          var idx :| 0 <= idx < |range| && range[idx] == x && flags[idx] == 1;
          if idx < last {
            assert range[..last][idx] == x && flags[..last][idx] == 1;
          }
        }
      }
    }
  }

  /** Filtering a strictly ascending range keeps it strictly ascending. */
  lemma {:induction false} FlaggedAscending(range: seq<nat>, flags: seq<nat>)
    requires |range| == |flags|
    requires StrictlyAscending(range)
    ensures StrictlyAscending(Flagged(range, flags))
  {
    if range != [] {
      var last := |range| - 1;
      FlaggedAscending(range[..last], flags[..last]);
      FlaggedMembers(range[..last], flags[..last]);
      var front := Flagged(range[..last], flags[..last]);
      assert StrictlyAscending(front);
      forall k | 0 <= k < |front|
        ensures front[k] < range[last]
      {
        assert front[k] in front;
        var idx :| 0 <= idx < last && range[..last][idx] == front[k] && flags[..last][idx] == 1;
        assert range[idx] == front[k];
      }
      var r := Flagged(range, flags);
      assert r == front + (if flags[last] == 1 then [range[last]] else []);
      forall i, j | 0 <= i < j < |r|
        ensures r[i] < r[j]
      {
        if j >= |front| {
          assert r[i] == front[i] && r[j] == range[last];
          assert front[i] < range[last];
        } else {
          assert r[i] == front[i] && r[j] == front[j];
        }
      }
    }
  }

  /** Filtering never lengthens. */
  lemma {:induction false} FlaggedLength(range: seq<nat>, flags: seq<nat>)
    requires |range| == |flags|
    ensures |Flagged(range, flags)| <= |range|
  {
    if range != [] {
      FlaggedLength(range[..|range| - 1], flags[..|range| - 1]);
    }
  }

  /** For odd 3 <= n < 2^32, a strong probable prime to base 2 is kept by
      the screen. */
  lemma PrpImpliesScreened(n: nat)
    requires 3 <= n < U32 && n % 2 == 1 && ProbablePrime.StrongProbablePrime(n, 2)
    ensures Keeps(n)
  {
    ProbablePrime.FermatConsistent(n, 2);
    KernelFlagExact(n, 2);
  }

  /** The screen judges a candidate by its low 64 bits: 2^64 + 2, which is
      even, is kept because it narrows to 2. */
  lemma NarrowingAdmitsEven()
    ensures Keeps(U64 + 2) && (U64 + 2) % 2 == 0
  {
    assert Narrow(U64 + 2) == 2;
  }

  /** Fermat's test to base 2 keeps the composite 341 = 11 * 31. */
  lemma PseudoprimeKept()
    ensures Keeps(341) && 341 == 11 * 31
  {
    KernelFlagExact(341, 2);
    assert Pow(2, 10) == 1024;
    PowPow(2, 10, 34);
    assert Pow(1024, 34) % 341 == 1 by {
      assert 1024 % 341 == 1;
      PowMod(1024, 34, 341);
      PowOfOne(34);
    }
  }
}
