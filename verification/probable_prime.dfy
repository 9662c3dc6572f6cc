/** The strong probable-prime test `is_prp(n, base)` of
    src/test_prime.rs:161-186: n - 1 is split into d * 2^s with d odd, then
    x = base^d mod n is squared up to s - 1 times, answering true as soon
    as x is n - 1 (or x starts at 1) and false as soon as x becomes 1. */
module ProbablePrime {
  import opened Arith

  /** m with every factor 2 divided out. */
  function OddPart(m: nat): (d: nat)
    requires m >= 1
    ensures d >= 1 && d % 2 == 1
    decreases m
  {
    if m % 2 == 0 then OddPart(m / 2) else m
  }

  /** How many times 2 divides m. */
  function TwoExponent(m: nat): nat
    requires m >= 1
    decreases m
  {
    if m % 2 == 0 then 1 + TwoExponent(m / 2) else 0
  }

  /** Every positive m is its odd part times a power of two. */
  lemma {:induction false} Decomposition(m: nat)
    requires m >= 1
    ensures m == OddPart(m) * Pow(2, TwoExponent(m))
    decreases m
  {
    if m % 2 == 0 {
      Decomposition(m / 2);
      var d, t := OddPart(m / 2), TwoExponent(m / 2);
      calc {
        m;
        2 * (m / 2);
        2 * (d * Pow(2, t));
        { MulRegroup(2, d, Pow(2, t)); }
        d * (2 * Pow(2, t));
        d * Pow(2, t + 1);
      }
    }
  }

  /** An even number has a factor 2 to divide out. */
  lemma EvenHasTwo(m: nat)
    requires m >= 1
    ensures TwoExponent(m) > 0 <==> m % 2 == 0
  {
  }

  /** The value of x after j squarings of base^d mod n, each reduced mod n. */
  function Witness(n: nat, base: nat, j: nat): (x: nat)
    requires n >= 2
    ensures x < n
  {
    if j == 0 then Pow(base, OddPart(n - 1)) % n
    else (Witness(n, base, j - 1) * Witness(n, base, j - 1)) % n
  }

  /** The answer of `is_prp`: x = base^d mod n is 1 or n - 1, or becomes
      n - 1 within s - 1 squarings without first becoming 1. */
  predicate StrongProbablePrime(n: nat, base: nat)
    requires n >= 2
  {
    var x0 := Witness(n, base, 0);
    x0 == 1 || x0 == n - 1 ||
    exists j :: 1 <= j < TwoExponent(n - 1) && Witness(n, base, j) == n - 1 &&
      forall i :: 1 <= i < j ==> Witness(n, base, i) != 1
  }

  /** d doubled j times. */
  function Doubled(d: nat, j: nat): nat {
    if j == 0 then d else Doubled(d, j - 1) + Doubled(d, j - 1)
  }

  /** Doubling j times multiplies by 2^j. */
  lemma {:induction false} DoubledIsProduct(d: nat, j: nat)
    ensures Doubled(d, j) == d * Pow(2, j)
  {
    if j > 0 {
      DoubledIsProduct(d, j - 1);
      MulRegroup(d, 2, Pow(2, j - 1));
    }
  }

  /** Squaring j times reduces base^(d * 2^j) mod n. */
  lemma {:induction false} WitnessClosedForm(n: nat, base: nat, j: nat)
    requires n >= 2
    ensures Witness(n, base, j) == Pow(base, Doubled(OddPart(n - 1), j)) % n
  {
    if j > 0 {
      WitnessClosedForm(n, base, j - 1);
      SquareDoubles(base, Doubled(OddPart(n - 1), j - 1), Witness(n, base, j - 1), n);
    }
  }

  /** Squaring the residue of base^e gives the residue of base^(e + e). */
  lemma SquareDoubles(base: nat, e: nat, w: nat, n: nat)
    requires n > 0 && w == Pow(base, e) % n
    ensures (w * w) % n == Pow(base, e + e) % n
  {
    PowAdd(base, e, e);
    MulMod(Pow(base, e), Pow(base, e), n);
  }

  /** Once the witness is 1 it stays 1. */
  lemma {:induction false} OnceOneAlwaysOne(n: nat, base: nat, i: nat, j: nat)
    requires n >= 2 && i <= j && Witness(n, base, i) == 1
    ensures Witness(n, base, j) == 1
  {
    if i < j {
      OnceOneAlwaysOne(n, base, i, j - 1);
      var w := Witness(n, base, j - 1);
      assert w * w == 1;
      DivModUnique(1, 0, 1, n);
    }
  }

  /** `is_prp(n, base)`. The source loops forever on n = 1 and underflows on
      n = 0, so n >= 2 is required. */
  method IsPrp(n: nat, base: nat) returns (r: bool)
    requires n >= 2
    ensures r == StrongProbablePrime(n, base)
  {
    var d := n - 1;
    var s := 0;
    while d % 2 == 0
      invariant d >= 1
      invariant OddPart(d) == OddPart(n - 1)
      invariant TwoExponent(d) + s == TwoExponent(n - 1)
      decreases d
    {
      d := d / 2;
      s := s + 1;
    }
    assert d == OddPart(n - 1) && s == TwoExponent(n - 1);
    var x := Pow(base, d) % n;
    if x == 1 || x == n - 1 {
      return true;
    }
    if s > 0 {
      EvenHasTwo(n - 1);
    }
    var t := 0;
    while t < s - 1
      invariant t == 0 || t <= s - 1
      invariant x == Witness(n, base, t)
      invariant forall i :: 0 <= i <= t ==> Witness(n, base, i) != 1 && Witness(n, base, i) != n - 1
    {
      x := (x * x) % n;
      t := t + 1;
      if x == 1 {
        forall j | t <= j
          ensures Witness(n, base, j) == 1
        {
          OnceOneAlwaysOne(n, base, t, j);
        }
        return false;
      }
      if x == n - 1 {
        assert 1 <= t < TwoExponent(n - 1) && Witness(n, base, t) == n - 1 &&
          forall i :: 1 <= i < t ==> Witness(n, base, i) != 1;
        return true;
      }
    }
    return false;
  }

  /** For odd n >= 3 the answer is the textbook one: base^d is 1 mod n, or
      base^(d * 2^j) is n - 1 for some j < s. (For even n, s is 0 and the
      early n - 1 answer has no textbook counterpart.) */
  lemma TextbookForm(n: nat, base: nat)
    requires n >= 3 && n % 2 == 1
    ensures StrongProbablePrime(n, base) <==>
      Witness(n, base, 0) == 1 ||
      exists j :: 0 <= j < TwoExponent(n - 1) && Witness(n, base, j) == n - 1
  {
    var s := TwoExponent(n - 1);
    var x0 := Witness(n, base, 0);
    if StrongProbablePrime(n, base) && x0 != 1 {
      if x0 == n - 1 {
        EvenHasTwo(n - 1);
        assert 0 < s;
      } else {
        var j :| 1 <= j < s && Witness(n, base, j) == n - 1 &&
          forall i :: 1 <= i < j ==> Witness(n, base, i) != 1;
        assert 0 <= j < s;
      }
    }
    if x0 != 1 && x0 != n - 1 && exists j :: 0 <= j < s && Witness(n, base, j) == n - 1 {
      var j :| 0 <= j < s && Witness(n, base, j) == n - 1;
      forall i | 1 <= i < j
        ensures Witness(n, base, i) != 1
      {
        if Witness(n, base, i) == 1 {
          OnceOneAlwaysOne(n, base, i, j);
        }
      }
      assert 1 <= j < s && Witness(n, base, j) == n - 1 &&
        forall i :: 1 <= i < j ==> Witness(n, base, i) != 1;
    }
  }

  /** (n - 1)^2 is 1 mod n. */
  lemma MinusOneSquared(n: nat)
    requires n >= 2
    ensures ((n - 1) * (n - 1)) % n == 1
  {
    assert (n - 1) * (n - 1) == (n - 2) * n + 1;
    DivModUnique((n - 1) * (n - 1), n - 2, 1, n);
  }

  /** An odd strong probable prime passes Fermat's test to the same base. */
  lemma FermatConsistent(n: nat, base: nat)
    requires n >= 3 && n % 2 == 1 && StrongProbablePrime(n, base)
    ensures Pow(base, n - 1) % n == 1
  {
    var s := TwoExponent(n - 1);
    Decomposition(n - 1);
    DoubledIsProduct(OddPart(n - 1), s);
    WitnessClosedForm(n, base, s);
    TextbookForm(n, base);
    if Witness(n, base, 0) == 1 {
      OnceOneAlwaysOne(n, base, 0, s);
    } else {
      var j :| 0 <= j < s && Witness(n, base, j) == n - 1;
      MinusOneSquared(n);
      assert Witness(n, base, j + 1) == ((n - 1) * (n - 1)) % n;
      OnceOneAlwaysOne(n, base, j + 1, s);
    }
  }

  /** `is_prp(2, 2)` is false although 2 is prime: 2^1 mod 2 is 0, and with
      s = 0 no squaring runs. */
  lemma TwoIsRejected()
    ensures !StrongProbablePrime(2, 2)
  {
    assert OddPart(1) == 1 && TwoExponent(1) == 0;
    assert Witness(2, 2, 0) == 0;
  }
}
