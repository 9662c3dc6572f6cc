/** The verdict line the Lucas–Lehmer engine writes once a run completes
    (src/test_prime.rs:149): "<M in decimal> is a Mersenne prime." or
    "<M in decimal> is not a Mersenne prime.". */
module ResultLine {
  import opened Arith

  predicate IsDigit(c: char) {
    '0' <= c <= '9'
  }

  function DigitChar(d: nat): (c: char)
    requires d < 10
    ensures IsDigit(c) && DigitValue(c) == d
  {
    "0123456789"[d]
  }

  /** The value of a decimal digit character. */
  function DigitValue(c: char): int {
    c as int - '0' as int
  }

  /** The number a string of decimal digits spells, most significant first. */
  function DigitsValue(t: string): int {
    if t == [] then 0 else 10 * DigitsValue(t[..|t| - 1]) + DigitValue(t[|t| - 1])
  }

  /** n in decimal, as `{}` formats a `BigUint`. */
  function Decimal(n: nat): (t: string)
    ensures |t| >= 1
    ensures forall k :: 0 <= k < |t| ==> IsDigit(t[k])
  {
    if n < 10 then [DigitChar(n)] else Decimal(n / 10) + [DigitChar(n % 10)]
  }

  /** The decimal form spells n, with no leading zero unless n is 0. */
  lemma {:induction false} DecimalValue(n: nat)
    ensures DigitsValue(Decimal(n)) == n
    ensures Decimal(n)[0] == '0' ==> n == 0
  {
    if n >= 10 {
      DecimalValue(n / 10);
      var t := Decimal(n);
      assert t[..|t| - 1] == Decimal(n / 10);
    }
  }

  /** What follows the number: " is a Mersenne prime." or " is not a Mersenne prime.". */
  function Tail(prime: bool): string {
    " is " + (if prime then "" else "not ") + "a Mersenne prime."
  }

  function Line(m: nat, prime: bool): string {
    Decimal(m) + Tail(prime)
  }

  /** Does w occur in t? */
  predicate Contains(t: string, w: string)
    requires w != []
    decreases |t|
  {
    |t| >= |w| && (t[..|w|] == w || Contains(t[1..], w))
  }

  /** Does the character a occur directly followed by b in t? */
  predicate HasPair(t: string, a: char, b: char)
    decreases |t|
  {
    |t| >= 2 && ((t[0] == a && t[1] == b) || HasPair(t[1..], a, b))
  }

  lemma {:induction false} ContainsHasPair(t: string, w: string)
    requires |w| >= 2
    ensures Contains(t, w) ==> HasPair(t, w[0], w[1])
    decreases |t|
  {
    if |t| >= |w| {
      if t[..|w|] == w {
        assert t[0] == w[0] && t[1] == w[1];
      } else {
        ContainsHasPair(t[1..], w);
      }
    }
  }

  lemma {:induction false} NoPairWithoutSecond(t: string, a: char, b: char)
    requires forall k :: 0 <= k < |t| ==> t[k] != b
    ensures !HasPair(t, a, b)
    decreases |t|
  {
    if |t| >= 2 {
      NoPairWithoutSecond(t[1..], a, b);
    }
  }

  function SkipDigits(t: string): (rest: string)
    ensures |rest| <= |t| && rest == t[|t| - |rest|..]
    ensures rest == [] || !IsDigit(rest[0])
  {
    if t != [] && IsDigit(t[0]) then SkipDigits(t[1..]) else t
  }

  /** What a reader of the line learns from it: the verdict, or None when
      the text is not a verdict line. */
  function ReadLine(t: string): Option<bool> {
    var rest := SkipDigits(t);
    if rest == Tail(true) then Some(true)
    else if rest == Tail(false) then Some(false)
    else None
  }

  lemma {:induction false} SkipDecimal(digits: string, tail: string)
    requires forall k :: 0 <= k < |digits| ==> IsDigit(digits[k])
    requires tail != [] && !IsDigit(tail[0])
    ensures SkipDigits(digits + tail) == tail
  {
    if digits != [] {
      assert (digits + tail)[1..] == digits[1..] + tail;
      SkipDecimal(digits[1..], tail);
    }
  }

  lemma {:induction false} ContainsAt(t: string, w: string, i: nat)
    requires w != [] && i + |w| <= |t| && t[i..i + |w|] == w
    ensures Contains(t, w)
  {
    if i > 0 {
      assert t[1..][i - 1..i - 1 + |w|] == t[i..i + |w|];
      ContainsAt(t[1..], w, i - 1);
    }
  }

  /** Reading the line back gives the verdict it was written for. */
  lemma LineRoundTrip(m: nat, prime: bool)
    ensures ReadLine(Line(m, prime)) == Some(prime)
  {
    assert |Tail(false)| != |Tail(true)|;
    SkipDecimal(Decimal(m), Tail(prime));
  }

  /** The line opens with the digits of m, ended by the first non-digit. */
  lemma LineSpellsNumber(m: nat, prime: bool)
    ensures var t, k := Line(m, prime), |Decimal(m)|;
      k < |t| && !IsDigit(t[k]) && DigitsValue(t[..k]) == m &&
      forall j :: 0 <= j < k ==> IsDigit(t[j])
  {
    var t, k := Line(m, prime), |Decimal(m)|;
    assert t[..k] == Decimal(m);
    DecimalValue(m);
  }

  /** A text without the letter 'o' cannot contain "not ". */
  lemma NoNotWithoutO(t: string)
    requires forall k :: 0 <= k < |t| ==> t[k] != 'o'
    ensures !Contains(t, "not ")
  {
    NoPairWithoutSecond(t, 'n', 'o');
    ContainsHasPair(t, "not ");
  }

  /** The line contains "not " exactly when the verdict is composite. */
  lemma LineSaysNotIffComposite(m: nat, prime: bool)
    ensures Contains(Line(m, prime), "not ") <==> !prime
  {
    var digits := Decimal(m);
    var t := Line(m, prime);
    if prime {
      var tail := Tail(true);
      assert forall k :: 0 <= k < |tail| ==> tail[k] != 'o';
      forall k | 0 <= k < |t| ensures t[k] != 'o' {
        if k >= |digits| {
          assert t[k] == tail[k - |digits|];
        }
      }
      NoNotWithoutO(t);
    } else {
      var i := |digits| + 4;
      assert t[i..i + 4] == "not ";
      ContainsAt(t, "not ", i);
    }
  }
}
