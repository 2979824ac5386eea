/** Numbers as digits, most significant first, in any base. */
module Numerals {
  predicate IsDigit(c: char) { '0' <= c <= '9' }

  function DigitOf(c: char): (d: nat)
    requires IsDigit(c)
    ensures d < 10
  {
    c as int - '0' as int
  }

  /** The powers of two. */
  function Power(n: nat): (r: nat)
    ensures r > 0
  {
    if n == 0 then 1 else 2 * Power(n - 1)
  }

  /** All digits are below the base. */
  ghost predicate InBase(s: seq<nat>, b: nat) {
    forall k | 0 <= k < |s| :: s[k] < b
  }

  /** The number the digits stand for. */
  function Val(s: seq<nat>, b: nat): nat {
    if s == [] then 0 else Val(s[..|s| - 1], b) * b + s[|s| - 1]
  }

  /** The digits of n without leading zero; none at all for zero. */
  function Digits(n: nat, b: nat): (s: seq<nat>)
    requires b > 1
    ensures n == 0 <==> s == []
    ensures n > 0 ==> s[0] > 0
    ensures InBase(s, b)
  {
    if n == 0 then [] else
      assert n / b < n by { Shrinks(n, b); }
      Digits(n / b, b) + [n % b]
  }

  lemma AtLeast(k: int, b: int)
    requires k >= 1 && b >= 0
    ensures k * b >= b
  {
  }

  /** Quotient and remainder are unique. */
  lemma Unique(q: int, r: int, a: int, d: int, b: int)
    requires q * b + r == a * b + d && 0 <= r < b && 0 <= d < b
    ensures q == a && r == d
  {
    assert (q - a) * b == q * b - a * b && (a - q) * b == a * b - q * b;
    if q > a { AtLeast(q - a, b); }
    if q < a { AtLeast(a - q, b); }
  }

  lemma Quotient(a: nat, d: nat, b: nat)
    requires d < b
    ensures (a * b + d) / b == a && (a * b + d) % b == d
  {
    var n := a * b + d;
    Euclid(n, b);
    Unique(n / b, n % b, a, d, b);
  }

  lemma Euclid(n: nat, b: nat)
    requires b > 0
    ensures n / b * b + n % b == n && n % b < b
  {
  }

  lemma Shrinks(n: nat, b: nat)
    requires n > 0 && b > 1
    ensures n / b < n
  {
    Euclid(n, b);
    Doubles(n / b, b);
  }

  lemma Doubles(q: nat, b: nat)
    requires b > 1
    ensures q * b >= 2 * q
  {
  }

  lemma {:induction false} ValDigits(n: nat, b: nat)
    requires b > 1
    ensures Val(Digits(n, b), b) == n
  {
    if n > 0 {
      Shrinks(n, b);
      Euclid(n, b);
      ValDigits(n / b, b);
      ValPush(Digits(n / b, b), n % b, b);
    }
  }

  lemma {:induction false} DigitsVal(s: seq<nat>, b: nat)
    requires b > 1 && InBase(s, b) && (s == [] || s[0] > 0)
    ensures Digits(Val(s, b), b) == s
  {
    if s != [] {
      var init, d := s[..|s| - 1], s[|s| - 1];
      DigitsVal(init, b);
      Quotient(Val(init, b), d, b);
      if Val(init, b) == 0 {
        assert init == [];
      } else {
        assert Val(init, b) * b >= 1;
      }
      assert Val(s, b) > 0;
      assert s == init + [d];
    }
  }

  /** One more digit at the end. */
  lemma ValPush(s: seq<nat>, d: nat, b: nat)
    ensures Val(s + [d], b) == Val(s, b) * b + d
  {
    assert (s + [d])[..|s|] == s;
  }

  /** The number a goes on to stand for when more digits follow, as a loop computes it. */
  function Fold(a: nat, s: seq<nat>, b: nat): nat
    decreases |s|
  {
    if s == [] then a else Fold(a * b + s[0], s[1..], b)
  }

  lemma {:induction false} FoldVal(p: seq<nat>, s: seq<nat>, b: nat)
    ensures Fold(Val(p, b), s, b) == Val(p + s, b)
    decreases |s|
  {
    if s == [] {
      assert p + s == p;
    } else {
      ValPush(p, s[0], b);
      FoldVal(p + [s[0]], s[1..], b);
      assert p + [s[0]] + s[1..] == p + s;
    }
  }

  /** Reading the digits of a number gives the number. */
  lemma FoldDigits(n: nat, b: nat)
    requires b > 1
    ensures Fold(0, Digits(n, b), b) == n
  {
    ValDigits(n, b);
    FoldVal([], Digits(n, b), b);
    assert [] + Digits(n, b) == Digits(n, b);
  }

  lemma {:induction false} FoldGrows(a: nat, s: seq<nat>, b: nat)
    requires b > 0
    ensures Fold(a, s, b) >= a
    decreases |s|
  {
    if s != [] {
      AtLeast(b, a);
      FoldGrows(a * b + s[0], s[1..], b);
    }
  }

  lemma QuotientMonotone(a: nat, c: nat, b: nat)
    requires a <= c && b > 0
    ensures a / b <= c / b
  {
    Euclid(a, b);
    Euclid(c, b);
    var p, q := a / b, c / b;
    assert (p - q) * b == p * b - q * b;
    if p > q { AtLeast(p - q, b); }
  }

  /** A smaller number has no more digits. */
  lemma {:induction false} DigitsMonotone(a: nat, c: nat, b: nat)
    requires a <= c && b > 1
    ensures |Digits(a, b)| <= |Digits(c, b)|
    decreases c
  {
    if a > 0 {
      QuotientMonotone(a, c, b);
      Shrinks(c, b);
      DigitsMonotone(a / b, c / b, b);
    }
  }

  /** One more digit makes a number at most one digit longer. */
  lemma DigitsPush(n: nat, d: nat, b: nat)
    requires b > 1 && d < b
    ensures |Digits(n * b + d, b)| <= |Digits(n, b)| + 1
  {
    Quotient(n, d, b);
  }
}
