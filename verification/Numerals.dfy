/** Big-endian positional numerals in any base, and their uniqueness without leading zeros. */
module Numerals {

  ghost predicate Digits(s: seq<int>, b: int) {
    forall i | 0 <= i < |s| :: 0 <= s[i] < b
  }

  function Value(s: seq<int>, b: int): int {
    if s == [] then 0 else Value(s[..|s| - 1], b) * b + s[|s| - 1]
  }

  lemma MultiplesAreApart(q: int, r: int, b: int)
    requires b > 0
    ensures q > r ==> q * b >= r * b + b
  {
    if q > r {
      var k := q - r - 1;
      assert k * b >= 0;
      assert q * b == k * b + r * b + b;
    }
  }

  lemma QuotientShrinks(n: int, b: int)
    requires n > 0 && b >= 2
    ensures 0 <= n / b < n && 0 <= n % b < b && n == (n / b) * b + n % b
  {
    var q, r := n / b, n % b;
    assert n == q * b + r;
    MultiplesAreApart(0, q, b);
    assert 0 * b == 0;
    if q > 0 {
      var k := b - 2;
      assert k * q >= 0;
      assert q * b == 2 * q + k * q;
    }
  }

  /** The shortest numeral of n; zero is the empty one. */
  function ToDigits(n: int, b: int): (s: seq<int>)
    requires n >= 0 && b >= 2
  {
    if n == 0 then []
    else
      QuotientShrinks(n, b);
      ToDigits(n / b, b) + [n % b]
  }

  lemma DivisionIsUnique(q: int, d: int, r: int, e: int, b: int)
    requires 0 <= d < b && 0 <= e < b && q * b + d == r * b + e
    ensures q == r && d == e
  {
    MultiplesAreApart(q, r, b);
    MultiplesAreApart(r, q, b);
  }

  lemma DivMod(q: int, d: int, b: int)
    requires b > 0 && 0 <= d < b
    ensures (q * b + d) / b == q && (q * b + d) % b == d
  {
    var x := q * b + d;
    var r, e := x / b, x % b;
    assert x == r * b + e;
    DivisionIsUnique(q, d, r, e, b);
  }

  lemma {:induction false} ValueNonNegative(s: seq<int>, b: int)
    requires Digits(s, b) && b >= 0
    ensures Value(s, b) >= 0
  {
    if s != [] {
      ValueNonNegative(s[..|s| - 1], b);
    }
  }

  lemma {:induction false} ToDigitsIsNumeral(n: int, b: int)
    requires n >= 0 && b >= 2
    ensures Value(ToDigits(n, b), b) == n && Digits(ToDigits(n, b), b)
    ensures n > 0 ==> ToDigits(n, b) != [] && ToDigits(n, b)[0] != 0
  {
    if n > 0 {
      QuotientShrinks(n, b);
      ToDigitsIsNumeral(n / b, b);
      var front := ToDigits(n / b, b);
      assert ToDigits(n, b)[..|front|] == front;
    }
  }

  lemma {:induction false} LeadingDigitCounts(s: seq<int>, b: int)
    requires Digits(s, b) && b >= 2 && s != [] && s[0] != 0
    ensures Value(s, b) > 0
  {
    if |s| > 1 {
      LeadingDigitCounts(s[..|s| - 1], b);
      assert Value(s[..|s| - 1], b) * b >= b;
    } else {
      assert s[..0] == [];
    }
  }

  /** A numeral without leading zeros is the shortest one of its value. */
  lemma {:induction false} NumeralIsUnique(s: seq<int>, b: int)
    requires Digits(s, b) && b >= 2 && (s == [] || s[0] != 0)
    ensures Value(s, b) >= 0 && ToDigits(Value(s, b), b) == s
  {
    if s != [] {
      var front, last := s[..|s| - 1], s[|s| - 1];
      NumeralIsUnique(front, b);
      LeadingDigitCounts(s, b);
      DivMod(Value(front, b), last, b);
      assert s == front + [last];
    }
  }

  function Zeros(k: nat): (z: seq<int>)
    ensures |z| == k && forall i | 0 <= i < k :: z[i] == 0
  {
    seq(k, _ => 0)
  }

  lemma {:induction false} LeadingZerosDoNotCount(k: nat, s: seq<int>, b: int)
    ensures Value(Zeros(k) + s, b) == Value(s, b)
    decreases |s|, k
  {
    if s != [] {
      assert (Zeros(k) + s)[..k + |s| - 1] == Zeros(k) + s[..|s| - 1];
      LeadingZerosDoNotCount(k, s[..|s| - 1], b);
    } else if k > 0 {
      assert (Zeros(k) + s)[..k - 1] == Zeros(k - 1) + [];
      LeadingZerosDoNotCount(k - 1, [], b);
    }
  }

  /** How many zeros a sequence starts with. */
  function LeadingZeros(s: seq<int>): (k: nat)
    ensures k <= |s| && (forall i | 0 <= i < k :: s[i] == 0) && (k < |s| ==> s[k] != 0)
  {
    if s == [] || s[0] != 0 then 0 else 1 + LeadingZeros(s[1..])
  }

  lemma LeadingZerosUnique(s: seq<int>, k: nat)
    requires k <= |s| && (forall i | 0 <= i < k :: s[i] == 0) && (k < |s| ==> s[k] != 0)
    ensures LeadingZeros(s) == k
  {
  }

  /** Every sequence of digits is its leading zeros and the shortest numeral of its value. */
  lemma ZerosAndNumeral(s: seq<int>, b: int)
    requires Digits(s, b) && b >= 2
    ensures Value(s, b) >= 0 && s == Zeros(LeadingZeros(s)) + ToDigits(Value(s, b), b)
  {
    var k := LeadingZeros(s);
    assert s == Zeros(k) + s[k..];
    LeadingZerosDoNotCount(k, s[k..], b);
    NumeralIsUnique(s[k..], b);
  }
}
