/** Numbers written in a base, the most significant digit first. */
module Radix {
  import opened Arithmetic

  function Value(s: seq<nat>, b: nat): nat {
    if |s| == 0 then 0 else Value(s[..|s| - 1], b) * b + s[|s| - 1]
  }

  /** The digits of n without leading zeros; none for 0. */
  function Digits(n: nat, b: nat): seq<nat>
    requires b >= 2
  {
    if n == 0 then [] else Digits(n / b, b) + [n % b]
  }

  function Zeros(k: nat): (s: seq<nat>)
    ensures |s| == k
  {
    seq(k, _ => 0)
  }

  function LeadingZeros(s: seq<nat>): (k: nat)
    ensures k <= |s| && s[..k] == Zeros(k) && (k < |s| ==> s[k] != 0)
  {
    if |s| == 0 || s[0] != 0 then 0 else
    var k := LeadingZeros(s[1..]);
    assert s == [0] + s[1..];
    assert s[..k + 1] == [0] + s[1..][..k];
    k + 1
  }

  ghost predicate InBase(s: seq<nat>, b: nat) {
    forall i :: 0 <= i < |s| ==> s[i] < b
  }

  /** The digits of a number written in base b, in base c: one leading zero for each leading zero. */
  function Convert(s: seq<nat>, b: nat, c: nat): seq<nat>
    requires c >= 2
  {
    Zeros(LeadingZeros(s)) + Digits(Value(s, b), c)
  }

  /** The step of Digits, without division in the way. */
  lemma Divided(n: nat, b: nat) returns (q: nat, r: nat)
    requires b >= 2 && n > 0
    ensures q == n / b && r == n % b && n == q * b + r && r < b && q < n
    ensures Digits(n, b) == Digits(q, b) + [r]
  {
    q, r := n / b, n % b;
    assert n == q * b + r;
    if q > 0 { Products(q, 2, q, b); }
  }

  lemma ValueAppend(s: seq<nat>, r: nat, b: nat)
    ensures Value(s + [r], b) == Value(s, b) * b + r
  {
    assert (s + [r])[..|s|] == s;
  }

  lemma {:induction false} DigitsAreDigits(n: nat, b: nat)
    requires b >= 2
    ensures InBase(Digits(n, b), b) && Value(Digits(n, b), b) == n
    ensures n > 0 ==> |Digits(n, b)| > 0 && Digits(n, b)[0] != 0
  {
    if n > 0 {
      var q, r := Divided(n, b);
      DigitsAreDigits(q, b);
      ValueAppend(Digits(q, b), r, b);
    }
  }

  lemma {:induction false} ValueOfZeros(s: seq<nat>, k: nat, b: nat)
    ensures Value(Zeros(k) + s, b) == Value(s, b)
    decreases |s|, k
  {
    if |s| > 0 {
      assert (Zeros(k) + s)[..k + |s| - 1] == Zeros(k) + s[..|s| - 1];
      ValueOfZeros(s[..|s| - 1], k, b);
    } else if k > 0 {
      assert (Zeros(k) + s)[..k - 1] == Zeros(k - 1) + [];
      ValueOfZeros([], k - 1, b);
    }
  }

  lemma {:induction false} ValueIsPositive(s: seq<nat>, b: nat)
    requires |s| > 0 && s[0] != 0 && b > 0
    ensures Value(s, b) > 0
  {
    if |s| > 1 {
      ValueIsPositive(s[..|s| - 1], b);
      assert Value(s[..|s| - 1], b) * b >= 1;
    }
  }

  /** Digits without a leading zero are the digits of their value. */
  lemma {:induction false} DigitsOfValue(s: seq<nat>, b: nat)
    requires b >= 2 && InBase(s, b) && (|s| > 0 ==> s[0] != 0)
    ensures Digits(Value(s, b), b) == s
  {
    if |s| > 0 {
      var k := |s| - 1;
      DigitsOfValue(s[..k], b);
      ValueIsPositive(s, b);
      QuotientIsUnique(Value(s, b), b, Value(s[..k], b), s[k]);
      assert s == s[..k] + [s[k]];
    }
  }

  lemma {:induction false} LeadingZerosAre(t: seq<nat>, k: nat)
    requires k <= |t| && t[..k] == Zeros(k) && (k < |t| ==> t[k] != 0)
    ensures LeadingZeros(t) == k
  {
    if k > 0 {
      assert t[0] == t[..k][0] == Zeros(k)[0];
      assert t[1..][..k - 1] == t[..k][1..] == Zeros(k)[1..] == Zeros(k - 1);
      LeadingZerosAre(t[1..], k - 1);
    }
  }

  lemma LeadingZerosOf(k: nat, s: seq<nat>)
    requires |s| > 0 ==> s[0] != 0
    ensures LeadingZeros(Zeros(k) + s) == k
  {
    LeadingZerosAre(Zeros(k) + s, k);
  }

  /** What is written in base c has the same value, and converting it back gives the same digits. */
  lemma ConvertBack(s: seq<nat>, b: nat, c: nat)
    requires b >= 2 && c >= 2 && InBase(s, b)
    ensures InBase(Convert(s, b, c), c)
    ensures Convert(Convert(s, b, c), c, b) == s
  {
    var k := LeadingZeros(s);
    var n := Value(s, b);
    DigitsAreDigits(n, c);
    LeadingZerosOf(k, Digits(n, c));
    ValueOfZeros(Digits(n, c), k, c);
    assert s == Zeros(k) + s[k..];
    ValueOfZeros(s[k..], k, b);
    DigitsOfValue(s[k..], b);
  }

  // ----- lengths -----

  function Pow(b: nat, e: nat): nat {
    if e == 0 then 1 else b * Pow(b, e - 1)
  }

  lemma {:induction false} PowAdd(b: nat, d: nat, e: nat)
    ensures Pow(b, d + e) == Pow(b, d) * Pow(b, e)
  {
    if d > 0 {
      PowAdd(b, d - 1, e);
      assert b * (Pow(b, d - 1) * Pow(b, e)) == b * Pow(b, d - 1) * Pow(b, e);
    }
  }

  lemma {:induction false} PowMul(b: nat, d: nat, e: nat)
    ensures Pow(Pow(b, d), e) == Pow(b, d * e)
    decreases e
  {
    if e > 0 {
      PowMul(b, d, e - 1);
      PowAdd(b, d, d * (e - 1));
      assert d + d * (e - 1) == d * e;
    }
  }

  lemma {:induction false} PowPositive(b: nat, e: nat)
    requires b > 0
    ensures Pow(b, e) > 0
  {
    if e > 0 { PowPositive(b, e - 1); }
  }

  lemma {:induction false} PowMonotone(a: nat, b: nat, e: nat)
    requires a <= b
    ensures Pow(a, e) <= Pow(b, e)
  {
    if e > 0 {
      PowMonotone(a, b, e - 1);
      Products(a, Pow(a, e - 1), b, Pow(b, e - 1));
    }
  }

  lemma {:induction false} PowStrict(a: nat, b: nat, e: nat)
    requires a < b && e > 0
    ensures Pow(a, e) < Pow(b, e)
  {
    PowMonotone(a, b, e - 1);
    PowPositive(b, e - 1);
    Products(a, Pow(a, e - 1), a, Pow(b, e - 1));
    assert a * Pow(b, e - 1) < b * Pow(b, e - 1);
  }

  lemma Products(a: nat, x: nat, b: nat, y: nat)
    requires a <= b && x <= y
    ensures a * x <= b * y
  {
    assert a * x <= a * y <= b * y;
  }

  lemma PowGrows(b: nat, d: nat, e: nat)
    requires b > 0 && d <= e
    ensures Pow(b, d) <= Pow(b, e)
  {
    PowAdd(b, d, e - d);
    PowPositive(b, d);
    PowPositive(b, e - d);
    Products(Pow(b, d), 1, Pow(b, d), Pow(b, e - d));
  }

  /** A number below b^m has at most m digits, and one of k digits is at least b^(k-1). */
  lemma {:induction false} DigitsBound(n: nat, b: nat)
    requires b >= 2 && n > 0
    ensures |Digits(n, b)| > 0 && Pow(b, |Digits(n, b)| - 1) <= n
  {
    var q, r := Divided(n, b);
    if q > 0 {
      DigitsBound(q, b);
      OneDigitMore(n, b, q, r, |Digits(q, b)|);
    }
  }

  lemma OneDigitMore(n: nat, b: nat, q: nat, r: nat, k: nat)
    requires n == q * b + r && k > 0 && Pow(b, k - 1) <= q
    ensures Pow(b, k) <= n
  {
    Products(b, Pow(b, k - 1), b, q);
  }

  lemma {:induction false} ValueBound(s: seq<nat>, b: nat)
    requires b > 0 && InBase(s, b)
    ensures Value(s, b) < Pow(b, |s|)
  {
    if |s| > 0 {
      var k := |s| - 1;
      ValueBound(s[..k], b);
      Products(Value(s[..k], b) + 1, b, Pow(b, k), b);
    }
  }
}
