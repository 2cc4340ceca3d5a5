/** Decimal numerals: reading them, writing them, and zero-padding them. */
module Decimal {
  predicate IsDigit(c: char) { '0' <= c <= '9' }

  ghost predicate AllDigits(s: string) { forall c | c in s :: IsDigit(c) }

  lemma DigitsOfFront(s: string)
    requires AllDigits(s) && s != ""
    ensures AllDigits(s[..|s| - 1]) && IsDigit(s[|s| - 1])
    ensures s == s[..|s| - 1] + [s[|s| - 1]]
  {
    assert forall c | c in s[..|s| - 1] :: c in s;
  }

  function DigitValue(c: char): nat
    requires IsDigit(c)
  {
    c as int - '0' as int
  }

  /** `parseInt(s, 10)` of a string of digits. */
  function Value(s: string): nat
    requires forall c | c in s :: IsDigit(c)
  {
    if s == "" then 0 else 10 * Value(s[..|s| - 1]) + DigitValue(s[|s| - 1])
  }

  /** `n.toString()`. */
  function Numeral(n: nat): (s: string)
    ensures s != "" && forall c | c in s :: IsDigit(c)
  {
    var d := ('0' as int + n % 10) as char;
    if n < 10 then [d] else Numeral(n / 10) + [d]
  }

  /** `s.padStart(3, '0')`. */
  function Pad3(s: string): (r: string)
    ensures |r| == if |s| < 3 then 3 else |s|
    decreases 3 - |s|
  {
    if |s| < 3 then Pad3("0" + s) else s
  }

  /** The canonical prefix of migration number n. */
  function Prefix(n: nat): string { Pad3(Numeral(n)) }

  lemma {:induction false} ValueOfNumeral(n: nat)
    ensures Value(Numeral(n)) == n
  {
    if n >= 10 {
      ValueOfNumeral(n / 10);
      assert Numeral(n)[..|Numeral(n)| - 1] == Numeral(n / 10);
    }
  }

  lemma {:induction false} ValueOfZeroPadded(s: string)
    requires AllDigits(s)
    ensures AllDigits("0" + s) && Value("0" + s) == Value(s)
  {
    if s != "" {
      var front := s[..|s| - 1];
      DigitsOfFront(s);
      ValueOfZeroPadded(front);
      assert ("0" + s)[..|s|] == "0" + front;
    }
  }

  lemma {:induction false} PadKeepsValue(s: string)
    requires AllDigits(s)
    ensures AllDigits(Pad3(s)) && Value(Pad3(s)) == Value(s)
    decreases 3 - |s|
  {
    if |s| < 3 {
      ValueOfZeroPadded(s);
      PadKeepsValue("0" + s);
    }
  }

  lemma PrefixIsNumeral(n: nat)
    ensures AllDigits(Prefix(n)) && Value(Prefix(n)) == n
    ensures |Prefix(n)| >= 3
    ensures n < 1000 ==> |Prefix(n)| == 3
  {
    ValueOfNumeral(n);
    PadKeepsValue(Numeral(n));
    if n < 1000 {
      assert n < 10 || n / 10 < 10 || n / 10 / 10 < 10;
      assert |Numeral(n / 10 / 10)| == 1;
    }
  }

  /** A string of digits without a leading zero is worth more than any shorter one. */
  lemma {:induction false} LongerIsLarger(s: string, t: string)
    requires AllDigits(s) && AllDigits(t) && |t| < |s| && s[0] != '0'
    ensures Value(t) < Value(s)
    decreases |s|
  {
    var front := s[..|s| - 1];
    DigitsOfFront(s);
    if |s| > 1 {
      if t == "" {
        LongerIsLarger(front, "");
      } else {
        DigitsOfFront(t);
        LongerIsLarger(front, t[..|t| - 1]);
      }
    } else {
      assert Value(front) == 0;
    }
  }

  lemma {:induction false} NumeralLeads(n: nat)
    ensures n > 0 ==> Numeral(n)[0] != '0'
  {
    if n >= 10 {
      NumeralLeads(n / 10);
    }
  }

  ghost predicate Canonical(p: string) { |p| == 3 || (|p| > 3 && p[0] != '0') }

  lemma PrefixIsCanonical(n: nat)
    ensures Canonical(Prefix(n))
  {
    NumeralLeads(n);
    if n == 0 {
      assert |Numeral(0)| == 1;
    }
  }

  /** The canonical prefix of a number: its digits, zero-padded to three and no further. */
  lemma PrefixIff(n: nat, p: string)
    ensures p == Prefix(n) <==> AllDigits(p) && Value(p) == n && Canonical(p)
  {
    var q := Prefix(n);
    PrefixIsNumeral(n);
    PrefixIsCanonical(n);
    hide Prefix;
    if AllDigits(p) && Value(p) == n && Canonical(p) {
      if |p| < |q| {
        LongerIsLarger(q, p);
      } else if |q| < |p| {
        LongerIsLarger(p, q);
      } else {
        SameValueSameNumeral(p, q);
      }
    }
  }

  /** Among numerals of one length, the smaller number comes first in the alphabet. */
  lemma {:induction false} FirstDifference(a: string, b: string) returns (k: nat)
    requires AllDigits(a) && AllDigits(b) && |a| == |b| && Value(a) < Value(b)
    ensures k < |a| && a[..k] == b[..k] && a[k] < b[k]
  {
    var n := |a| - 1;
    DigitsOfFront(a);
    DigitsOfFront(b);
    if Value(a[..n]) < Value(b[..n]) {
      k := FirstDifference(a[..n], b[..n]);
      assert a[..k] == a[..n][..k] && b[..k] == b[..n][..k];
    } else {
      SameValueSameNumeral(a[..n], b[..n]);
      k := n;
    }
  }

  lemma {:induction false} SameValueSameNumeral(a: string, b: string)
    requires AllDigits(a) && AllDigits(b) && |a| == |b| && Value(a) == Value(b)
    ensures a == b
  {
    if a != "" {
      var n := |a| - 1;
      DigitsOfFront(a);
      DigitsOfFront(b);
      assert 10 * Value(a[..n]) + DigitValue(a[n]) == 10 * Value(b[..n]) + DigitValue(b[n]);
      hide Value;
      SameValueSameNumeral(a[..n], b[..n]);
      assert a == a[..n] + [a[n]] && b == b[..n] + [b[n]];
    }
  }
}
