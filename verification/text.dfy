/**
 Character-string helpers shared by the model: substring search (Python's
 `p in s`), ASCII decimal digit strings, and the decimal rendering of a
 natural number, with and without two-digit zero padding.
 */
module Text {

  /** `p` occurs in `s` starting at position `i`. */
  ghost predicate OccursAt(s: string, p: string, i: int)
  {
    0 <= i && i + |p| <= |s| && s[i..i + |p|] == p
  }

  /** Substring test: `p` occurs somewhere in `s`. */
  predicate Contains(s: string, p: string)
    decreases |s|
  {
    p <= s || (|s| > 0 && Contains(s[1..], p))
  }

  /** Occurring at position 0 is being a prefix. */
  lemma OccursAtStart(s: string, p: string)
    ensures OccursAt(s, p, 0) <==> p <= s
  {
    if p <= s {
      assert s[0..|p|] == p;
    }
  }

  /** Past the first character, an occurrence in `s` is an occurrence in `s[1..]`, one position earlier. */
  lemma OccursAtShift(s: string, p: string, i: int)
    requires |s| > 0 && i > 0
    ensures OccursAt(s, p, i) <==> OccursAt(s[1..], p, i - 1)
  {
    if i + |p| <= |s| {
      assert s[1..][i - 1..i - 1 + |p|] == s[i..i + |p|];
    }
  }

  /** The executable search agrees with the positional definition of "occurs". */
  lemma {:induction false} ContainsIff(s: string, p: string)
    ensures Contains(s, p) <==> exists i :: OccursAt(s, p, i)
    decreases |s|
  {
    OccursAtStart(s, p);
    if p <= s {
      assert OccursAt(s, p, 0);
    } else if |s| == 0 {
      assert forall i :: !OccursAt(s, p, i);
    } else {
      ContainsIff(s[1..], p);
      if Contains(s[1..], p) {
        var i :| OccursAt(s[1..], p, i);
        OccursAtShift(s, p, i + 1);
      } else {
        forall i | OccursAt(s, p, i)
          ensures false
        {
          if i > 0 {
            OccursAtShift(s, p, i);
          }
        }
      }
    }
  }

  /** Appending text after `a` keeps every substring of `a`. */
  lemma ContainsExtendRight(a: string, b: string, p: string)
    requires Contains(a, p)
    ensures Contains(a + b, p)
  {
    ContainsIff(a, p);
    var i :| OccursAt(a, p, i);
    assert (a + b)[i..i + |p|] == a[i..i + |p|];
    assert OccursAt(a + b, p, i);
    ContainsIff(a + b, p);
  }

  /** Prepending text before `b` keeps every substring of `b`. */
  lemma ContainsExtendLeft(a: string, b: string, p: string)
    requires Contains(b, p)
    ensures Contains(a + b, p)
  {
    ContainsIff(b, p);
    var i :| OccursAt(b, p, i);
    assert (a + b)[|a| + i..|a| + i + |p|] == b[i..i + |p|];
    assert OccursAt(a + b, p, |a| + i);
    ContainsIff(a + b, p);
  }

  /** A string containing `p + q` contains `p`. */
  lemma ContainsShorten(s: string, p: string, q: string)
    requires Contains(s, p + q)
    ensures Contains(s, p)
  {
    ContainsIff(s, p + q);
    var i :| OccursAt(s, p + q, i);
    assert s[i..i + |p|] == (p + q)[..|p|];
    assert OccursAt(s, p, i);
    ContainsIff(s, p);
  }

  /** A pattern found in the first or the last of three concatenated strings is found in the whole. */
  lemma ContainsInOuter(a: string, b: string, c: string, p: string)
    requires Contains(a, p) || Contains(c, p)
    ensures Contains(a + b + c, p)
  {
    if Contains(a, p) {
      ContainsExtendRight(a, b + c, p);
      assert a + (b + c) == a + b + c;
    } else {
      ContainsExtendLeft(a + b, c, p);
    }
  }

  predicate IsDigit(c: char)
  {
    '0' <= c <= '9'
  }

  predicate AllDigits(s: string)
  {
    forall i :: 0 <= i < |s| ==> IsDigit(s[i])
  }

  /**
   The model's reading of Python's `str.isnumeric`: a non-empty string of
   ASCII decimal digits (the empty string is not numeric).
   */
  predicate IsNumeric(s: string)
  {
    |s| > 0 && AllDigits(s)
  }

  function DigitValue(c: char): nat
    requires IsDigit(c)
  {
    (c as int) - ('0' as int)
  }

  function DigitChar(d: nat): (c: char)
    requires d < 10
    ensures IsDigit(c) && DigitValue(c) == d
  {
    (('0' as int) + d) as char
  }

  /** Decimal value of a digit string, as Python's `int(s)`; leading zeros are allowed. */
  function DigitsValue(s: string): nat
    requires AllDigits(s)
    decreases |s|
  {
    if |s| == 0 then 0 else 10 * DigitsValue(s[..|s| - 1]) + DigitValue(s[|s| - 1])
  }

  /** Decimal rendering of `n` without leading zeros, as Python's `str(n)`. */
  function ShowNat(n: nat): (r: string)
    ensures IsNumeric(r)
    decreases n
  {
    if n < 10 then [DigitChar(n)] else ShowNat(n / 10) + [DigitChar(n % 10)]
  }

  /** Reading back a rendered number gives the number. */
  lemma {:induction false} ShowNatRoundTrip(n: nat)
    ensures DigitsValue(ShowNat(n)) == n
    decreases n
  {
    if n >= 10 {
      var s := ShowNat(n);
      assert s[..|s| - 1] == ShowNat(n / 10);
      ShowNatRoundTrip(n / 10);
    }
  }

  /** A leading zero does not change the value of a digit string. */
  lemma {:induction false} LeadingZeroValue(s: string)
    requires AllDigits(s)
    ensures AllDigits("0" + s)
    ensures DigitsValue("0" + s) == DigitsValue(s)
    decreases |s|
  {
    var z := "0" + s;
    assert AllDigits(z) by {
      forall i | 0 <= i < |z|
        ensures IsDigit(z[i])
      {
        if i > 0 {
          assert z[i] == s[i - 1];
        }
      }
    }
    if |s| > 0 {
      var init := s[..|s| - 1];
      assert z[..|z| - 1] == "0" + init;
      LeadingZeroValue(init);
    }
  }

  /** A run of `k` zero digits. */
  function Zeros(k: nat): (r: string)
    ensures |r| == k && AllDigits(r)
  {
    if k == 0 then "" else "0" + Zeros(k - 1)
  }

  /** Any number of leading zeros leaves the value of a digit string unchanged. */
  lemma {:induction false} LeadingZerosValue(k: nat, s: string)
    requires AllDigits(s)
    ensures AllDigits(Zeros(k) + s)
    ensures DigitsValue(Zeros(k) + s) == DigitsValue(s)
    decreases k
  {
    if k > 0 {
      var rest := Zeros(k - 1) + s;
      LeadingZerosValue(k - 1, s);
      LeadingZeroValue(rest);
      assert Zeros(k) + s == "0" + rest;
      calc {
        DigitsValue(Zeros(k) + s);
        DigitsValue("0" + rest);
        DigitsValue(rest);
        DigitsValue(s);
      }
    } else {
      assert Zeros(k) + s == s;
    }
  }

  /** Two-digit zero-padded rendering, as strftime's `%m` and `%d`. */
  function Pad2(n: nat): (r: string)
    ensures IsNumeric(r)
  {
    if n < 10 then "0" + ShowNat(n) else ShowNat(n)
  }

  /** Reading back a padded number gives the number. */
  lemma Pad2RoundTrip(n: nat)
    ensures DigitsValue(Pad2(n)) == n
  {
    ShowNatRoundTrip(n);
    if n < 10 {
      LeadingZeroValue(ShowNat(n));
    }
  }
}
