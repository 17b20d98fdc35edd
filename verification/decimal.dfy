/**
 * Decimal integer text, as Python's int() reads it when pandas casts a text column with
 * astype(int): an optional sign followed by one or more ASCII digits.
 */
module Decimal {
  import opened Results

  predicate IsDigit(c: char) {
    '0' <= c <= '9'
  }

  predicate AllDigits(s: string) {
    forall i :: 0 <= i < |s| ==> IsDigit(s[i])
  }

  /** The value of a string of digits, most significant first. */
  function DigitsValue(s: string): nat
    requires AllDigits(s)
    decreases |s|
  {
    if |s| == 0 then 0
    else 10 * DigitsValue(s[..|s| - 1]) + (s[|s| - 1] as int - '0' as int)
  }

  /** The integer a string denotes, or None when it is not sign-and-digits text. */
  function ParseInt(s: string): (r: Option<int>)
    ensures r.Some? ==> |s| > 0
    ensures |s| > 0 && IsDigit(s[0]) ==> (r.Some? <==> AllDigits(s))
    ensures |s| > 0 && !IsDigit(s[0]) ==>
      (r.Some? <==> |s| > 1 && (s[0] == '-' || s[0] == '+') && AllDigits(s[1..]))
  {
    if |s| > 1 && (s[0] == '-' || s[0] == '+') && AllDigits(s[1..]) then
      var magnitude: int := DigitsValue(s[1..]);
      Some(if s[0] == '-' then -magnitude else magnitude)
    else if |s| > 0 && AllDigits(s) then Some(DigitsValue(s))
    else None
  }

  function DigitChar(d: int): char
    requires 0 <= d <= 9
  {
    ('0' as int + d) as char
  }

  /** Shortest decimal text of a natural number. */
  function ShowNat(n: nat): (s: string)
    ensures |s| > 0 && AllDigits(s)
    decreases n
  {
    if n < 10 then [DigitChar(n)] else ShowNat(n / 10) + [DigitChar(n % 10)]
  }

  function ShowInt(n: int): string {
    if n < 0 then "-" + ShowNat(-n) else ShowNat(n)
  }

  lemma {:induction false} ShowNatValue(n: nat)
    ensures DigitsValue(ShowNat(n)) == n
    decreases n
  {
    var s := ShowNat(n);
    if n >= 10 {
      ShowNatValue(n / 10);
      assert s[..|s| - 1] == ShowNat(n / 10);
    }
  }

  /** Reading back the text of any integer gives that integer. */
  lemma ParseShowRoundTrip(n: int)
    ensures ParseInt(ShowInt(n)) == Some(n)
  {
    if n < 0 {
      var t := ShowNat(-n);
      var s := "-" + t;
      ShowNatValue(-n);
      assert s[0] == '-' && s[1..] == t;
      assert ShowInt(n) == s;
    } else {
      var t := ShowNat(n);
      ShowNatValue(n);
      assert IsDigit(t[0]);
      assert ShowInt(n) == t;
    }
  }

  /** A leading zero does not change the value of digit text. */
  lemma {:induction false} LeadingZeroValue(t: string)
    requires AllDigits(t)
    ensures AllDigits("0" + t) && DigitsValue("0" + t) == DigitsValue(t)
    decreases |t|
  {
    var s := "0" + t;
    assert AllDigits(s) by {
      forall i | 0 <= i < |s|
        ensures IsDigit(s[i])
      {
        if i > 0 {
          assert s[i] == t[i - 1];
        }
      }
    }
    if |t| > 0 {
      var init := t[..|t| - 1];
      assert s[..|s| - 1] == "0" + init;
      LeadingZeroValue(init);
    }
  }

  /**
   * int() reads signed and zero-padded text by its digits: a '+' or a leading '0' changes
   * nothing and a '-' negates, so together with ParseShowRoundTrip every accepted text has a
   * fixed value.
   */
  lemma SignsAndZeros(t: string)
    requires |t| > 0 && AllDigits(t)
    ensures ParseInt(t) == Some(DigitsValue(t))
    ensures ParseInt("+" + t) == ParseInt(t)
    ensures ParseInt("-" + t) == Some(-(DigitsValue(t) as int))
    ensures ParseInt("0" + t) == ParseInt(t)
  {
    UnsignedValue(t);
    SignedValue(t, '+');
    SignedValue(t, '-');
    LeadingZeroValue(t);
    UnsignedValue("0" + t);
  }

  lemma UnsignedValue(t: string)
    requires |t| > 0 && AllDigits(t)
    ensures ParseInt(t) == Some(DigitsValue(t))
  {
    assert IsDigit(t[0]);
  }

  lemma SignedValue(t: string, sign: char)
    requires |t| > 0 && AllDigits(t) && (sign == '+' || sign == '-')
    ensures ParseInt([sign] + t) == Some(if sign == '-' then -(DigitsValue(t) as int) else DigitsValue(t))
  {
    var s := [sign] + t;
    assert s[0] == sign && s[1..] == t;
  }
}
