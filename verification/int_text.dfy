/**
 * Decimal text of integers: how the encoder writes a depth delta (Ruby's
 * string interpolation of an Integer) and how the decoder reads it back (the
 * payload `-?[0-9]+` of the delta regex, converted with `to_i`).
 */
module IntText {
  import opened Wrappers

  predicate IsDigit(c: char) {
    '0' <= c <= '9'
  }

  predicate AllDigits(s: string) {
    forall k | 0 <= k < |s| :: IsDigit(s[k])
  }

  function DigitChar(d: nat): (c: char)
    requires d < 10
    ensures IsDigit(c) && c as int - '0' as int == d
  {
    ('0' as int + d) as char
  }

  /** Decimal digits of `n`, most significant first. */
  function ShowNat(n: nat): (s: string)
    ensures |s| > 0
  {
    if n < 10 then [DigitChar(n)] else ShowNat(n / 10) + [DigitChar(n % 10)]
  }

  /**
   * Every character written is a digit, only zero is written with a leading
   * zero, and the digits read back give `n`.
   */
  lemma {:induction false} ShowNatDigits(n: nat)
    ensures AllDigits(ShowNat(n))
    ensures ShowNat(n)[0] == '0' ==> n == 0
    ensures DigitsValue(ShowNat(n)) == n
  {
    var s := ShowNat(n);
    if n >= 10 {
      ShowNatDigits(n / 10);
      assert s[..|s| - 1] == ShowNat(n / 10);
    }
  }

  /** Decimal text of `n` with a leading minus sign when it is negative. */
  function ShowInt(n: int): (s: string)
    ensures |s| > 0 && '\n' !in s
    decreases if n < 0 then 1 else 0
  {
    if n < 0 then "-" + ShowInt(-n) else ShowNatDigits(n); ShowNat(n)
  }

  /** The value of a string of decimal digits read left to right; leading zeros are allowed. */
  function DigitsValue(s: string): nat
    requires AllDigits(s)
  {
    if s == [] then 0 else DigitsValue(s[..|s| - 1]) * 10 + (s[|s| - 1] as int - '0' as int)
  }

  /**
   * An optional minus sign followed by one or more decimal digits, and
   * nothing else; None when the text does not have that form.
   */
  function ParseInt(s: string): Option<int> {
    if |s| > 1 && s[0] == '-' && AllDigits(s[1..]) then Some(-(DigitsValue(s[1..]) as int))
    else if |s| > 0 && AllDigits(s) then Some(DigitsValue(s))
    else None
  }

  /** Canonical decimal text: no redundant leading zero and no negative zero. */
  predicate Canonical(s: string) {
    if |s| > 0 && s[0] == '-' then
      |s| > 1 && AllDigits(s[1..]) && s[1] != '0'
    else
      |s| > 0 && AllDigits(s) && (|s| == 1 || s[0] != '0')
  }

  /** Reading back what was written gives the same integer. */
  lemma {:induction false} ParseShowInt(n: int)
    ensures ParseInt(ShowInt(n)) == Some(n)
  {
    var s := ShowInt(n);
    if n < 0 {
      ShowNatDigits(-n);
      assert s == "-" + ShowNat(-n);
      assert s[1..] == ShowNat(-n);
    } else {
      ShowNatDigits(n);
      assert s == ShowNat(n) && IsDigit(s[0]);
    }
  }

  /** Everything ShowInt writes is canonical. */
  lemma ShowIntCanonical(n: int)
    ensures Canonical(ShowInt(n))
  {
    if n < 0 {
      ShowNatDigits(-n);
      assert ShowInt(n)[1..] == ShowNat(-n);
    } else {
      ShowNatDigits(n);
    }
  }

  lemma {:induction false} DigitsValuePositive(s: string)
    requires |s| > 0 && AllDigits(s) && s[0] != '0'
    ensures DigitsValue(s) > 0
  {
    if |s| > 1 {
      DigitsValuePositive(s[..|s| - 1]);
    }
  }

  lemma {:induction false} ShowNatOfDigitsValue(s: string)
    requires |s| > 0 && AllDigits(s) && (|s| == 1 || s[0] != '0')
    ensures ShowNat(DigitsValue(s)) == s
  {
    if |s| > 1 {
      var init := s[..|s| - 1];
      DigitsValuePositive(init);
      ShowNatOfDigitsValue(init);
      var n := DigitsValue(s);
      assert n / 10 == DigitsValue(init) && n % 10 == s[|s| - 1] as int - '0' as int;
      assert s == init + [s[|s| - 1]];
    }
  }

  /** On canonical text, parsing and then writing gives the text back. */
  lemma ShowParseCanonical(s: string)
    requires Canonical(s)
    ensures ParseInt(s).Some? && ShowInt(ParseInt(s).value) == s
  {
    if s[0] == '-' {
      ShowNatOfDigitsValue(s[1..]);
      DigitsValuePositive(s[1..]);
      assert s == "-" + s[1..];
    } else {
      ShowNatOfDigitsValue(s);
    }
  }
}
