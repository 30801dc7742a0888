/**
 Which exponents parse_number of service-provider/json.hpp reads right. Its loop starts one character
 after the sign, so that without a plus sign the first digit is lost.
 */
module JsonExponents {
  import opened CText
  import opened Json
  import opened JsonParser
  import opened JsonTheorems

  predicate IsSign(sign: string) {
    sign == "" || sign == "+" || sign == "-"
  }

  // The text parse_number converts for an exponent of this sign and these digits.
  function TextRead(sign: string, digits: string): string
    requires digits != ""
  {
    if sign == "+" then digits else sign + digits[1..]
  }

  lemma {:induction false} DigitsRead(s: string, off: nat, digits: string, before: string)
    requires AllDigits(digits) && Matches(s, off, digits) && IsDelimiter(CharAt(s, off + |digits|))
    ensures ExponentFrom(s, off, before) == Ok(Some(before + digits), off + |digits|)
    decreases |digits|
  {
    if digits == "" {
      assert before + digits == before;
    } else {
      assert s[off] == s[off..off + |digits|][0] == digits[0];
      MatchesSplit(s, off, digits[..1], digits[1..]) by { assert digits[..1] + digits[1..] == digits; }
      DigitsRead(s, off + 1, digits[1..], before + [digits[0]]);
      assert before + [digits[0]] + digits[1..] == before + digits;
    }
  }

  lemma AllDigitsRest(digits: string)
    requires AllDigits(digits) && digits != ""
    ensures AllDigits(digits[1..]) && IsDigit(digits[0])
  {
  }

  // What the exponent at off, which an e or E stands before, is read as.
  lemma ExponentText(s: string, off: nat, sign: string, digits: string)
    requires off < |s| && IsSign(sign) && AllDigits(digits) && digits != "" && Matches(s, off + 1, sign + digits)
    requires IsDelimiter(CharAt(s, off + 1 + |sign| + |digits|))
    ensures ExponentAt(s, off) == Ok(Some(TextRead(sign, digits)), off + 1 + |sign| + |digits|)
  {
    var at := off + 1 + |sign|;
    MatchesSplit(s, off + 1, sign, digits);
    MatchesFirst(s, at, digits);
    assert digits == digits[..1] + digits[1..];
    MatchesSplit(s, at, digits[..1], digits[1..]);
    if sign != "" {
      MatchesFirst(s, off + 1, sign);
    }
    hide Matches, ExponentFrom, IsDelimiter, AllDigits;
    if sign == "+" {
      DigitsRead(s, at, digits, "");
      assert "" + digits == digits;
    } else {
      AllDigitsRest(digits);
      DigitsRead(s, at + 1, digits[1..], sign);
    }
  }

  // --- when that is right ------------------------------------------------------------------------

  function Power10(n: nat): (p: nat)
    ensures p > 0
  {
    if n == 0 then 1 else 10 * Power10(n - 1)
  }

  // The first digit's share of a number.
  lemma {:induction false} FirstDigit(d: string)
    requires AllDigits(d) && d != ""
    ensures AllDigits(d[1..]) && DecimalValue(d) == DigitValue(d[0]) * Power10(|d| - 1) + DecimalValue(d[1..])
    decreases |d|
  {
    var front, last := d[..|d| - 1], DigitValue(d[|d| - 1]);
    if |d| == 1 {
      assert front == "" && d[1..] == "";
    } else {
      FirstDigit(front);
      assert front[1..] == d[1..][..|d| - 2];
      var head, rest := DigitValue(d[0]), DecimalValue(front[1..]);
      assert DecimalValue(d[1..]) == rest * 10 + last;
      Distribute(head, Power10(|d| - 2), rest, last);
    }
  }

  lemma Distribute(head: nat, p: nat, rest: nat, last: nat)
    ensures (head * p + rest) * 10 + last == head * (10 * p) + (rest * 10 + last)
  {
  }

  // strtol of a sign and digits.
  lemma SignedDigits(sign: string, digits: string)
    requires IsSign(sign) && AllDigits(digits) && digits != ""
    ensures SignedPrefix(sign + digits) ==
            Some(if sign == "-" then -1 * DecimalValue(digits) else 1 * DecimalValue(digits))
  {
    hide DecimalValue, DigitPrefix, SignedPrefix, Digits;
    SignedPrefixOfDigits(digits);
    DigitsOfDigits(digits, -1);
    DigitsOfDigits(digits, 1);
    if sign == "+" {
      PlusDigits(digits);
    } else if sign == "" {
      assert "" + digits == digits;
    } else {
      assert "-" + digits == ['-'] + digits;
    }
  }

  lemma PlusDigits(digits: string)
    ensures SignedPrefix("+" + digits) == Digits(digits, 1)
  {
    hide Digits;
    var s := "+" + digits;
    assert s[0] == '+' && s[1..] == digits && SkipSpace(s) == s;
  }

  lemma NoDigits()
    ensures SignedPrefix("") == None && SignedPrefix("-") == None
  {
    assert "-"[1..] == "";
  }

  // Without its first digit a number is the same exactly if that digit is a zero.
  lemma LostDigit(sign: string, digits: string)
    requires IsSign(sign) && AllDigits(digits) && |digits| >= 2
    ensures SignedPrefix(sign + digits[1..]) == SignedPrefix(sign + digits) <==> digits[0] == '0'
  {
    hide SignedPrefix, DecimalValue, Power10;
    FirstDigit(digits);
    SignedDigits(sign, digits);
    SignedDigits(sign, digits[1..]);
    Share(DigitValue(digits[0]), Power10(|digits| - 1));
  }

  // The exponent that is converted is the one that stands there exactly if a plus sign precedes it,
  // or it has a leading zero to lose.
  lemma ExponentExactly(sign: string, digits: string)
    requires IsSign(sign) && AllDigits(digits) && digits != ""
    ensures SignedPrefix(TextRead(sign, digits)) == SignedPrefix(sign + digits) <==>
            sign == "+" || (|digits| >= 2 && digits[0] == '0')
  {
    hide SignedPrefix, DecimalValue, AllDigits;
    SignedDigits(sign, digits);
    if sign == "+" {
      SignedDigits("", digits);
      assert "" + digits == digits;
    } else if |digits| == 1 {
      OnlyDigit(sign, digits);
    } else {
      LostDigit(sign, digits);
    }
  }

  lemma OnlyDigit(sign: string, digit: string)
    requires IsSign(sign) && sign != "+" && |digit| == 1
    ensures SignedPrefix(TextRead(sign, digit)) == None && Stol(TextRead(sign, digit)) == None
  {
    NoDigits();
    hide SignedPrefix;
    assert digit[1..] == "" && sign + "" == sign;
  }

  lemma Share(d: nat, p: nat)
    requires p > 0
    ensures d * p == 0 <==> d == 0
  {
  }

  // A number with an exponent: its mantissa is kept, and stol of what is read of the exponent decides.
  lemma NumberWithExponent(s: string, off: nat, mantissa: string, e: string, sign: string, digits: string)
    requires mantissa != "" && (forall i :: 0 <= i < |mantissa| ==> IsNumberChar(mantissa[i])) && (e == "e" || e == "E")
    requires IsSign(sign) && AllDigits(digits) && digits != ""
    requires Matches(s, off, mantissa + (e + (sign + digits)))
    requires IsDelimiter(CharAt(s, off + |mantissa| + 1 + |sign| + |digits|))
    ensures NumberAt(s, off) ==
            if Stol(TextRead(sign, digits)).None? then Thrown
            else if (if '.' in mantissa then !StodConverts(mantissa) else Stol(mantissa).None?) then Thrown
            else Ok(Floating(mantissa, TextRead(sign, digits)), off + |mantissa| + 1 + |sign| + |digits|)
  {
    var end := off + |mantissa|;
    MatchesSplit(s, off, mantissa, e + (sign + digits));
    MatchesSplit(s, end, e, sign + digits);
    MatchesFirst(s, off, mantissa);
    MatchesFirst(s, end, e);
    assert s[off..end] == mantissa;
    hide NumberEnd, ExponentAt, NumberAt, Stol, StodConverts, TextRead, Matches, AllDigits;
    NumberEndIs(s, off, mantissa);
    ExponentText(s, end, sign, digits);
    MantissaOf(s, off, end, TextRead(sign, digits), end + 1 + |sign| + |digits|);
  }

  // parse_number, once the run of its number characters and the exponent are known.
  lemma MantissaOf(s: string, off: nat, end: nat, read: string, after: nat)
    requires off < end < |s| && NumberEnd(s, off) == end && (s[end] == 'e' || s[end] == 'E')
    requires ExponentAt(s, end) == Ok(Some(read), after)
    ensures var mantissa := s[off..end];
            NumberAt(s, off) ==
            if Stol(read).None? then Thrown
            else if (if '.' in mantissa then !StodConverts(mantissa) else Stol(mantissa).None?) then Thrown
            else Ok(Floating(mantissa, read), after)
  {
    hide NumberEnd, ExponentAt, Stol, StodConverts, IsDelimiter;
  }

  // So a single digit without a plus sign makes stol throw: 1e5 is the least example.
  lemma SingleDigitThrows(s: string, off: nat, mantissa: string, e: string, sign: string, digit: string)
    requires mantissa != "" && (forall i :: 0 <= i < |mantissa| ==> IsNumberChar(mantissa[i])) && (e == "e" || e == "E")
    requires IsSign(sign) && sign != "+" && AllDigits(digit) && |digit| == 1
    requires Matches(s, off, mantissa + (e + (sign + digit)))
    requires IsDelimiter(CharAt(s, off + |mantissa| + 1 + |sign| + 1))
    ensures NumberAt(s, off) == Thrown
  {
    hide *;
    DigitsNotEmpty(digit);
    NumberWithExponent(s, off, mantissa, e, sign, digit);
    OnlyDigit(sign, digit);
  }

  lemma DigitsNotEmpty(digit: string)
    requires |digit| == 1
    ensures digit != ""
  {
  }

  lemma OneE5()
    ensures NumberAt("1e5,", 0) == Thrown
  {
    var s := "1e5,";
    assert "1" + ("e" + ("" + "5")) == "1e5" && s[0..3] == "1e5";
    SingleDigitThrows(s, 0, "1", "e", "", "5");
  }
}
