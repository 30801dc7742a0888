/**
 The C library text conventions the sources rely on: character classes in the "C" locale,
 case-insensitive comparison, and the number conversions atoi, strtol, stol and to_string.

 A text is a sequence of characters whose codes stand for bytes; every code above 127 behaves
 like every other one in all of these classes.
 */
module CText {
  const INT_MAX := 0x7fff_ffff
  const LONG_MIN := -0x8000_0000_0000_0000
  const LONG_MAX := 0x7fff_ffff_ffff_ffff
  const TWO_32 := 0x1_0000_0000
  const TWO_64 := 0x1_0000_0000_0000_0000

  predicate IsSpace(c: char) {
    c == ' ' || c == '\t' || c == '\n' || c == '\U{b}' || c == '\U{c}' || c == '\r'
  }

  predicate IsDigit(c: char) {
    '0' <= c <= '9'
  }

  predicate IsAlpha(c: char) {
    'a' <= c <= 'z' || 'A' <= c <= 'Z'
  }

  predicate IsAlnum(c: char) {
    IsDigit(c) || IsAlpha(c)
  }

  predicate IsHex(c: char) {
    IsDigit(c) || 'a' <= c <= 'f' || 'A' <= c <= 'F'
  }

  function DigitValue(c: char): (d: nat)
    requires IsDigit(c)
    ensures d < 10
  {
    c as int - '0' as int
  }

  function HexValue(c: char): (d: nat)
    requires IsHex(c)
    ensures d < 16
  {
    if IsDigit(c) then c as int - '0' as int
    else if 'a' <= c <= 'f' then c as int - 'a' as int + 10
    else c as int - 'A' as int + 10
  }

  function ToLower(c: char): char {
    if 'A' <= c <= 'Z' then (c as int + 32) as char else c
  }

  function Lower(s: string): (r: string)
    ensures |r| == |s|
  {
    seq(|s|, i requires 0 <= i < |s| => ToLower(s[i]))
  }

  // strcasecmp(a, b) == 0, for texts without NUL
  predicate EqualNoCase(a: string, b: string) {
    Lower(a) == Lower(b)
  }

  // One and the same character, or the two cases of a letter.
  predicate SameLetter(a: char, b: char) {
    || a == b
    || ('A' <= a <= 'Z' && b as int == a as int + 32)
    || ('A' <= b <= 'Z' && a as int == b as int + 32)
  }

  predicate SameLetters(a: string, b: string) {
    |a| == |b| && forall i :: 0 <= i < |a| ==> SameLetter(a[i], b[i])
  }

  // Texts compare equal exactly if they differ in the case of letters only.
  lemma EqualNoCaseExactly(a: string, b: string)
    ensures EqualNoCase(a, b) <==> SameLetters(a, b)
  {
    if EqualNoCase(a, b) {
      assert |Lower(a)| == |Lower(b)|;
      forall i | 0 <= i < |a| ensures SameLetter(a[i], b[i]) {
        assert Lower(a)[i] == Lower(b)[i];
      }
    }
  }

  // The classes of the "C" locale, by the codes of ASCII.
  lemma ClassesByCode(c: char)
    ensures IsSpace(c) <==> c as int == 32 || 9 <= c as int <= 13
    ensures IsDigit(c) <==> 48 <= c as int <= 57
    ensures IsAlpha(c) <==> 65 <= c as int <= 90 || 97 <= c as int <= 122
    ensures IsAlnum(c) <==> 48 <= c as int <= 57 || 65 <= c as int <= 90 || 97 <= c as int <= 122
    ensures IsHex(c) <==> 48 <= c as int <= 57 || 65 <= c as int <= 70 || 97 <= c as int <= 102
  {
  }

  predicate AllSpace(s: string) {
    forall i :: 0 <= i < |s| ==> IsSpace(s[i])
  }

  predicate AllDigits(s: string) {
    forall i :: 0 <= i < |s| ==> IsDigit(s[i])
  }

  predicate AllAlnum(s: string) {
    forall i :: 0 <= i < |s| ==> IsAlnum(s[i])
  }

  predicate AllHex(s: string) {
    forall i :: 0 <= i < |s| ==> IsHex(s[i])
  }

  // The text of a std::string as c_str() hands it on: up to the first NUL.
  function CStr(s: string): (t: string)
    ensures |t| <= |s| && t == s[..|t|] && '\0' !in t
    ensures |t| < |s| ==> s[|t|] == '\0'
  {
    if s == "" || s[0] == '\0' then "" else [s[0]] + CStr(s[1..])
  }

  lemma {:induction false} CStrUpTo(s: string, n: nat)
    requires n < |s| && s[n] == '\0' && '\0' !in s[..n]
    ensures CStr(s) == s[..n]
  {
    if n > 0 {
      assert s[0] == s[..n][0];
      assert s[1..][..n - 1] == s[..n][1..];
      CStrUpTo(s[1..], n - 1);
    }
  }

  // All pieces, one after another.
  function Flatten(pieces: seq<string>): string {
    if pieces == [] then "" else pieces[0] + Flatten(pieces[1..])
  }

  lemma {:induction false} FlattenConcat(a: seq<string>, b: seq<string>)
    ensures Flatten(a + b) == Flatten(a) + Flatten(b)
  {
    if a == [] {
      assert a + b == b;
    } else {
      assert (a + b)[1..] == a[1..] + b;
      FlattenConcat(a[1..], b);
    }
  }

  lemma FlattenPush(pieces: seq<string>, piece: string)
    ensures Flatten(pieces + [piece]) == Flatten(pieces) + piece
  {
    FlattenConcat(pieces, [piece]);
    assert [piece][1..] == [];
  }

  // --- decimal ---------------------------------------------------------------------------

  function DigitChar(d: nat): (c: char)
    requires d < 10
    ensures IsDigit(c) && DigitValue(c) == d
  {
    (d + '0' as int) as char
  }

  // to_string of a non-negative number
  function Decimal(n: nat): (s: string)
    ensures s != [] && AllDigits(s)
  {
    if n < 10 then [DigitChar(n)] else Decimal(n / 10) + [DigitChar(n % 10)]
  }

  // to_string of a long
  function ToDecimal(n: int): string {
    if n < 0 then "-" + Decimal(-n) else Decimal(n)
  }

  function DecimalValue(s: string): nat
    requires AllDigits(s)
  {
    if s == [] then 0
    else DecimalValue(s[..|s| - 1]) * 10 + DigitValue(s[|s| - 1])
  }

  // The digits at the front of s.
  function DigitPrefix(s: string): (p: string)
    ensures |p| <= |s| && p == s[..|p|] && AllDigits(p)
    ensures |p| < |s| ==> !IsDigit(s[|p|])
  {
    if s == [] || !IsDigit(s[0]) then [] else [s[0]] + DigitPrefix(s[1..])
  }

  function SkipSpace(s: string): (r: string)
    ensures |r| <= |s| && r == s[|s| - |r|..]
    ensures r == [] || !IsSpace(r[0])
  {
    if s != [] && IsSpace(s[0]) then SkipSpace(s[1..]) else s
  }

  // strtol(s, NULL, 10) without its clamping; None when there is no digit to convert
  datatype Option<+T> = None | Some(value: T)

  function SignedPrefix(s: string): Option<int> {
    var t := SkipSpace(s);
    if t == [] then None
    else if t[0] == '-' then Digits(t[1..], -1)
    else if t[0] == '+' then Digits(t[1..], 1)
    else Digits(t, 1)
  }

  function Digits(s: string, sign: int): Option<int> {
    var p := DigitPrefix(s);
    if p == [] then None else Some(sign * DecimalValue(p))
  }

  function Clamp(n: int): (r: int)
    ensures LONG_MIN <= r <= LONG_MAX
  {
    if n < LONG_MIN then LONG_MIN else if n > LONG_MAX then LONG_MAX else n
  }

  // A 32-bit two's complement int holding n.
  function Int32(n: int): (r: int)
    ensures -0x8000_0000 <= r <= INT_MAX
    ensures -0x8000_0000 <= n <= INT_MAX ==> r == n
  {
    (n + 0x8000_0000) % TWO_32 - 0x8000_0000
  }

  // atoi(s), as the truncation to int of strtol
  function Atoi(s: string): int {
    match SignedPrefix(s)
    case None => 0
    case Some(n) => Int32(Clamp(n))
  }

  // std::stol(s): None when it throws (nothing to convert, or out of range)
  function Stol(s: string): (r: Option<int>)
    ensures r.Some? ==> LONG_MIN <= r.value <= LONG_MAX
  {
    match SignedPrefix(s)
    case None => None
    case Some(n) => if LONG_MIN <= n <= LONG_MAX then Some(n) else None
  }

  lemma {:induction false} DecimalRoundTrip(n: nat)
    ensures DecimalValue(Decimal(n)) == n
  {
    if n >= 10 {
      DecimalRoundTrip(n / 10);
      assert Decimal(n)[..|Decimal(n)| - 1] == Decimal(n / 10);
    } else {
      assert Decimal(n)[..0] == [];
    }
  }

  lemma {:induction false} DigitPrefixOfDigits(s: string, rest: string)
    requires AllDigits(s) && (rest == [] || !IsDigit(rest[0]))
    ensures DigitPrefix(s + rest) == s
  {
    if s == [] {
      assert s + rest == rest;
    } else {
      assert (s + rest)[1..] == s[1..] + rest;
      DigitPrefixOfDigits(s[1..], rest);
    }
  }

  lemma DigitsOfDigits(d: string, sign: int)
    requires AllDigits(d) && d != []
    ensures Digits(d, sign) == Some(sign * DecimalValue(d))
  {
    assert DigitPrefix(d) == d by {
      DigitPrefixOfDigits(d, []);
      assert d + [] == d;
    }
  }

  lemma SignedPrefixOfDigits(d: string)
    requires AllDigits(d) && d != []
    ensures SignedPrefix(d) == Digits(d, 1)
    ensures SignedPrefix(['-'] + d) == Digits(d, -1)
  {
    assert IsDigit(d[0]);
    assert SkipSpace(d) == d;
    var s := ['-'] + d;
    assert s[0] == '-' && SkipSpace(s) == s && s[1..] == d;
  }

  // strtol: white space, one sign at most, and the digits that follow at once.
  lemma StrtolExactly(space: string, sign: string, digits: string, rest: string)
    requires AllSpace(space) && (sign == "" || sign == "+" || sign == "-") && AllDigits(digits)
    requires rest == "" || !IsDigit(rest[0])
    requires sign == "" && digits == "" && rest != "" ==> !IsSpace(rest[0]) && rest[0] != '+' && rest[0] != '-'
    ensures SignedPrefix(space + (sign + (digits + rest))) ==
            if digits == "" then None
            else Some(if sign == "-" then -1 * DecimalValue(digits) else 1 * DecimalValue(digits))
  {
    var t := sign + (digits + rest);
    FirstOf(sign, digits, rest);
    SkipSpaceOf(space, t);
    DigitPrefixOfDigits(digits, rest);
    hide DecimalValue, DigitPrefix, SkipSpace, AllSpace, AllDigits, IsSpace;
    if sign != "" {
      assert t[0] == sign[0] && t[1..] == digits + rest;
    } else {
      assert t == digits + rest;
    }
  }

  // What a number's text starts with.
  lemma FirstOf(sign: string, digits: string, rest: string)
    requires (sign == "" || sign == "+" || sign == "-") && AllDigits(digits)
    requires sign == "" && digits == "" && rest != "" ==> !IsSpace(rest[0]) && rest[0] != '+' && rest[0] != '-'
    ensures var t := sign + (digits + rest);
            t != "" ==> !IsSpace(t[0]) && (sign == "" ==> t[0] != '-' && t[0] != '+')
  {
    if digits != "" {
      assert IsDigit(digits[0]);
    }
  }

  lemma {:induction false} SkipSpaceOf(space: string, t: string)
    requires AllSpace(space) && (t == "" || !IsSpace(t[0]))
    ensures SkipSpace(space + t) == t
  {
    if space == "" {
      assert space + t == t;
    } else {
      assert (space + t)[1..] == space[1..] + t;
      SkipSpaceOf(space[1..], t);
    }
  }

  // atoi and stol of a number that is read: atoi keeps the 32 lower bits of the long next to it, and
  // stol throws exactly if it is no long.
  lemma ConversionsOf(s: string)
    ensures SignedPrefix(s).None? ==> Atoi(s) == 0 && Stol(s) == None
    ensures SignedPrefix(s).Some? ==>
              var n := SignedPrefix(s).value;
              && (n > 0x7fff_ffff_ffff_ffff ==> Atoi(s) == -1 && Stol(s) == None)
              && (n < -0x8000_0000_0000_0000 ==> Atoi(s) == 0 && Stol(s) == None)
              && (-0x8000_0000_0000_0000 <= n <= 0x7fff_ffff_ffff_ffff ==>
                    (Atoi(s) - n) % 0x1_0000_0000 == 0 && -0x8000_0000 <= Atoi(s) <= 0x7fff_ffff && Stol(s) == Some(n))
  {
    hide SignedPrefix;
  }

  // Converting back what to_string printed.
  lemma SignedPrefixOfDecimal(n: int)
    ensures SignedPrefix(ToDecimal(n)) == Some(n)
  {
    var m := if n < 0 then -n else n;
    DecimalRoundTrip(m);
    SignedPrefixOfDigits(Decimal(m));
    DigitsOfDigits(Decimal(m), if n < 0 then -1 else 1);
  }

  // --- hexadecimal -----------------------------------------------------------------------

  function HexChar(d: nat): (c: char)
    requires d < 16
    ensures IsHex(c) && HexValue(c) == d && c == "0123456789abcdef"[d]
  {
    "0123456789abcdef"[d]
  }

  function HexNumeral(n: nat): (s: string)
    ensures s != [] && AllHex(s)
    ensures n > 0 ==> s[0] != '0'
  {
    if n < 16 then [HexChar(n)] else HexNumeral(n / 16) + [HexChar(n % 16)]
  }

  function HexNumber(s: string): nat
    requires AllHex(s)
  {
    if s == [] then 0
    else HexNumber(s[..|s| - 1]) * 16 + HexValue(s[|s| - 1])
  }

  function HexPrefix(s: string): (p: string)
    ensures |p| <= |s| && p == s[..|p|] && AllHex(p)
    ensures |p| < |s| ==> !IsHex(s[|p|])
  {
    if s == [] || !IsHex(s[0]) then [] else [s[0]] + HexPrefix(s[1..])
  }

  // strtol(s, NULL, 16) on a text of letters and digits: an optional 0x, then the hex digits
  // at the front, clamped to a long.
  function StrtolHex(s: string): (n: nat)
    ensures n <= LONG_MAX
  {
    var t := if |s| > 2 && s[0] == '0' && (s[1] == 'x' || s[1] == 'X') && IsHex(s[2]) then s[2..] else s;
    Clamp(HexNumber(HexPrefix(t)))
  }

  lemma {:induction false} HexNumeralRoundTrip(n: nat)
    ensures HexNumber(HexNumeral(n)) == n
  {
    if n >= 16 {
      HexNumeralRoundTrip(n / 16);
      assert HexNumeral(n)[..|HexNumeral(n)| - 1] == HexNumeral(n / 16);
    } else {
      assert HexNumeral(n)[..0] == [];
    }
  }

  lemma {:induction false} HexPrefixOfHex(s: string)
    requires AllHex(s)
    ensures HexPrefix(s) == s
  {
    if s != [] {
      HexPrefixOfHex(s[1..]);
    }
  }

  // A chunk size as strtol reads it: the hex digits at the front, or those after 0x, up to the largest long.
  lemma StrtolHexExactly(digits: string, rest: string)
    requires AllHex(digits) && (rest == "" || !IsHex(rest[0]))
    requires digits == "0" && |rest| > 1 && (rest[0] == 'x' || rest[0] == 'X') ==> !IsHex(rest[1])
    ensures StrtolHex(digits + rest) ==
            if HexNumber(digits) <= 0x7fff_ffff_ffff_ffff then HexNumber(digits) else 0x7fff_ffff_ffff_ffff
    ensures digits != "" ==> forall x :: x == "0x" || x == "0X" ==>
              StrtolHex(x + (digits + rest)) ==
              if HexNumber(digits) <= 0x7fff_ffff_ffff_ffff then HexNumber(digits) else 0x7fff_ffff_ffff_ffff
  {
    hide HexNumber;
    HexPrefixThen(digits, rest);
    var s := digits + rest;
    assert |digits| >= 2 ==> s[1] == digits[1];
    if digits != "" {
      forall x | x == "0x" || x == "0X" ensures StrtolHex(x + s) == Clamp(HexNumber(digits)) {
        assert (x + s)[2..] == s && (x + s)[2] == digits[0];
      }
    }
  }

  lemma {:induction false} HexPrefixThen(s: string, rest: string)
    requires AllHex(s) && (rest == "" || !IsHex(rest[0]))
    ensures HexPrefix(s + rest) == s
  {
    if s == "" {
      assert s + rest == rest;
    } else {
      assert (s + rest)[1..] == s[1..] + rest;
      HexPrefixThen(s[1..], rest);
    }
  }

  lemma StrtolHexOfNumeral(n: nat)
    requires n <= LONG_MAX
    ensures StrtolHex(HexNumeral(n)) == n && AllAlnum(HexNumeral(n))
  {
    HexNumeralRoundTrip(n);
    HexPrefixOfHex(HexNumeral(n));
  }
}
