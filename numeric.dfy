/**
  Decimal text <-> integer conversions used by the increment handler.

  The store keeps every value as text. `hincrby` reads the stored value with a
  strict integer parser (`Strtol`), reads the delta with C's `atoi`, and writes
  the sum back with `snprintf("%ld")`. The helpers' own sources are not part of
  this model; the three functions below are concrete stand-ins with the
  properties the handler relies on, proved rather than assumed:
  `ParseInt(Show(n)) == Some(n)`, `Atoi(Show(n)) == n`, and `Atoi` agrees with
  `ParseInt` wherever the latter succeeds. Machine-word overflow is not modelled.
*/
module Numeric {

  datatype Option<T> = None | Some(value: T)

  predicate IsDigit(c: char) {
    '0' <= c <= '9'
  }

  predicate AllDigits(s: string) {
    forall i :: 0 <= i < |s| ==> IsDigit(s[i])
  }

  /** The characters C's isspace accepts: space, \t, \n, \v, \f, \r. */
  predicate IsSpace(c: char) {
    c == ' ' || '\t' <= c <= '\r'
  }

  function DigitValue(c: char): (d: nat)
    requires IsDigit(c)
    ensures d < 10
  {
    c as int - '0' as int
  }

  function DigitChar(d: nat): (c: char)
    requires d < 10
    ensures IsDigit(c) && DigitValue(c) == d
  {
    ('0' as int + d) as char
  }

  /** Value of a run of decimal digits, most significant digit first. */
  function DigitsValue(s: string): nat
    requires AllDigits(s)
  {
    if s == [] then 0 else DigitsValue(s[..|s| - 1]) * 10 + DigitValue(s[|s| - 1])
  }

  /** Decimal text of a natural number, without leading zeros. */
  function ShowNat(n: nat): (s: string)
    ensures s != [] && AllDigits(s)
    ensures s[0] != '0' || n == 0
  {
    if n < 10 then [DigitChar(n)] else ShowNat(n / 10) + [DigitChar(n % 10)]
  }

  /** `snprintf(tmp, .., "%ld", val)`: an optional '-' and the digits of |val|. */
  function Show(n: int): (s: string)
    ensures n >= 0 ==> s != [] && AllDigits(s) && (s[0] != '0' || n == 0)
    ensures n < 0 ==> |s| >= 2 && s[0] == '-' && AllDigits(s[1..]) && s[1] != '0'
  {
    if n < 0 then "-" + ShowNat(-n) else ShowNat(n)
  }

  /**
    `Strtol` on a whole string: an optional sign followed by one or more
    decimal digits and nothing else; anything else is not a number.
  */
  function ParseInt(s: string): (r: Option<int>)
    ensures r.Some? <==>
      (s != [] && AllDigits(s[1..]) && (IsDigit(s[0]) || ((s[0] == '-' || s[0] == '+') && |s| >= 2)))
    ensures r.Some? && r.value < 0 ==> s[0] == '-'
  {
    if s != [] && (s[0] == '-' || s[0] == '+') then
      var digits := s[1..];
      if digits != [] && AllDigits(digits) then
        var m: int := DigitsValue(digits);
        Some(if s[0] == '-' then -m else m)
      else None
    else if s != [] && AllDigits(s) then Some(DigitsValue(s))
    else None
  }

  /** What is left of `s` once its leading white space is skipped. */
  function SkipSpace(s: string): string {
    if s != [] && IsSpace(s[0]) then SkipSpace(s[1..]) else s
  }

  /** `SkipSpace` drops a prefix of `s` made of white space, and what it leaves starts with no white space. */
  lemma {:induction false} SkipSpaceSuffix(s: string)
    ensures var t := SkipSpace(s);
      && (t == [] || !IsSpace(t[0]))
      && |t| <= |s| && t == s[|s| - |t|..]
      && forall i :: 0 <= i < |s| - |t| ==> IsSpace(s[i])
  {
    if s != [] && IsSpace(s[0]) {
      SkipSpaceSuffix(s[1..]);
    }
  }

  /** The leading run of decimal digits of `s`. */
  function DigitPrefix(s: string): (p: string)
    ensures AllDigits(p)
  {
    if s != [] && IsDigit(s[0]) then [s[0]] + DigitPrefix(s[1..]) else []
  }

  /** `DigitPrefix` is the longest prefix of `s` made of digits. */
  lemma {:induction false} DigitPrefixLongest(s: string)
    ensures var p := DigitPrefix(s);
      p <= s && (p == s || !IsDigit(s[|p|]))
  {
    if s != [] && IsDigit(s[0]) {
      DigitPrefixLongest(s[1..]);
    }
  }

  /**
    C's `atoi`: skips leading white space, takes an optional sign and the
    longest run of digits that follows; no digits at all gives 0. It never
    reports an error.
  */
  function Atoi(s: string): (n: int)
    ensures n < 0 ==> SkipSpace(s) != [] && SkipSpace(s)[0] == '-'
    ensures AllDigits(s) ==> n == DigitsValue(s)
  {
    DigitPrefixOfDigits(s);
    var t := SkipSpace(s);
    if t != [] && (t[0] == '-' || t[0] == '+') then
      var m: int := DigitsValue(DigitPrefix(t[1..]));
      if t[0] == '-' then -m else m
    else DigitsValue(DigitPrefix(t))
  }

  lemma {:induction false} ShowNatValue(n: nat)
    ensures DigitsValue(ShowNat(n)) == n
  {
    if n >= 10 {
      var s := ShowNat(n);
      assert s[..|s| - 1] == ShowNat(n / 10);
      ShowNatValue(n / 10);
    }
  }

  lemma {:induction false} DigitPrefixOfDigits(s: string)
    ensures AllDigits(s) ==> DigitPrefix(s) == s
  {
    if s != [] && AllDigits(s) {
      DigitPrefixOfDigits(s[1..]);
    }
  }

  /** What `hincrby` writes back, `Strtol` reads as the same number. */
  lemma ShowRoundTrip(n: int)
    ensures ParseInt(Show(n)) == Some(n)
  {
    var s := Show(n);
    if n < 0 {
      var digits := ShowNat(-n);
      assert s == "-" + digits && s[1..] == digits;
      ShowNatValue(-n);
      assert DigitsValue(digits) == -n;
    } else {
      assert s == ShowNat(n) && IsDigit(s[0]);
      ShowNatValue(n);
    }
  }

  /** `atoi` also reads the handler's decimal text back as the same number. */
  lemma AtoiShow(n: int)
    ensures Atoi(Show(n)) == n
  {
    var s := Show(n);
    var m: nat := if n < 0 then -n else n;
    assert SkipSpace(s) == s;
    ShowNatValue(m);
    if n < 0 {
      assert s[1..] == ShowNat(m);
      DigitPrefixOfDigits(ShowNat(m));
    } else {
      DigitPrefixOfDigits(s);
    }
  }

  /** Wherever the strict parser accepts a text, `atoi` gives the same value. */
  lemma ParseIntAgreesWithAtoi(s: string)
    requires ParseInt(s).Some?
    ensures Atoi(s) == ParseInt(s).value
  {
    assert SkipSpace(s) == s;
    if s[0] == '-' || s[0] == '+' {
      DigitPrefixOfDigits(s[1..]);
    } else {
      DigitPrefixOfDigits(s);
    }
  }
}
