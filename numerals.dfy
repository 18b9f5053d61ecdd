/** Decimal numerals and the few std::string operations the page parser relies on:
    find of a character or a substring, and substr with its size_t arithmetic. */
module Numerals {
  import opened Errors

  /** std::string::npos: the largest value of a 64-bit size_t. */
  const NPOS: nat := 0xFFFF_FFFF_FFFF_FFFF

  /** size_t arithmetic wraps around modulo 2^64. */
  function SizeT(x: int): (r: nat)
    ensures r <= NPOS
  {
    x % (NPOS + 1)
  }

  lemma SizeTInRange(x: int)
    requires 0 <= x <= NPOS
    ensures SizeT(x) == x
  {
  }

  /** A negative difference of positions wraps around to a huge size_t. */
  lemma SizeTWraps(x: int)
    requires -(NPOS + 1) <= x < 0
    ensures SizeT(x) == x + NPOS + 1
  {
  }

  predicate IsDigit(c: char) { '0' <= c <= '9' }

  function DigitValue(c: char): nat
    requires IsDigit(c)
  {
    c as int - '0' as int
  }

  function DigitChar(d: nat): (c: char)
    requires d < 10
    ensures IsDigit(c) && DigitValue(c) == d
  {
    ('0' as int + d) as char
  }

  predicate AllDigits(s: string) { forall i :: 0 <= i < |s| ==> IsDigit(s[i]) }

  /** The value of a string of decimal digits, most significant first (what
      atoi returns for such a string, integer overflow aside). */
  function NumeralValue(s: string): nat
    requires AllDigits(s)
    decreases |s|
  {
    if s == [] then 0 else NumeralValue(s[..|s| - 1]) * 10 + DigitValue(s[|s| - 1])
  }

  /** The value Page::isPositiveNum returns: 0 for the empty string and for any
      string holding a non-digit, otherwise the numeral's value when that is at
      least 1, and 0 when it is not. */
  function PositiveNum(s: string): nat
  {
    if s != [] && AllDigits(s) && NumeralValue(s) >= 1 then NumeralValue(s) else 0
  }

  /** std::to_string of a non-negative integer: its shortest decimal numeral. */
  function Decimal(n: nat): (s: string)
    ensures s != [] && AllDigits(s)
    ensures n >= 1 ==> s[0] != '0' && |s| <= n
    decreases n
  {
    if n < 10 then [DigitChar(n)] else Decimal(n / 10) + [DigitChar(n % 10)]
  }

  /** Reading back a numeral written by Decimal gives the number. */
  lemma {:induction false} NumeralOfDecimal(n: nat)
    ensures NumeralValue(Decimal(n)) == n
    decreases n
  {
    if n >= 10 {
      var d := Decimal(n);
      assert d[..|d| - 1] == Decimal(n / 10);
      NumeralOfDecimal(n / 10);
    }
  }

  /** isPositiveNum accepts every numeral std::to_string produces for a positive number. */
  lemma PositiveNumOfDecimal(n: nat)
    requires n >= 1
    ensures PositiveNum(Decimal(n)) == n
  {
    NumeralOfDecimal(n);
  }

  /** A digit string has value zero exactly when every digit is '0'. */
  lemma {:induction false} NumeralZeroIff(s: string)
    requires AllDigits(s)
    ensures NumeralValue(s) == 0 <==> forall i :: 0 <= i < |s| ==> s[i] == '0'
    decreases |s|
  {
    if s != [] {
      var p := s[..|s| - 1];
      NumeralZeroIff(p);
      assert forall i :: 0 <= i < |p| ==> p[i] == s[i];
    }
  }

  /** isPositiveNum rejects (returns 0 for) exactly the empty string, strings with a
      non-digit, and strings of zeros only. */
  lemma PositiveNumZeroIff(s: string)
    ensures PositiveNum(s) == 0 <==>
      s == [] || (exists i :: 0 <= i < |s| && !IsDigit(s[i])) || (forall i :: 0 <= i < |s| ==> s[i] == '0')
  {
    if s != [] && AllDigits(s) {
      NumeralZeroIff(s);
    }
  }

  /** s[i..] starts with pat. */
  predicate MatchAt(s: string, pat: string, i: nat)
  {
    i + |pat| <= |s| && s[i..i + |pat|] == pat
  }

  function FindCharFrom(s: string, c: char, i: nat): (r: nat)
    ensures r == NPOS || (i <= r < |s| && s[r] == c)
    decreases |s| - i
  {
    if i >= |s| then NPOS
    else if s[i] == c then i
    else FindCharFrom(s, c, i + 1)
  }

  /** std::string::find for one character: the first index of c, or npos. */
  function FindChar(s: string, c: char): (r: nat)
    ensures r == NPOS || (r < |s| && s[r] == c)
  {
    FindCharFrom(s, c, 0)
  }

  /** Searching from i finds the first c at or after i, or reports npos when there
      is none. */
  lemma {:induction false} FindCharFromSpec(s: string, c: char, i: nat)
    ensures var r := FindCharFrom(s, c, i);
      (i <= r < |s| && s[r] == c && forall j :: i <= j < r ==> s[j] != c) ||
      (r == NPOS && forall j :: i <= j < |s| ==> s[j] != c)
    decreases |s| - i
  {
    if i < |s| && s[i] != c {
      FindCharFromSpec(s, c, i + 1);
    }
  }

  lemma FindCharSpec(s: string, c: char)
    ensures c in s ==> FindChar(s, c) < |s| && s[FindChar(s, c)] == c && forall j :: 0 <= j < FindChar(s, c) ==> s[j] != c
    ensures c !in s ==> FindChar(s, c) == NPOS
  {
    FindCharFromSpec(s, c, 0);
  }

  function FindStrFrom(s: string, pat: string, i: nat): nat
    decreases |s| - i
  {
    if i + |pat| > |s| then NPOS
    else if s[i..i + |pat|] == pat then i
    else FindStrFrom(s, pat, i + 1)
  }

  /** std::string::find for a substring: the first index where pat occurs, or npos. */
  function FindStr(s: string, pat: string): nat
  {
    FindStrFrom(s, pat, 0)
  }

  /** Searching from i finds the first occurrence of pat at or after i, or reports
      npos when there is none. */
  lemma {:induction false} FindStrFromSpec(s: string, pat: string, i: nat)
    ensures var r := FindStrFrom(s, pat, i);
      (MatchAt(s, pat, r) && i <= r && forall j :: i <= j < r ==> !MatchAt(s, pat, j)) ||
      (r == NPOS && forall j :: i <= j ==> !MatchAt(s, pat, j))
    decreases |s| - i
  {
    if i + |pat| <= |s| && s[i..i + |pat|] != pat {
      FindStrFromSpec(s, pat, i + 1);
    }
  }

  function Min(a: nat, b: nat): nat { if a <= b then a else b }

  /** std::string::substr(pos, len): throws out_of_range when pos is past the end,
      and otherwise keeps at most len characters. */
  function Substr(s: string, pos: nat, len: nat): (r: Result<string>)
    ensures r.Err? <==> pos > |s|
    ensures r.Ok? ==>
      |r.value| == Min(len, |s| - pos) && forall j :: 0 <= j < |r.value| ==> r.value[j] == s[pos + j]
  {
    if pos > |s| then Err(SubstrOutOfRange) else Ok(s[pos..pos + Min(len, |s| - pos)])
  }

  /** A length reaching past the end keeps the rest of the string. */
  lemma SubstrToEnd(s: string, pos: nat, len: nat)
    requires pos <= |s| && |s| - pos <= len
    ensures Substr(s, pos, len) == Ok(s[pos..])
  {
    assert Min(len, |s| - pos) == |s| - pos;
    assert s[pos..pos + (|s| - pos)] == s[pos..];
  }

  /** A string holding a non-digit is not a positive numeral. */
  lemma NonDigitIsZero(s: string, i: nat)
    requires i < |s| && !IsDigit(s[i])
    ensures PositiveNum(s) == 0
  {
  }
}
