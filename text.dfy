/**
 * The string built-ins the record keeper leans on: `str.upper` (course codes),
 * `str.lower` (the delete confirmation), `int()` (student ids and course
 * credits typed at a prompt) and `str(int)` (ids as the listings show them).
 * Only ASCII letters and ASCII digits are modelled.
 */
module Text {

  import opened Wrappers

  /** The upper-case form of one character: ASCII `a`..`z` map to `A`..`Z`. */
  function UpperChar(c: char): char {
    if 'a' <= c <= 'z' then (c as int - 32) as char else c
  }

  /** The lower-case form of one character: ASCII `A`..`Z` map to `a`..`z`. */
  function LowerChar(c: char): char {
    if 'A' <= c <= 'Z' then (c as int + 32) as char else c
  }

  /** `s.upper()`: every letter upper-cased, length and other characters kept. */
  function Upper(s: string): (r: string)
    ensures |r| == |s|
    ensures forall i :: 0 <= i < |s| ==> r[i] == UpperChar(s[i])
    ensures forall i :: 0 <= i < |s| ==> !('a' <= r[i] <= 'z')
  {
    seq(|s|, i requires 0 <= i < |s| => UpperChar(s[i]))
  }

  /** `s.lower()`: every letter lower-cased, length and other characters kept. */
  function Lower(s: string): (r: string)
    ensures |r| == |s|
    ensures forall i :: 0 <= i < |s| ==> r[i] == LowerChar(s[i])
  {
    seq(|s|, i requires 0 <= i < |s| => LowerChar(s[i]))
  }

  /** Upper-casing twice is upper-casing once: a stored code is its own normal form. */
  lemma UpperIdempotent(s: string)
    ensures Upper(Upper(s)) == Upper(s)
  {
    assert forall i :: 0 <= i < |s| ==> Upper(Upper(s))[i] == Upper(s)[i];
  }

  /** Two texts that differ only in the case of letters upper-case to the same code. */
  lemma UpperIgnoresCase(s: string, t: string)
    requires |s| == |t|
    requires forall i :: 0 <= i < |s| ==> s[i] == t[i] || LowerChar(s[i]) == LowerChar(t[i])
    ensures Upper(s) == Upper(t)
  {
    forall i | 0 <= i < |s|
      ensures Upper(s)[i] == Upper(t)[i]
    {
      if s[i] != t[i] {
        assert LowerChar(s[i]) == LowerChar(t[i]);
      }
    }
  }

  /** The only confirmation `delete` accepts is a single `y`, in either case. */
  lemma LowerIsY(s: string)
    ensures Lower(s) == "y" <==> s == "y" || s == "Y"
  {
    if Lower(s) == "y" {
      assert |s| == 1 && LowerChar(s[0]) == 'y';
    }
    if s == "y" || s == "Y" {
      assert Lower(s)[0] == 'y';
    }
  }

  predicate IsDigit(c: char) {
    '0' <= c <= '9'
  }

  function DigitValue(c: char): nat
    requires IsDigit(c)
  {
    c as int - '0' as int
  }

  function DigitChar(d: nat): (c: char)
    requires d < 10
    ensures IsDigit(c) && DigitValue(c) == d
  {
    ('0' as int + d) as char
  }

  /**
   * The digit part of a Python integer literal as `int()` accepts it: one or
   * more ASCII digits, with single underscores allowed between two digits.
   */
  predicate DigitGroups(s: string) {
    && |s| > 0
    && IsDigit(s[0])
    && IsDigit(s[|s| - 1])
    && (forall i :: 0 <= i < |s| ==> IsDigit(s[i]) || s[i] == '_')
    && (forall i :: 0 <= i < |s| - 1 ==> !(s[i] == '_' && s[i + 1] == '_'))
  }

  /** The value of a run of digits and underscores, read in base 10; underscores carry no value. */
  function DigitsValue(s: string): nat
    requires forall i :: 0 <= i < |s| ==> IsDigit(s[i]) || s[i] == '_'
  {
    if s == [] then 0
    else if s[|s| - 1] == '_' then DigitsValue(s[..|s| - 1])
    else 10 * DigitsValue(s[..|s| - 1]) + DigitValue(s[|s| - 1])
  }

  /**
   * `int(s)` for an already-stripped text: an optional sign followed by digit
   * groups; anything else raises `ValueError`, modelled as `None`.
   */
  function ParseInt(s: string): (r: Option<int>)
    ensures r.Some? ==> |s| > 0 && IsDigit(s[|s| - 1])
    ensures r.Some? ==> forall i :: 0 <= i < |s| ==>
      IsDigit(s[i]) || s[i] == '_' || (i == 0 && (s[i] == '+' || s[i] == '-'))
    ensures r.Some? && r.value < 0 ==> s[0] == '-'
    ensures (forall i :: 0 <= i < |s| ==> IsDigit(s[i])) && |s| > 0 ==> r.Some? && r.value >= 0
  {
    if |s| > 0 && (s[0] == '+' || s[0] == '-') then
      if DigitGroups(s[1..]) then
        Some(if s[0] == '-' then -(DigitsValue(s[1..]) as int) else DigitsValue(s[1..]))
      else None
    else if DigitGroups(s) then Some(DigitsValue(s))
    else None
  }

  /** `str(n)` for a natural number: its shortest decimal form. */
  function ShowNat(n: nat): (r: string)
    ensures |r| > 0
    ensures forall i :: 0 <= i < |r| ==> IsDigit(r[i])
  {
    if n < 10 then [DigitChar(n)] else ShowNat(n / 10) + [DigitChar(n % 10)]
  }

  /** `str(n)`: a minus sign before the magnitude when `n` is negative. */
  function ShowInt(n: int): (r: string)
    ensures |r| > 0
    ensures r[0] == '-' <==> n < 0
    ensures forall i :: 0 < i < |r| ==> IsDigit(r[i])
  {
    if n < 0 then "-" + ShowNat(-n) else ShowNat(n)
  }

  lemma {:induction false} ShowNatValue(n: nat)
    ensures DigitGroups(ShowNat(n))
    ensures DigitsValue(ShowNat(n)) == n
  {
    var r := ShowNat(n);
    if n >= 10 {
      ShowNatValue(n / 10);
      assert r[..|r| - 1] == ShowNat(n / 10);
    }
  }

  /** Every id a listing prints with `str()` reads back, through `int()`, as the same id. */
  lemma ParseShowRoundTrip(n: int)
    ensures ParseInt(ShowInt(n)) == Some(n)
  {
    if n < 0 {
      ShowNatValue(-n);
      assert ShowInt(n)[1..] == ShowNat(-n);
    } else {
      ShowNatValue(n);
    }
  }

  /** A character other than a digit, an underscore or a leading sign makes `int()` fail. */
  lemma ParseIntRejectsStray(s: string, k: nat)
    requires k < |s|
    requires !IsDigit(s[k]) && s[k] != '_'
    requires k > 0 || (s[k] != '+' && s[k] != '-')
    ensures ParseInt(s) == None
  {
    if |s| > 0 && (s[0] == '+' || s[0] == '-') {
      assert k > 0 && s[1..][k - 1] == s[k];
    }
  }
}
