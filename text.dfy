/**
 * Characters, decimal and hexadecimal numerals, and the string searches used
 * by the settings loaders (`std::string::ends_with`, `std::string::find`).
 */
module Text {

  predicate IsDigit(c: char)
  {
    '0' <= c <= '9'
  }

  function DigitValue(c: char): (d: nat)
    requires IsDigit(c)
    ensures d < 10
  {
    (c as int) - ('0' as int)
  }

  predicate IsHexDigit(c: char)
  {
    IsDigit(c) || 'a' <= c <= 'f' || 'A' <= c <= 'F'
  }

  function HexDigitValue(c: char): (d: nat)
    requires IsHexDigit(c)
    ensures d < 16
  {
    if IsDigit(c) then DigitValue(c)
    else if 'a' <= c <= 'f' then (c as int) - ('a' as int) + 10
    else (c as int) - ('A' as int) + 10
  }

  predicate AllDigits(s: string)
  {
    forall i :: 0 <= i < |s| ==> IsDigit(s[i])
  }

  predicate AllHexDigits(s: string)
  {
    forall i :: 0 <= i < |s| ==> IsHexDigit(s[i])
  }

  /** The value of a string of decimal digits, most significant first. */
  function DigitsValue(s: string): nat
    requires AllDigits(s)
  {
    if s == [] then 0 else DigitsValue(s[..|s| - 1]) * 10 + DigitValue(s[|s| - 1])
  }

  function DigitChar(d: nat): (c: char)
    requires d < 10
    ensures IsDigit(c) && DigitValue(c) == d
  {
    ('0' as int + d) as char
  }

  /** Python's `str(n)` and C++'s `cout << n` for a non-negative integer. */
  function NatToString(n: nat): string
  {
    if n < 10 then [DigitChar(n)] else NatToString(n / 10) + [DigitChar(n % 10)]
  }

  /** The decimal rendering of n is a non-empty digit string that reads back as n. */
  lemma {:induction false} NatToStringRoundTrip(n: nat)
    ensures |NatToString(n)| > 0 && AllDigits(NatToString(n))
    ensures DigitsValue(NatToString(n)) == n
  {
    var s := NatToString(n);
    if n >= 10 {
      NatToStringRoundTrip(n / 10);
      assert s[..|s| - 1] == NatToString(n / 10);
    }
  }

  /** Length of an optional leading `+` or `-`. */
  function SignLength(s: string): (k: nat)
    ensures k <= |s|
  {
    if |s| > 0 && (s[0] == '+' || s[0] == '-') then 1 else 0
  }

  /**
   * The tokens Python's `int(s)` accepts, in the simplified grammar of this
   * model: an optional sign followed by one or more ASCII digits.
   */
  predicate IsDecimalInt(s: string)
  {
    var t := s[SignLength(s)..];
    |t| > 0 && AllDigits(t)
  }

  function DecimalIntValue(s: string): int
    requires IsDecimalInt(s)
  {
    var v: int := DigitsValue(s[SignLength(s)..]);
    if s[0] == '-' then -v else v
  }

  /** Python's `int(str(n)) == n`. */
  lemma NatToStringIsDecimalInt(n: nat)
    ensures IsDecimalInt(NatToString(n)) && DecimalIntValue(NatToString(n)) == n
  {
    NatToStringRoundTrip(n);
    var s := NatToString(n);
    assert IsDigit(s[0]);
    assert s[SignLength(s)..] == s;
  }

  /**
   * The tokens Python's `int(s, 16)` accepts, in the simplified grammar of this
   * model: an optional sign, an optional `0x`/`0X` prefix, then one or more
   * hexadecimal digits.
   */
  predicate IsHexLiteral(s: string)
  {
    var t := s[SignLength(s)..];
    (|t| > 0 && AllHexDigits(t))
    || (|t| > 2 && t[0] == '0' && (t[1] == 'x' || t[1] == 'X') && AllHexDigits(t[2..]))
  }

  /** `std::string::ends_with`. */
  predicate EndsWith(s: string, suffix: string)
  {
    if |suffix| == 0 then true
    else if |s| == 0 then false
    else s[|s| - 1] == suffix[|suffix| - 1] && EndsWith(s[..|s| - 1], suffix[..|suffix| - 1])
  }

  lemma {:induction false} EndsWithIff(s: string, suffix: string)
    ensures EndsWith(s, suffix) <==> |suffix| <= |s| && s[|s| - |suffix|..] == suffix
  {
    if |suffix| > 0 && |s| > 0 {
      var s', t' := s[..|s| - 1], suffix[..|suffix| - 1];
      EndsWithIff(s', t');
      if |suffix| <= |s| {
        var tail := s[|s| - |suffix|..];
        assert tail == s'[|s'| - |t'|..] + [s[|s| - 1]];
        assert suffix == t' + [suffix[|suffix| - 1]];
      }
    } else if |suffix| > 0 {
      assert |s| == 0;
    } else {
      assert s[|s|..] == [];
    }
  }

  predicate OccursAt(s: string, t: string, i: nat)
  {
    i + |t| <= |s| && s[i..i + |t|] == t
  }

  /** `s.find(t, from)`: the first position at or after `from` where t occurs, or None for `npos`. */
  function FindFrom(s: string, t: string, from: nat): Option<nat>
    decreases |s| - from
  {
    if from + |t| > |s| then None
    else if s[from..from + |t|] == t then Some(from)
    else FindFrom(s, t, from + 1)
  }

  function Find(s: string, t: string): Option<nat>
  {
    FindFrom(s, t, 0)
  }

  /** find returns the first occurrence, and npos exactly when there is none. */
  lemma {:induction false} FindFromSpec(s: string, t: string, from: nat)
    ensures FindFrom(s, t, from).Some? ==>
      var i := FindFrom(s, t, from).value;
      from <= i && OccursAt(s, t, i) && forall j :: from <= j < i ==> !OccursAt(s, t, j)
    ensures FindFrom(s, t, from).None? <==> forall j :: from <= j ==> !OccursAt(s, t, j)
    decreases |s| - from
  {
    if from + |t| > |s| {
    } else if s[from..from + |t|] == t {
    } else {
      FindFromSpec(s, t, from + 1);
      assert !OccursAt(s, t, from);
      forall j | from <= j && OccursAt(s, t, j)
        ensures from + 1 <= j
      {
      }
    }
  }

  /** `std::string::find`: npos exactly when t occurs nowhere, otherwise the first position where it occurs. */
  lemma FindSpec(s: string, t: string)
    ensures Find(s, t).None? <==> forall j :: 0 <= j ==> !OccursAt(s, t, j)
    ensures Find(s, t).Some? ==> OccursAt(s, t, Find(s, t).value)
    ensures Find(s, t).Some? ==> forall j :: 0 <= j < Find(s, t).value ==> !OccursAt(s, t, j)
  {
    FindFromSpec(s, t, 0);
  }

  /** Python's `sep.join(parts)`. */
  function Join(parts: seq<string>, sep: string): string
  {
    if |parts| == 0 then ""
    else if |parts| == 1 then parts[0]
    else Join(parts[..|parts| - 1], sep) + sep + parts[|parts| - 1]
  }

  datatype Option<+T> = None | Some(value: T)
}
