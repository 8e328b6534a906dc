/**
 * The firmware's `switchColor`: the first six characters of the argument
 * after `cl` are read by `strtoul(_, 16)`. `unsigned long` is 32 bits wide
 * on the AVR, so a minus sign negates modulo 2^32.
 *
 * `strtoul` is modelled by this grammar: C white space, an optional sign, an
 * optional `0x`/`0X` taken only when a hexadecimal digit follows, then the
 * longest run of hexadecimal digits (none gives 0).
 */
module ColorInput {
  import opened Bits
  import opened Text

  /** `toCharArray(AuxArray, 7)` keeps six characters and the terminator. */
  const INPUT_CHARS: nat := 6

  /** C's `isspace`. */
  predicate IsSpace(c: char)
  {
    c == ' ' || 9 <= c as int <= 13
  }

  /** s without its leading white space: every dropped character is a space, and what is left does not start with one. */
  function SkipSpace(s: string): (t: string)
    ensures |t| <= |s| && t == s[|s| - |t|..]
    ensures forall i :: 0 <= i < |s| - |t| ==> IsSpace(s[i])
    ensures |t| > 0 ==> !IsSpace(t[0])
  {
    if |s| > 0 && IsSpace(s[0]) then SkipSpace(s[1..]) else s
  }

  /** The length of the longest run of hexadecimal digits s starts with. */
  function HexRun(s: string): (n: nat)
    ensures n <= |s| && AllHexDigits(s[..n])
    ensures n == |s| || !IsHexDigit(s[n])
  {
    if |s| > 0 && IsHexDigit(s[0]) then
      var n := 1 + HexRun(s[1..]);
      assert s[..n] == [s[0]] + s[1..][..n - 1];
      n
    else 0
  }

  /** The value of a string of hexadecimal digits, most significant first. */
  function HexValue(s: string): nat
    requires AllHexDigits(s)
  {
    if s == [] then 0 else HexValue(s[..|s| - 1]) * 16 + HexDigitValue(s[|s| - 1])
  }

  function Pow16(n: nat): (r: nat)
    ensures r >= 1
  {
    if n == 0 then 1 else 16 * Pow16(n - 1)
  }

  lemma {:induction false} Pow16Mono(a: nat, b: nat)
    requires a <= b
    ensures Pow16(a) <= Pow16(b)
  {
    if a < b {
      Pow16Mono(a, b - 1);
    }
  }

  /** n hexadecimal digits stay below 16^n. */
  lemma {:induction false} HexValueBound(s: string)
    requires AllHexDigits(s)
    ensures HexValue(s) < Pow16(|s|)
  {
    if s != [] {
      HexValueBound(s[..|s| - 1]);
    }
  }

  lemma SixHexDigits(s: string)
    requires AllHexDigits(s) && |s| <= INPUT_CHARS
    ensures HexValue(s) < 0x100_0000
  {
    HexValueBound(s);
    Pow16Mono(|s|, 6);
    assert Pow16(6) == 0x100_0000;
  }

  function HasHexPrefix(u: string): bool
  {
    |u| > 2 && u[0] == '0' && (u[1] == 'x' || u[1] == 'X') && IsHexDigit(u[2])
  }

  /** After white space, a minus sign. */
  predicate IsNegative(s: string)
  {
    var t := SkipSpace(s);
    |t| > 0 && t[0] == '-'
  }

  /** Where the white space s starts with ends: at the first character that is not white space. */
  function SpaceEnd(s: string): (w: nat)
    ensures w <= |s| && forall i :: 0 <= i < w ==> IsSpace(s[i])
    ensures w == |s| || !IsSpace(s[w])
  {
    var t := SkipSpace(s);
    assert |t| > 0 ==> s[|s| - |t|] == t[0];
    |s| - |t|
  }

  /** Where the optional sign after the white space ends: one character further when it is `+` or `-`. */
  function SignEnd(s: string): (g: nat)
    ensures SpaceEnd(s) <= g <= |s| && g <= SpaceEnd(s) + 1
    ensures g == SpaceEnd(s) + 1 <==> SpaceEnd(s) < |s| && (s[SpaceEnd(s)] == '+' || s[SpaceEnd(s)] == '-')
  {
    SpaceEnd(s) + SignLength(s[SpaceEnd(s)..])
  }

  /**
   * What follows the white space, the optional sign and the optional `0x`
   * prefix of s (`NumeralSkips` says which characters are dropped).
   */
  function Numeral(s: string): (rest: string)
    ensures |rest| <= |s| && rest == s[|s| - |rest|..]
  {
    var t := SkipSpace(s);
    var u := t[SignLength(t)..];
    if HasHexPrefix(u) then u[2..] else u
  }

  /**
   * The numeral starts after the white space and the optional sign, and two
   * characters later exactly when `0x` or `0X` and a hexadecimal digit
   * follow the sign; otherwise a leading `0` is the numeral's first digit.
   */
  lemma NumeralSkips(s: string)
    ensures |s| - |Numeral(s)| == SignEnd(s) || |s| - |Numeral(s)| == SignEnd(s) + 2
    ensures |s| - |Numeral(s)| == SignEnd(s) + 2 <==> HasHexPrefix(s[SignEnd(s)..])
  {
    var t := SkipSpace(s);
    assert t == s[SpaceEnd(s)..];
    assert t[SignLength(t)..] == s[SignEnd(s)..];
  }

  /** The hexadecimal digits `strtoul` converts: the longest run of them the numeral starts with. */
  function Digits(s: string): (d: string)
    ensures AllHexDigits(d) && |d| <= |s|
    ensures |d| <= |Numeral(s)| && d == Numeral(s)[..|d|]
    ensures |d| == |Numeral(s)| || !IsHexDigit(Numeral(s)[|d|])
  {
    var rest := Numeral(s);
    rest[..HexRun(rest)]
  }

  /** Unsigned negation modulo 2^32. */
  function Negate32(m: uint32): (r: uint32)
    ensures (r + m) % 0x1_0000_0000 == 0
  {
    if m == 0 then 0 else 0x1_0000_0000 - m
  }

  /**
   * `strtoul(s, &end, 16)` with a 32-bit `unsigned long`, in the grammar
   * above: digits worth 2^32 or more give `ULONG_MAX` whatever the sign;
   * otherwise a minus sign negates the value.
   */
  function Strtoul16(s: string): uint32
  {
    var v := HexValue(Digits(s));
    if v >= 0x1_0000_0000 then 0xFFFF_FFFF
    else if IsNegative(s) then Negate32(v)
    else v
  }

  /** What `toCharArray(AuxArray, 7)` copies: the first six characters, or all of a shorter input. */
  function Head(userInput: string): (h: string)
    ensures |h| <= INPUT_CHARS && |h| <= |userInput| && h == userInput[..|h|]
    ensures |h| == INPUT_CHARS || h == userInput
  {
    userInput[..if |userInput| < INPUT_CHARS then |userInput| else INPUT_CHARS]
  }

  function SwitchColor(userInput: string): uint32
  {
    Strtoul16(Head(userInput))
  }

  /** Six characters hold at most six hexadecimal digits: without a minus sign the colour is below 0x1000000. */
  lemma SwitchColorBound(userInput: string)
    requires !IsNegative(Head(userInput))
    ensures SwitchColor(userInput) < 0x100_0000
  {
    SixHexDigits(Digits(Head(userInput)));
  }

  /** A bare run of hexadecimal digits reads as its value. */
  lemma DigitsOfHex(h: string)
    requires 0 < |h| && AllHexDigits(h)
    ensures Digits(h) == h && !IsNegative(h)
  {
    assert !IsSpace(h[0]) && h[0] != '-' && h[0] != '+';
    assert SkipSpace(h) == h;
    assert h[SignLength(h)..] == h;
    assert !HasHexPrefix(h) by {
      if |h| > 2 {
        assert IsHexDigit(h[1]);
      }
    }
    assert Numeral(h) == h;
    HexRunAll(h);
    assert h[..HexRun(h)] == h;
  }

  /** n digits led by a non-zero one are worth at least 16^(n-1). */
  lemma {:induction false} HexValueLowerBound(h: string)
    requires AllHexDigits(h) && |h| > 0 && HexDigitValue(h[0]) > 0
    ensures HexValue(h) >= Pow16(|h| - 1)
  {
    if |h| > 1 {
      var p := h[..|h| - 1];
      assert p[0] == h[0];
      HexValueLowerBound(p);
    }
  }

  /** Nine or more digits led by a non-zero one are worth at least 2^32. */
  lemma NineDigitsWorth(d: string)
    requires AllHexDigits(d) && |d| >= 9 && HexDigitValue(d[0]) > 0
    ensures HexValue(d) >= 0x1_0000_0000
  {
    HexValueLowerBound(d);
    Pow16Mono(8, |d| - 1);
    assert Pow16(8) == 0x1_0000_0000;
  }

  /** Nine significant digits are worth at least 2^32 and saturate, with or without a minus sign. */
  lemma NineDigitsSaturate(s: string)
    requires |Digits(s)| >= 9 && HexDigitValue(Digits(s)[0]) > 0
    ensures Strtoul16(s) == 0xFFFF_FFFF
  {
    var d := Digits(s);
    NineDigitsWorth(d);
    assert HexValue(d) >= 0x1_0000_0000;
  }

  /** A white-space character in front is skipped: the scan after it is the scan of the rest. */
  lemma SpaceScans(c: char, s: string)
    requires IsSpace(c)
    ensures Digits([c] + s) == Digits(s) && (IsNegative([c] + s) <==> IsNegative(s))
  {
    var cs := [c] + s;
    assert cs[0] == c && cs[1..] == s;
    assert SkipSpace(cs) == SkipSpace(s);
  }

  /** Leading white space does not change the value read. */
  lemma LeadingSpaceIgnored(c: char, s: string)
    requires IsSpace(c)
    ensures Strtoul16([c] + s) == Strtoul16(s)
  {
    SpaceScans(c, s);
  }

  /** A string that does not start with white space has none to skip. */
  lemma NoLeadingSpace(s: string)
    requires |s| == 0 || !IsSpace(s[0])
    ensures SkipSpace(s) == s && SpaceEnd(s) == 0
  {
  }

  /** Without white space or sign in front, the numeral is s, less a `0x` prefix. */
  lemma UnsignedNumeral(s: string)
    requires |s| == 0 || (!IsSpace(s[0]) && s[0] != '+' && s[0] != '-')
    ensures Numeral(s) == (if HasHexPrefix(s) then s[2..] else s) && !IsNegative(s)
  {
    NoLeadingSpace(s);
    assert SignLength(s) == 0 && s[0..] == s;
  }

  /** After a sign, the numeral is what follows it, less a `0x` prefix. */
  lemma SignedNumeral(c: char, s: string)
    requires c == '+' || c == '-'
    requires |s| == 0 || (!IsSpace(s[0]) && s[0] != '+' && s[0] != '-')
    ensures Numeral([c] + s) == (if HasHexPrefix(s) then s[2..] else s)
    ensures IsNegative([c] + s) <==> c == '-'
  {
    var cs := [c] + s;
    assert cs[0] == c && cs[1..] == s;
    NoLeadingSpace(cs);
    assert SignLength(cs) == 1;
    assert SkipSpace(cs)[SignLength(SkipSpace(cs))..] == s;
  }

  /** A sign in front of a numeral is scanned as the sign, and the digits read after it are unchanged. */
  lemma SignScans(c: char, s: string)
    requires c == '+' || c == '-'
    requires |s| == 0 || (!IsSpace(s[0]) && s[0] != '+' && s[0] != '-')
    ensures Digits([c] + s) == Digits(s) && !IsNegative(s)
    ensures IsNegative([c] + s) <==> c == '-'
  {
    UnsignedNumeral(s);
    SignedNumeral(c, s);
  }

  lemma PlusReading(s: string)
    requires |s| == 0 || (!IsSpace(s[0]) && s[0] != '+' && s[0] != '-')
    ensures Strtoul16(['+'] + s) == Strtoul16(s)
  {
    SignScans('+', s);
  }

  lemma MinusNegates(s: string)
    requires |s| == 0 || (!IsSpace(s[0]) && s[0] != '+' && s[0] != '-')
    ensures HexValue(Digits(s)) < 0x1_0000_0000 ==> Strtoul16(['-'] + s) == Negate32(Strtoul16(s))
  {
    SignScans('-', s);
    var v := HexValue(Digits(s));
    assert HexValue(Digits(['-'] + s)) == v;
    if v < 0x1_0000_0000 {
      assert Strtoul16(s) == v;
      assert Strtoul16(['-'] + s) == Negate32(v);
    }
  }

  lemma MinusSaturates(s: string)
    requires |s| == 0 || (!IsSpace(s[0]) && s[0] != '+' && s[0] != '-')
    ensures HexValue(Digits(s)) >= 0x1_0000_0000 ==> Strtoul16(['-'] + s) == Strtoul16(s) == 0xFFFF_FFFF
  {
    SignScans('-', s);
    var v := HexValue(Digits(s));
    assert HexValue(Digits(['-'] + s)) == v;
  }

  /**
   * A `+` in front of a numeral changes nothing; a `-` negates the value read
   * without it modulo 2^32, unless the digits are worth 2^32 or more, when
   * both saturate.
   */
  lemma SignedReading(s: string)
    requires |s| == 0 || (!IsSpace(s[0]) && s[0] != '+' && s[0] != '-')
    ensures Strtoul16("+" + s) == Strtoul16(s)
    ensures HexValue(Digits(s)) < 0x1_0000_0000 ==> Strtoul16("-" + s) == Negate32(Strtoul16(s))
    ensures HexValue(Digits(s)) >= 0x1_0000_0000 ==> Strtoul16("-" + s) == Strtoul16(s) == 0xFFFF_FFFF
  {
    assert "+" + s == ['+'] + s && "-" + s == ['-'] + s;
    PlusReading(s);
    MinusNegates(s);
    MinusSaturates(s);
  }

  /** A token of at most six hexadecimal digits, as the host sends for `cl`, becomes exactly its value. */
  lemma SwitchColorReadsHex(h: string)
    requires 0 < |h| <= INPUT_CHARS && AllHexDigits(h)
    ensures SwitchColor(h) == HexValue(h) && HexValue(h) < 0x100_0000
  {
    assert Head(h) == h;
    SixHexDigits(h);
    DigitsOfHex(h);
  }

  lemma {:induction false} HexRunAll(s: string)
    requires AllHexDigits(s)
    ensures HexRun(s) == |s|
  {
    if |s| > 0 {
      HexRunAll(s[1..]);
    }
  }

  /** The value of the first n digits is the value of the first n-1, shifted, plus digit n. */
  lemma HexValueStep(h: string, n: nat, v: nat, d: nat)
    requires 0 < n <= |h| && AllHexDigits(h)
    requires HexValue(h[..n - 1]) == v && HexDigitValue(h[n - 1]) == d
    ensures HexValue(h[..n]) == v * 16 + d
  {
    assert h[..n][..n - 1] == h[..n - 1];
  }

  /** Six hexadecimal digits d0..d5 arrive as their value. */
  lemma SixDigitsArrive(h: string, d0: nat, d1: nat, d2: nat, d3: nat, d4: nat, d5: nat)
    requires |h| == 6 && AllHexDigits(h)
    requires HexDigitValue(h[0]) == d0 && HexDigitValue(h[1]) == d1 && HexDigitValue(h[2]) == d2
    requires HexDigitValue(h[3]) == d3 && HexDigitValue(h[4]) == d4 && HexDigitValue(h[5]) == d5
    ensures SwitchColor(h) == ((((d0 * 16 + d1) * 16 + d2) * 16 + d3) * 16 + d4) * 16 + d5
  {
    assert HexValue(h[..0]) == 0;
    HexValueStep(h, 1, 0, d0);
    HexValueStep(h, 2, d0, d1);
    HexValueStep(h, 3, d0 * 16 + d1, d2);
    HexValueStep(h, 4, (d0 * 16 + d1) * 16 + d2, d3);
    HexValueStep(h, 5, ((d0 * 16 + d1) * 16 + d2) * 16 + d3, d4);
    HexValueStep(h, 6, (((d0 * 16 + d1) * 16 + d2) * 16 + d3) * 16 + d4, d5);
    assert h[..6] == h;
    SwitchColorReadsHex(h);
  }

  lemma RedArrives()
    ensures SwitchColor("FF0000") == 0xFF0000
  {
    var h := "FF0000";
    assert h[0] == 'F' && h[1] == 'F' && h[2] == '0' && h[3] == '0' && h[4] == '0' && h[5] == '0';
    SixDigitsArrive(h, 15, 15, 0, 0, 0, 0);
  }

  lemma GreenArrives()
    ensures SwitchColor("00FF00") == 0x00FF00
  {
    var h := "00FF00";
    assert h[0] == '0' && h[1] == '0' && h[2] == 'F' && h[3] == 'F' && h[4] == '0' && h[5] == '0';
    SixDigitsArrive(h, 0, 0, 15, 15, 0, 0);
  }

  lemma BlueArrives()
    ensures SwitchColor("0000FF") == 0x0000FF
  {
    var h := "0000FF";
    assert h[0] == '0' && h[1] == '0' && h[2] == '0' && h[3] == '0' && h[4] == 'F' && h[5] == 'F';
    SixDigitsArrive(h, 0, 0, 0, 0, 15, 15);
  }

  lemma WhiteArrives()
    ensures SwitchColor("FFFFFF") == 0xFFFFFF
  {
    var h := "FFFFFF";
    assert h[0] == 'F' && h[1] == 'F' && h[2] == 'F' && h[3] == 'F' && h[4] == 'F' && h[5] == 'F';
    SixDigitsArrive(h, 15, 15, 15, 15, 15, 15);
  }

  /** The predefined colours of the host arrive as the intended 24-bit values. */
  lemma PredefinedColorsArrive()
    ensures SwitchColor("FF0000") == 0xFF0000 && SwitchColor("00FF00") == 0x00FF00
    ensures SwitchColor("0000FF") == 0x0000FF && SwitchColor("FFFFFF") == 0xFFFFFF
  {
    RedArrives();
    GreenArrives();
    BlueArrives();
    WhiteArrives();
  }

  /** `-1` scans as a minus sign followed by the numeral `1`. */
  lemma MinusOneScans()
    ensures IsNegative("-1") && Numeral("-1") == "1"
  {
    var s := "-1";
    assert s[0] == '-' && s[1] == '1';
    assert SkipSpace(s) == s;
    assert SignLength(s) == 1;
    var u := s[1..];
    assert |u| == 1 && u[0] == '1' && !HasHexPrefix(u);
  }

  /** A minus sign wraps: `-1`, which the host accepts as hexadecimal, becomes 0xFFFFFFFF. */
  lemma NegativeColorWraps()
    ensures IsNegative("-1") && SwitchColor("-1") == 0xFFFF_FFFF
  {
    var s, u := "-1", "1";
    assert |s| == 2 && Head(s) == s;
    MinusOneScans();
    assert |u| == 1 && IsHexDigit(u[0]) && HexDigitValue(u[0]) == 1;
    HexRunAll(u);
    assert u[..1] == u;
    assert Digits(s) == u;
    assert HexValue(u[..0]) == 0;
    HexValueStep(u, 1, 0, 1);
    assert HexValue(u) == 1;
  }
}
