/**
 * The pieces of Python string and number formatting the dashboard relies on:
 * decimal rendering of integers (`str(n)`, `%d`, `%02d`, `:.1f` on values held
 * in tenths), string repetition by an integer count, `str.startswith`,
 * `str.split(sep)[k]`, `str.strip()`, `str.replace(c, '')` and `str.lower()`,
 * each with the parsing or characterising facts the rest of the model needs.
 */
module Text {

  import opened Wrappers

  // ---------------------------------------------------------------------------
  // Decimal digits
  // ---------------------------------------------------------------------------

  predicate IsDigit(c: char) {
    '0' <= c <= '9'
  }

  predicate AllDigits(s: string) {
    forall k :: 0 <= k < |s| ==> IsDigit(s[k])
  }

  function DigitChar(d: nat): (c: char)
    requires d < 10
    ensures IsDigit(c) && DigitValue(c) == d
  {
    (48 + d) as char
  }

  function DigitValue(c: char): nat
    requires IsDigit(c)
  {
    c as int - 48
  }

  /** `str(n)` for a non-negative integer: its decimal digits, without leading zeros. */
  function NatToString(n: nat): (s: string)
    ensures |s| >= 1 && AllDigits(s)
    ensures |s| > 1 ==> s[0] != '0'
    ensures s[0] == '0' <==> n == 0
    ensures n < 10 <==> |s| == 1
    decreases n
  {
    if n < 10 then [DigitChar(n)] else NatToString(n / 10) + [DigitChar(n % 10)]
  }

  /**
   * A run of digits without a leading zero is exactly `str` of its value, so
   * NatToString is the only such text that reads back as a given number.
   */
  lemma {:induction false} CanonicalDigits(s: string)
    requires s != [] && AllDigits(s) && (|s| > 1 ==> s[0] != '0')
    ensures s == NatToString(DecimalValue(s))
  {
    if |s| > 1 {
      var init := s[..|s| - 1];
      assert init[0] == s[0];
      assert AllDigits(init);
      CanonicalDigits(init);
      assert DecimalValue(init) != 0;
      var v := DecimalValue(s);
      assert v / 10 == DecimalValue(init) && v % 10 == DigitValue(s[|s| - 1]);
      assert DigitChar(DigitValue(s[|s| - 1])) == s[|s| - 1];
      assert s == init + [s[|s| - 1]];
    } else {
      assert DigitChar(DigitValue(s[0])) == s[0];
    }
  }

  /** `str(i)` / `%d` for any integer: a minus sign before the digits of a negative value. */
  function IntToString(i: int): (s: string)
    ensures |s| >= 1
    ensures s[0] == '-' <==> i < 0
    ensures i < 0 ==> |s| >= 2 && s[1] != '0'
    ensures i >= 0 ==> |s| > 1 ==> s[0] != '0'
  {
    if i < 0 then "-" + NatToString(-i) else NatToString(i)
  }

  /** Parses an optional `-` and a non-empty run of decimal digits, as `int(s)` does. */
  function ParseInt(s: string): Option<int> {
    if s != [] && s[0] == '-' then
      match ParseNat(s[1..])
      case Some(n) => Some(-(n as int))
      case None => None
    else
      match ParseNat(s)
      case Some(n) => Some(n as int)
      case None => None
  }

  /** `str(i)` reads back as `i`. */
  lemma IntToStringRoundTrip(i: int)
    ensures ParseInt(IntToString(i)) == Some(i)
  {
    if i < 0 {
      MinusThen(NatToString(-i));
      NatToStringParses(-i);
    } else {
      assert IsDigit(NatToString(i)[0]);
      NatToStringParses(i);
    }
  }

  lemma MinusThen(s: string)
    ensures ("-" + s) != [] && ("-" + s)[0] == '-' && ("-" + s)[1..] == s
  {
  }

  /** `%02d` for a value below 100: exactly two digits, zero-padded. */
  function TwoDigits(n: nat): (s: string)
    requires n < 100
    ensures |s| == 2 && AllDigits(s)
    ensures DecimalValue(s) == n
  {
    var s := [DigitChar(n / 10), DigitChar(n % 10)];
    assert s[..1][..0] == [] && s[..1] == [s[0]];
    assert DecimalValue(s[..1]) == n / 10;
    assert DecimalValue(s) == (n / 10) * 10 + n % 10;
    s
  }

  /** The number a string of decimal digits denotes. */
  function DecimalValue(s: string): nat
    requires AllDigits(s)
  {
    if s == [] then 0 else DecimalValue(s[..|s| - 1]) * 10 + DigitValue(s[|s| - 1])
  }

  /** Reading back the decimal digits of `n` gives `n` again. */
  lemma {:induction false} DecimalRoundTrip(n: nat)
    ensures DecimalValue(NatToString(n)) == n
  {
    if n >= 10 {
      var s := NatToString(n / 10);
      DecimalRoundTrip(n / 10);
      assert (s + [DigitChar(n % 10)])[..|s|] == s;
    }
  }

  /** Parses a non-empty run of decimal digits, as Python's `int(s)` does for such text. */
  function ParseNat(s: string): (r: Option<nat>)
    ensures r.Some? <==> s != [] && AllDigits(s)
  {
    if s != [] && AllDigits(s) then Some(DecimalValue(s)) else None
  }

  lemma NatToStringParses(n: nat)
    ensures ParseNat(NatToString(n)) == Some(n)
  {
    DecimalRoundTrip(n);
  }

  /**
   * `:.1f` applied to the value `t / 10`, for a value held exactly in tenths:
   * the integer part, a point, and the tenths digit.
   */
  function OneDecimal(t: nat): (s: string)
    ensures |s| >= 3 && s[|s| - 2] == '.'
    ensures AllDigits(s[..|s| - 2]) && IsDigit(s[|s| - 1])
    ensures DecimalValue(s[..|s| - 2]) * 10 + DigitValue(s[|s| - 1]) == t
    ensures |s| > 3 ==> s[0] != '0'
  {
    var whole := NatToString(t / 10);
    DecimalRoundTrip(t / 10);
    assert (whole + "." + [DigitChar(t % 10)])[..|whole|] == whole;
    assert (whole + "." + [DigitChar(t % 10)])[0] == whole[0];
    whole + "." + [DigitChar(t % 10)]
  }

  /** `:.1f` for a signed value held exactly in tenths. */
  function SignedOneDecimal(t: int): (s: string)
    ensures |s| >= 3
    ensures s[0] == '-' <==> t < 0
    ensures t < 0 ==> |s| >= 4 && (|s| > 4 ==> s[1] != '0')
    ensures t >= 0 ==> |s| > 3 ==> s[0] != '0'
  {
    if t < 0 then "-" + OneDecimal(-t) else OneDecimal(t)
  }

  /** Parses `<digits>.<digit>` back into tenths; the inverse of OneDecimal. */
  function ParseOneDecimal(s: string): Option<nat> {
    if |s| >= 3 && s[|s| - 2] == '.' && AllDigits(s[..|s| - 2]) && IsDigit(s[|s| - 1])
    then Some(DecimalValue(s[..|s| - 2]) * 10 + DigitValue(s[|s| - 1]))
    else None
  }

  lemma OneDecimalRoundTrip(t: nat)
    ensures ParseOneDecimal(OneDecimal(t)) == Some(t)
  {
  }

  /** Parses an optional `-` and `<digits>.<digit>` back into signed tenths. */
  function ParseSignedOneDecimal(s: string): Option<int> {
    if s != [] && s[0] == '-' then
      match ParseOneDecimal(s[1..])
      case Some(t) => Some(-(t as int))
      case None => None
    else
      match ParseOneDecimal(s)
      case Some(t) => Some(t as int)
      case None => None
  }

  /** The signed one-decimal text reads back as the value it was written for. */
  lemma SignedOneDecimalRoundTrip(t: int)
    ensures ParseSignedOneDecimal(SignedOneDecimal(t)) == Some(t)
  {
    if t < 0 {
      MinusThen(OneDecimal(-t));
      OneDecimalRoundTrip(-t);
    } else {
      var s := OneDecimal(t);
      assert IsDigit(s[..|s| - 2][0]);
      OneDecimalRoundTrip(t);
    }
  }

  // ---------------------------------------------------------------------------
  // Repetition, prefixes, splitting
  // ---------------------------------------------------------------------------

  /** Python's `c * n`: `n` copies of `c`, and the empty string when `n <= 0`. */
  function Repeat(c: char, n: int): (s: string)
    ensures |s| == if n <= 0 then 0 else n
    ensures forall k :: 0 <= k < |s| ==> s[k] == c
    decreases n
  {
    if n <= 0 then [] else [c] + Repeat(c, n - 1)
  }

  /** `s.startswith(p)`. */
  predicate StartsWith(s: string, p: string) {
    |p| <= |s| && s[..|p|] == p
  }

  /**
   * The text before the first `sep` in `s` (all of `s` when there is none):
   * the first field of `s.split(sep)`.
   */
  function TakeUntil(s: string, sep: char): (r: string)
    ensures |r| <= |s| && r == s[..|r|]
    ensures sep !in r
    ensures |r| < |s| ==> s[|r|] == sep
  {
    if s == [] || s[0] == sep then [] else [s[0]] + TakeUntil(s[1..], sep)
  }

  /** A field followed by its separator splits back off as that field. */
  lemma {:induction false} TakeUntilField(field: string, sep: char, rest: string)
    requires sep !in field
    ensures TakeUntil(field + [sep] + rest, sep) == field
  {
    if field != [] {
      assert (field + [sep] + rest)[1..] == field[1..] + [sep] + rest;
      TakeUntilField(field[1..], sep, rest);
    }
  }

  /** Splits `s` at the first `sep` into the text before it and the text after it. */
  function SplitAt(s: string, sep: char): (r: Option<(string, string)>)
    ensures r.None? <==> sep !in s
    ensures r.Some? ==> sep !in r.value.0 && s == r.value.0 + [sep] + r.value.1
  {
    var field := TakeUntil(s, sep);
    if |field| == |s| then None
    else
      assert s == field + [sep] + s[|field| + 1..];
      Some((field, s[|field| + 1..]))
  }

  /** A field followed by its separator splits back off, with the rest intact. */
  lemma SplitAtField(field: string, sep: char, rest: string)
    requires sep !in field
    ensures SplitAt(field + [sep] + rest, sep) == Some((field, rest))
  {
    TakeUntilField(field, sep, rest);
    assert (field + [sep] + rest)[|field| + 1..] == rest;
  }

  // ---------------------------------------------------------------------------
  // Whitespace, quotes and case
  // ---------------------------------------------------------------------------

  /** The characters for which Python's `str.isspace()` holds. */
  predicate IsSpace(c: char) {
    || '\U{09}' <= c <= '\U{0D}'
    || '\U{1C}' <= c <= '\U{20}'
    || c == '\U{85}' || c == '\U{A0}' || c == '\U{1680}'
    || '\U{2000}' <= c <= '\U{200A}'
    || c == '\U{2028}' || c == '\U{2029}' || c == '\U{202F}' || c == '\U{205F}' || c == '\U{3000}'
  }

  predicate NoSpace(s: string) {
    forall k :: 0 <= k < |s| ==> !IsSpace(s[k])
  }

  predicate AllSpace(s: string) {
    forall k :: 0 <= k < |s| ==> IsSpace(s[k])
  }

  function StripLeft(s: string): (r: string)
    ensures |r| <= |s| && r == s[|s| - |r|..]
    ensures r == [] || !IsSpace(r[0])
    ensures AllSpace(s[..|s| - |r|])
  {
    if s != [] && IsSpace(s[0]) then
      var t := s[1..];
      var r := StripLeft(t);
      assert s[|s| - |r|..] == t[|t| - |r|..];
      var pre := t[..|t| - |r|];
      assert s[..|s| - |r|] == [s[0]] + pre;
      AllSpaceCons(s[0], pre);
      r
    else s
  }

  lemma AllSpaceCons(c: char, p: string)
    requires IsSpace(c) && AllSpace(p)
    ensures AllSpace([c] + p)
  {
    assert forall k :: 1 <= k < |[c] + p| ==> ([c] + p)[k] == p[k - 1];
  }

  function StripRight(s: string): (r: string)
    ensures |r| <= |s| && r == s[..|r|]
    ensures r == [] || !IsSpace(r[|r| - 1])
    ensures AllSpace(s[|r|..])
  {
    if s != [] && IsSpace(s[|s| - 1]) then
      var t := s[..|s| - 1];
      var r := StripRight(t);
      assert s[..|r|] == t[..|r|];
      assert s[|r|..] == t[|r|..] + [s[|s| - 1]];
      r
    else s
  }

  /** `s.strip()`: `s` without its leading and trailing whitespace. */
  function Strip(s: string): (r: string)
    ensures r == [] || (!IsSpace(r[0]) && !IsSpace(r[|r| - 1]))
    ensures |r| <= |s|
  {
    StripRight(StripLeft(s))
  }

  /** Whitespace around a word with no whitespace at its ends is exactly what strip removes. */
  lemma {:induction false} StripPadded(pre: string, word: string, post: string)
    requires AllSpace(pre) && AllSpace(post)
    requires word == [] || (!IsSpace(word[0]) && !IsSpace(word[|word| - 1]))
    ensures Strip(pre + word + post) == word
  {
    if word == [] {
      assert AllSpace(pre + word + post);
    } else {
      assert pre + word + post == pre + (word + post);
      StripLeftPadded(pre, word + post);
      StripRightPadded(word, post);
    }
  }

  lemma {:induction false} StripLeftPadded(pre: string, s: string)
    requires AllSpace(pre)
    requires s == [] || !IsSpace(s[0])
    ensures StripLeft(pre + s) == s
  {
    if pre != [] {
      assert (pre + s)[1..] == pre[1..] + s;
      StripLeftPadded(pre[1..], s);
    } else {
      assert pre + s == s;
    }
  }

  lemma {:induction false} StripRightPadded(s: string, post: string)
    requires AllSpace(post)
    requires s == [] || !IsSpace(s[|s| - 1])
    ensures StripRight(s + post) == s
  {
    if post != [] {
      assert (s + post)[..|s + post| - 1] == s + post[..|post| - 1];
      StripRightPadded(s, post[..|post| - 1]);
    } else {
      assert s + post == s;
    }
  }

  /** `s.replace(c, '')`: `s` with every occurrence of `c` removed, the rest in order. */
  function RemoveAll(s: string, c: char): (r: string)
    ensures c !in r
    ensures |r| <= |s|
    ensures c !in s ==> r == s
  {
    if s == [] then []
    else
      assert s == [s[0]] + s[1..];
      (if s[0] == c then [] else [s[0]]) + RemoveAll(s[1..], c)
  }

  /** `c.lower()` for the ASCII letters; every other character is left as it is. */
  function LowerChar(c: char): (l: char)
    ensures !('A' <= l <= 'Z')
    ensures 'A' <= c <= 'Z' ==> l as int == c as int + 32
    ensures !('A' <= c <= 'Z') ==> l == c
  {
    if 'A' <= c <= 'Z' then (c as int + 32) as char else c
  }

  /** `s.lower()` on ASCII letters, character by character. */
  function Lower(s: string): (r: string)
    ensures |r| == |s|
    ensures forall k :: 0 <= k < |s| ==> r[k] == LowerChar(s[k])
  {
    if s == [] then [] else [LowerChar(s[0])] + Lower(s[1..])
  }

  predicate HasNoUpper(s: string) {
    forall k :: 0 <= k < |s| ==> !('A' <= s[k] <= 'Z')
  }
}
