/**
 * `int.TryParse(s, CultureInfo.InvariantCulture, out int v)` with its default number style
 * (`NumberStyles.Integer`): leading and trailing white space, an optional leading sign, one or
 * more decimal digits, and a result that must fit a signed 32-bit integer. Trailing NUL
 * characters are accepted, as `Number.TryParseBinaryInteger` does.
 */
module Integers {
  import opened Wrappers

  const MinInt32: int := -0x8000_0000
  const MaxInt32: int := 0x7FFF_FFFF

  predicate IsInt32(n: int) { MinInt32 <= n <= MaxInt32 }

  /** The white space `NumberStyles.AllowLeadingWhite` / `AllowTrailingWhite` skip: U+0009..U+000D and U+0020. */
  predicate IsWhite(c: char) { c == ' ' || '\t' <= c <= '\r' }

  predicate IsDigit(c: char) { '0' <= c <= '9' }

  function DigitValue(c: char): nat requires IsDigit(c) { c as int - '0' as int }

  function DigitChar(d: nat): (c: char)
    requires d < 10
    ensures IsDigit(c) && DigitValue(c) == d
  {
    ('0' as int + d) as char
  }

  /** `s` without its leading white space. */
  function SkipWhite(s: string): (r: string)
    ensures |r| <= |s|
    ensures |r| > 0 ==> !IsWhite(r[0])
  {
    if |s| > 0 && IsWhite(s[0]) then SkipWhite(s[1..]) else s
  }

  /** What is left after the white space is a suffix of the input. */
  lemma {:induction false} SkipWhiteSuffix(s: string)
    ensures SkipWhite(s) == s[|s| - |SkipWhite(s)|..]
    decreases |s|
  {
    if |s| > 0 && IsWhite(s[0]) {
      SkipWhiteSuffix(s[1..]);
    }
  }

  /** Length of the run of digits that starts `s`. */
  function DigitRun(s: string): (n: nat)
    ensures n <= |s|
    ensures forall i :: 0 <= i < n ==> IsDigit(s[i])
    ensures n < |s| ==> !IsDigit(s[n])
  {
    if |s| > 0 && IsDigit(s[0]) then 1 + DigitRun(s[1..]) else 0
  }

  /** The value of a string of decimal digits, most significant first. */
  function DigitsValue(s: string): nat
    requires forall i :: 0 <= i < |s| ==> IsDigit(s[i])
  {
    if |s| == 0 then 0 else DigitsValue(s[..|s| - 1]) * 10 + DigitValue(s[|s| - 1])
  }

  /** What may follow the digits: white space, then NUL characters only. */
  predicate IsTrailer(s: string) {
    var t := SkipWhite(s);
    forall i :: 0 <= i < |t| ==> t[i] == '\0'
  }

  /** The parse. `None` is TryParse returning false (the out value is then 0, see `EpochOf`). */
  function TryParseInt32(s: string): (r: Option<int>)
    ensures r.Some? ==> IsInt32(r.value)
  {
    ParseSigned(SkipWhite(s))
  }

  /** The parse once leading white space is gone: sign, digits, trailer, range check. */
  function ParseSigned(t: string): (r: Option<int>)
    ensures r.Some? ==> IsInt32(r.value)
  {
    var negative := |t| > 0 && t[0] == '-';
    var body := if |t| > 0 && (t[0] == '-' || t[0] == '+') then t[1..] else t;
    var n := DigitRun(body);
    if n == 0 || !IsTrailer(body[n..]) then None
    else
      var magnitude: int := DigitsValue(body[..n]);
      var v := if negative then -magnitude else magnitude;
      if IsInt32(v) then Some(v) else None
  }

  /** Decimal digits of `n` without leading zeros ("0" for zero). */
  function NatToString(n: nat): (s: string)
    ensures |s| > 0
    ensures forall i :: 0 <= i < |s| ==> IsDigit(s[i])
    ensures DigitsValue(s) == n
  {
    if n < 10 then [DigitChar(n)]
    else
      var prefix := NatToString(n / 10);
      var s := prefix + [DigitChar(n % 10)];
      assert s[..|s| - 1] == prefix;
      s
  }

  /** `n.ToString(CultureInfo.InvariantCulture)`. */
  function IntToString(n: int): string {
    if n < 0 then "-" + NatToString(-n) else NatToString(n)
  }

  /** Parsing gives back every 32-bit value in its invariant rendering, and refuses the rest. */
  lemma ParseIntToString(n: int)
    ensures TryParseInt32(IntToString(n)) == if IsInt32(n) then Some(n) else None
  {
    var s := IntToString(n);
    var digits := NatToString(if n < 0 then -n else n);
    var body := if n < 0 then s[1..] else s;
    assert body == digits;
    assert SkipWhite(s) == s;
    assert DigitRun(body) == |body|;
    assert body[..|body|] == body;
  }

  /** Leading white space does not change the parse, however much of it there is. */
  lemma {:induction false} ParseIgnoresLeadingWhite(w: string, s: string)
    requires forall i :: 0 <= i < |w| ==> IsWhite(w[i])
    ensures TryParseInt32(w + s) == TryParseInt32(s)
    decreases |w|
  {
    if |w| > 0 {
      assert (w + s)[1..] == w[1..] + s;
      ParseIgnoresLeadingWhite(w[1..], s);
    } else {
      assert w + s == s;
    }
  }

  /** A field without a single digit is refused. */
  lemma ParseRefusesNoDigits(s: string)
    requires forall i :: 0 <= i < |s| ==> !IsDigit(s[i])
    ensures TryParseInt32(s) == None
  {
    var t := SkipWhite(s);
    SkipWhiteSuffix(s);
    if |t| > 1 {
      assert t[1..][0] == t[1];
    }
  }

  /**
   * Digits followed by anything that is neither white space nor NUL (a letter, a decimal point,
   * a second sign) are refused, whatever comes after.
   */
  lemma ParseRefusesText(digits: string, c: char, rest: string)
    requires |digits| > 0 && forall i :: 0 <= i < |digits| ==> IsDigit(digits[i])
    requires !IsDigit(c) && !IsWhite(c) && c != '\0'
    ensures TryParseInt32(digits + [c] + rest) == None
  {
    var tail := [c] + rest;
    var t := digits + tail;
    assert digits + [c] + rest == t;
    assert t[0] == digits[0] && IsDigit(t[0]) && !IsWhite(t[0]);
    assert SkipWhite(t) == t;
    DigitRunOfDigits(digits, tail);
    assert t[|digits|..] == tail;
    assert tail[0] == c;
    assert SkipWhite(tail) == tail;
    assert !IsTrailer(tail);
    UnsignedBadTrailer(t, |digits|);
  }

  /** Unsigned digits followed by something other than a trailer are refused. */
  lemma UnsignedBadTrailer(t: string, n: nat)
    requires |t| > 0 && IsDigit(t[0]) && n == DigitRun(t) && !IsTrailer(t[n..])
    ensures ParseSigned(t) == None
  {
  }

  /** The digit run of digits followed by a non-digit ends exactly after the digits. */
  lemma {:induction false} DigitRunOfDigits(digits: string, tail: string)
    requires forall i :: 0 <= i < |digits| ==> IsDigit(digits[i])
    requires |tail| > 0 && !IsDigit(tail[0])
    ensures DigitRun(digits + tail) == |digits|
    decreases |digits|
  {
    if |digits| > 0 {
      assert (digits + tail)[1..] == digits[1..] + tail;
      DigitRunOfDigits(digits[1..], tail);
    } else {
      assert digits + tail == tail;
    }
  }
}
