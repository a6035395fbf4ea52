/**
 * The JavaScript string built-ins the route matcher relies on: the `\w` class of
 * regular expressions, `String.prototype.trim`, `toLowerCase` and the global `parseInt`.
 * JavaScript strings are modelled as sequences of characters.
 */
module JsText {
  import opened Results

  /** `\w` of a regular expression without the `u` flag: `[A-Za-z0-9_]`. */
  predicate IsWordChar(c: char) {
    ('a' <= c <= 'z') || ('A' <= c <= 'Z') || ('0' <= c <= '9') || c == '_'
  }

  predicate IsDigit(c: char) {
    '0' <= c <= '9'
  }

  /** LineTerminator: the characters `.` in a regular expression does not match. */
  predicate IsLineTerminator(c: char) {
    c == '\n' || c == '\r' || c == '\U{2028}' || c == '\U{2029}'
  }

  /**
   * WhiteSpace or LineTerminator of ECMAScript: what `trim` strips and what `parseInt`
   * skips. The space separators (category Zs) are listed by code point.
   */
  predicate IsWhiteSpace(c: char) {
    || c == '\t' || c == '\U{000B}' || c == '\U{000C}' || c == ' '
    || c == '\U{00A0}' || c == '\U{FEFF}' || c == '\U{1680}'
    || ('\U{2000}' <= c <= '\U{200A}') || c == '\U{202F}' || c == '\U{205F}' || c == '\U{3000}'
    || IsLineTerminator(c)
  }

  /** The input without its leading white space. */
  function TrimStart(s: string): (r: string)
    ensures |r| <= |s| && r == s[|s| - |r|..]
    ensures r == [] || !IsWhiteSpace(r[0])
    ensures forall i :: 0 <= i < |s| - |r| ==> IsWhiteSpace(s[i])
  {
    if s == [] || !IsWhiteSpace(s[0]) then s else TrimStart(s[1..])
  }

  /** The input without its trailing white space. */
  function TrimEnd(s: string): (r: string)
    ensures |r| <= |s| && r == s[..|r|]
    ensures r == [] || !IsWhiteSpace(r[|r| - 1])
    ensures forall i :: |r| <= i < |s| ==> IsWhiteSpace(s[i])
  {
    if s == [] || !IsWhiteSpace(s[|s| - 1]) then s else TrimEnd(s[..|s| - 1])
  }

  /** `String.prototype.trim`: the input without white space at either end. */
  function Trim(s: string): (r: string)
    ensures r == [] || (!IsWhiteSpace(r[0]) && !IsWhiteSpace(r[|r| - 1]))
    ensures |s| - |TrimStart(s)| + |r| <= |s|
    ensures r == s[|s| - |TrimStart(s)|..|s| - |TrimStart(s)| + |r|]
    ensures forall i :: 0 <= i < |s| - |TrimStart(s)| ==> IsWhiteSpace(s[i])
    ensures forall i :: |s| - |TrimStart(s)| + |r| <= i < |s| ==> IsWhiteSpace(s[i])
  {
    var t := TrimStart(s);
    var r := TrimEnd(t);
    TrimParts(s, t, r);
    r
  }

  /** White space cut from the front of `s`, then from the back of what is left, is cut from `s`. */
  lemma TrimParts(s: string, t: string, r: string)
    requires |t| <= |s| && t == s[|s| - |t|..]
    requires |r| <= |t| && r == t[..|r|]
    requires forall i :: |r| <= i < |t| ==> IsWhiteSpace(t[i])
    requires t == [] || !IsWhiteSpace(t[0])
    requires r == [] || !IsWhiteSpace(r[|r| - 1])
    ensures r == [] || (!IsWhiteSpace(r[0]) && !IsWhiteSpace(r[|r| - 1]))
    ensures |s| - |t| + |r| <= |s|
    ensures r == s[|s| - |t|..|s| - |t| + |r|]
    ensures forall i :: |s| - |t| + |r| <= i < |s| ==> IsWhiteSpace(s[i])
  {
    var a := |s| - |t|;
    forall i | a + |r| <= i < |s|
      ensures IsWhiteSpace(s[i])
    {
      assert s[i] == t[i - a];
    }
  }

  /** A name is blank after trimming exactly when every character of it is white space. */
  lemma {:induction false} TrimEmptyIff(s: string)
    ensures Trim(s) == [] <==> forall i :: 0 <= i < |s| ==> IsWhiteSpace(s[i])
  {
    var t := TrimStart(s);
    if t != [] {
      assert !IsWhiteSpace(t[0]);
    }
  }

  /** ASCII upper-casing of one character; every other character is left alone. */
  function UpperChar(c: char): char {
    if 'a' <= c <= 'z' then (c as int - 32) as char else c
  }

  /** ASCII lower-casing of one character; every other character is left alone. */
  function LowerChar(c: char): char {
    if 'A' <= c <= 'Z' then (c as int + 32) as char else c
  }

  /** `toLowerCase`, restricted to the ASCII letters. */
  function Lower(s: string): (r: string)
    ensures |r| == |s|
    ensures forall i :: 0 <= i < |s| ==> r[i] == LowerChar(s[i])
  {
    if s == [] then [] else [LowerChar(s[0])] + Lower(s[1..])
  }

  /** The value of a digit in radices up to 36, or 36 for a character that is no digit. */
  function DigitValue(c: char): (d: nat)
    ensures d <= 36
    ensures d < 10 <==> IsDigit(c)
  {
    if '0' <= c <= '9' then c as int - '0' as int
    else if 'a' <= c <= 'z' then c as int - 'a' as int + 10
    else if 'A' <= c <= 'Z' then c as int - 'A' as int + 10
    else 36
  }

  /** The length of the longest prefix made of digits of the given radix. */
  function DigitRun(s: string, radix: nat): (n: nat)
    ensures n <= |s|
    ensures forall i :: 0 <= i < n ==> DigitValue(s[i]) < radix
    ensures n == |s| || DigitValue(s[n]) >= radix
  {
    if s == [] || DigitValue(s[0]) >= radix then 0 else 1 + DigitRun(s[1..], radix)
  }

  /** The number that a run of digits denotes in the given radix. */
  function DigitsValue(z: string, radix: nat): nat {
    if z == [] then 0 else DigitsValue(z[..|z| - 1], radix) * radix + DigitValue(z[|z| - 1])
  }

  /**
   * The global `parseInt(s)` with no radix argument: leading white space is skipped, one
   * sign is read, and the rest is read by `ParseMagnitude`; `None` is NaN.
   */
  function ParseInt(s: string): Option<int> {
    var t := TrimStart(s);
    var negative := t != [] && t[0] == '-';
    var u := if t != [] && (t[0] == '-' || t[0] == '+') then t[1..] else t;
    Signed(negative, ParseMagnitude(u))
  }

  /** A magnitude with its sign applied; NaN stays NaN. */
  function Signed(negative: bool, magnitude: Option<nat>): Option<int> {
    match magnitude
    case None => None
    case Some(v) => var w := v as int; Some(if negative then -w else w)
  }

  /**
   * The unsigned part of `parseInt`: a `0x` or `0X` prefix selects radix 16, otherwise
   * radix 10, and the longest run of digits that follows is the number; NaN when that
   * run is empty.
   */
  function ParseMagnitude(u: string): Option<nat> {
    var hex := |u| >= 2 && u[0] == '0' && (u[1] == 'x' || u[1] == 'X');
    var radix := if hex then 16 else 10;
    var body := if hex then u[2..] else u;
    var z := body[..DigitRun(body, radix)];
    if z == [] then None else Some(DigitsValue(z, radix))
  }

  /** The decimal numeral of a natural number, without leading zeros. */
  function ShowNat(n: nat): (r: string)
    ensures r != [] && IsDigit(r[0]) && (n > 0 ==> r[0] != '0')
    ensures forall i :: 0 <= i < |r| ==> IsDigit(r[i])
  {
    var d := ['0' + (n % 10) as char];
    if n < 10 then d else ShowNat(n / 10) + d
  }

  lemma {:induction false} DigitsValueShowNat(n: nat)
    ensures DigitsValue(ShowNat(n), 10) == n
  {
    var r := ShowNat(n);
    if n >= 10 {
      DigitsValueShowNat(n / 10);
      assert r[..|r| - 1] == ShowNat(n / 10);
    }
  }

  /**
   * `parseInt` reads back the numeral of every natural number, and stops at the first character
   * that is no digit (`parseInt("12abc")` is 12); after a lone `0`, an `x` or `X` would
   * start a hexadecimal numeral instead, so that case is excluded.
   */
  lemma ParseIntShowNat(n: nat, tail: string)
    requires tail == [] || (!IsDigit(tail[0]) && (n != 0 || (tail[0] != 'x' && tail[0] != 'X')))
    ensures ParseInt(ShowNat(n) + tail) == Some(n)
  {
    ParseMagnitudeShowNat(n, tail);
    ParseIntUnsigned(ShowNat(n) + tail);
  }

  /** Without white space or sign in front, `parseInt` is `ParseMagnitude`. */
  lemma ParseIntUnsigned(u: string)
    requires u != [] && IsDigit(u[0])
    ensures ParseInt(u) == Signed(false, ParseMagnitude(u))
  {
    assert !IsWhiteSpace(u[0]);
    assert TrimStart(u) == u;
  }

  /** A leading `-` negates what `ParseMagnitude` reads (so `parseInt("-12")` is -12). */
  lemma ParseIntNegative(u: string)
    ensures ParseInt("-" + u) == Signed(true, ParseMagnitude(u))
  {
    var s := "-" + u;
    assert s[0] == '-';
    assert TrimStart(s) == s;
    assert s[1..] == u;
  }

  lemma ParseMagnitudeShowNat(n: nat, tail: string)
    requires tail == [] || (!IsDigit(tail[0]) && (n != 0 || (tail[0] != 'x' && tail[0] != 'X')))
    ensures ParseMagnitude(ShowNat(n) + tail) == Some(n)
  {
    var numeral := ShowNat(n);
    var u := numeral + tail;
    assert !(|u| >= 2 && u[0] == '0' && (u[1] == 'x' || u[1] == 'X')) by {
      if n == 0 {
        assert |u| >= 2 ==> u[1] == tail[0];
      } else {
        assert u[0] == numeral[0] != '0';
      }
    }
    DigitRunPrefix(numeral, tail);
    assert u[..|numeral|] == numeral;
    DigitsValueShowNat(n);
  }

  /** `parseInt` reads a minus sign and a decimal numeral as the negated number. */
  lemma ParseIntNegativeShowNat(n: nat, tail: string)
    requires tail == [] || (!IsDigit(tail[0]) && (n != 0 || (tail[0] != 'x' && tail[0] != 'X')))
    ensures ParseInt("-" + (ShowNat(n) + tail)) == Some(-(n as int))
  {
    var u := ShowNat(n) + tail;
    ParseMagnitudeShowNat(n, tail);
    SignedNegative(n);
    ParseIntNegative(u);
  }

  lemma SignedNegative(n: nat)
    ensures Signed(true, Some(n)) == Some(-(n as int))
  {
  }

  lemma {:induction false} DigitRunPrefix(digits: string, tail: string)
    requires forall i :: 0 <= i < |digits| ==> IsDigit(digits[i])
    requires tail == [] || !IsDigit(tail[0])
    ensures DigitRun(digits + tail, 10) == |digits|
  {
    if digits != [] {
      assert (digits + tail)[1..] == digits[1..] + tail;
      DigitRunPrefix(digits[1..], tail);
    }
  }
}
