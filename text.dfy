/** Character classes and the JavaScript string built-ins the pipeline uses:
    `String.prototype.trim`, the regex classes `\s` and `\d`, `replace(/\D/g, "")`,
    `String(n)` for a non-negative integer and `Array.prototype.join`. */
module Text {

  /** JavaScript's WhiteSpace and LineTerminator code points, which are both what
      `trim` removes and what the regex class `\s` matches: TAB, LF, VT, FF, CR,
      SPACE, NO-BREAK SPACE, the space separators of Unicode category Zs,
      LINE SEPARATOR, PARAGRAPH SEPARATOR and the BYTE ORDER MARK. */
  predicate IsWhitespace(c: char) {
    || ('\t' <= c <= '\r')
    || c == ' '
    || c == '\U{00A0}'
    || c == '\U{1680}'
    || ('\U{2000}' <= c <= '\U{200A}')
    || c == '\U{2028}'
    || c == '\U{2029}'
    || c == '\U{202F}'
    || c == '\U{205F}'
    || c == '\U{3000}'
    || c == '\U{FEFF}'
  }

  /** The regex class `\d`: ASCII digits only. */
  predicate IsDigit(c: char) {
    '0' <= c <= '9'
  }

  predicate AllWhitespace(s: string) {
    forall i :: 0 <= i < |s| ==> IsWhitespace(s[i])
  }

  predicate AllDigits(s: string) {
    forall i :: 0 <= i < |s| ==> IsDigit(s[i])
  }

  /** `s` without its leading whitespace. */
  function TrimStart(s: string): string {
    if s != [] && IsWhitespace(s[0]) then TrimStart(s[1..]) else s
  }

  /** `s` without its trailing whitespace. */
  function TrimEnd(s: string): string {
    if s != [] && IsWhitespace(s[|s| - 1]) then TrimEnd(s[..|s| - 1]) else s
  }

  /** `String.prototype.trim`. */
  function Trim(s: string): string {
    TrimEnd(TrimStart(s))
  }

  /** TrimStart drops exactly the leading run of whitespace: what it keeps is
      a suffix of `s` that is empty or starts with a non-whitespace character,
      and what it drops is all whitespace. */
  lemma {:induction false} TrimStartSpec(s: string)
    ensures |TrimStart(s)| <= |s| && TrimStart(s) == s[|s| - |TrimStart(s)|..]
    ensures AllWhitespace(s[..|s| - |TrimStart(s)|])
    ensures TrimStart(s) == [] || !IsWhitespace(TrimStart(s)[0])
  {
    if s != [] && IsWhitespace(s[0]) {
      TrimStartSpec(s[1..]);
    }
  }

  /** TrimEnd drops exactly the trailing run of whitespace. */
  lemma {:induction false} TrimEndSpec(s: string)
    ensures |TrimEnd(s)| <= |s| && TrimEnd(s) == s[..|TrimEnd(s)|]
    ensures AllWhitespace(s[|TrimEnd(s)|..])
    ensures TrimEnd(s) == [] || !IsWhitespace(TrimEnd(s)[|TrimEnd(s)| - 1])
  {
    if s != [] && IsWhitespace(s[|s| - 1]) {
      TrimEndSpec(s[..|s| - 1]);
      var r := TrimEnd(s);
      assert s[|r|..] == s[..|s| - 1][|r|..] + [s[|s| - 1]];
    }
  }

  /** `Trim(s)` is `s` with whitespace removed from both ends and nowhere else:
      `s` is some whitespace, then `Trim(s)`, then some whitespace, and
      `Trim(s)` neither starts nor ends with whitespace. */
  lemma TrimSpec(s: string)
    ensures exists i :: (0 <= i <= |s| - |Trim(s)| && s[i..i + |Trim(s)|] == Trim(s)
                         && AllWhitespace(s[..i]) && AllWhitespace(s[i + |Trim(s)|..]))
    ensures Trim(s) == [] || (!IsWhitespace(Trim(s)[0]) && !IsWhitespace(Trim(s)[|Trim(s)| - 1]))
  {
    var u := TrimStart(s);
    TrimStartSpec(s);
    TrimEndSpec(u);
    var i := |s| - |u|;
    var t := Trim(s);
    assert s[i..i + |t|] == t;
    assert s[i + |t|..] == u[|t|..];
  }

  /** A string with no whitespace at either end is its own trim. */
  lemma TrimOfTrimmed(s: string)
    requires s == [] || (!IsWhitespace(s[0]) && !IsWhitespace(s[|s| - 1]))
    ensures Trim(s) == s
  {
    assert TrimStart(s) == s;
  }

  /** Trimming a trimmed string changes nothing. */
  lemma TrimIdempotent(s: string)
    ensures Trim(Trim(s)) == Trim(s)
  {
    TrimSpec(s);
    TrimOfTrimmed(Trim(s));
  }

  /** `s.replace(/\D/g, "")`: the digits of `s`, in order. */
  function Digits(s: string): string {
    if s == [] then []
    else (if IsDigit(s[0]) then [s[0]] else []) + Digits(s[1..])
  }

  lemma {:induction false} DigitsSpec(s: string)
    ensures AllDigits(Digits(s)) && |Digits(s)| <= |s|
  {
    if s != [] {
      DigitsSpec(s[1..]);
    }
  }

  lemma {:induction false} DigitsAppend(a: string, b: string)
    ensures Digits(a + b) == Digits(a) + Digits(b)
  {
    if a != [] {
      assert (a + b)[0] == a[0] && (a + b)[1..] == a[1..] + b;
      DigitsAppend(a[1..], b);
    } else {
      assert a + b == b;
    }
  }

  lemma {:induction false} DigitsOfWhitespace(s: string)
    requires AllWhitespace(s)
    ensures Digits(s) == []
  {
    if s != [] {
      DigitsOfWhitespace(s[1..]);
    }
  }

  lemma {:induction false} DigitsOfNoDigits(s: string)
    requires forall i :: 0 <= i < |s| ==> !IsDigit(s[i])
    ensures Digits(s) == []
  {
    if s != [] {
      DigitsOfNoDigits(s[1..]);
    }
  }

  lemma {:induction false} DigitsOfDigits(s: string)
    requires AllDigits(s)
    ensures Digits(s) == s
  {
    if s != [] {
      DigitsOfDigits(s[1..]);
    }
  }

  /** Trimming never removes a digit. */
  lemma DigitsOfTrim(s: string)
    ensures Digits(Trim(s)) == Digits(s)
  {
    var u := TrimStart(s);
    TrimStartSpec(s);
    var head := s[..|s| - |u|];
    assert s == head + u;
    DigitsAppend(head, u);
    DigitsOfWhitespace(head);
    var t := TrimEnd(u);
    TrimEndSpec(u);
    var tail := u[|t|..];
    assert u == t + tail;
    DigitsAppend(t, tail);
    DigitsOfWhitespace(tail);
  }

  function DigitChar(d: nat): (c: char)
    requires d < 10
    ensures IsDigit(c)
  {
    (48 + d) as char
  }

  function DigitValue(c: char): nat
    requires IsDigit(c)
  {
    (c as int) - 48
  }

  /** `String(n)` for a non-negative integer: its decimal digits, most
      significant first, without leading zeros. */
  function DecimalString(n: nat): (s: string)
    ensures |s| >= 1 && AllDigits(s)
    ensures |s| > 1 ==> s[0] != '0'
  {
    if n < 10 then [DigitChar(n)] else DecimalString(n / 10) + [DigitChar(n % 10)]
  }

  /** The number a string of decimal digits denotes. */
  function DecimalValue(s: string): nat
    requires AllDigits(s)
  {
    if s == [] then 0 else 10 * DecimalValue(s[..|s| - 1]) + DigitValue(s[|s| - 1])
  }

  /** Reading back the decimal rendering of `n` gives `n`. */
  lemma {:induction false} DecimalRoundTrip(n: nat)
    ensures DecimalValue(DecimalString(n)) == n
  {
    var s := DecimalString(n);
    if n >= 10 {
      DecimalRoundTrip(n / 10);
      assert s[..|s| - 1] == DecimalString(n / 10);
    }
  }

  /** Concatenation regroups freely; stated once so that proofs can name the step. */
  lemma AppendAssociative<T>(x: seq<T>, y: seq<T>, z: seq<T>)
    ensures x + (y + z) == (x + y) + z
  {
  }

  /** `parts.join(sep)`. */
  function JoinWith(parts: seq<string>, sep: string): string {
    if |parts| == 0 then ""
    else if |parts| == 1 then parts[0]
    else parts[0] + sep + JoinWith(parts[1..], sep)
  }
}
