/** Code normalisation, tokenising and order-preserving deduplication.
    `normalizeCode`, `parseCodesFromText`/`parseCodes` and `uniquePreserveOrder`
    appear with identical bodies in server.js and in public/app.js; they are
    modelled once, here. */
module Codes {
  import opened Wrappers
  import opened Text

  // ---------------------------------------------------------------------------
  // normalizeCode
  // ---------------------------------------------------------------------------

  /** The canonical shape `^\d{6}-\d$`: six digits, a hyphen, one digit. */
  predicate IsCanonical(s: string) {
    && |s| == 8
    && (forall i :: 0 <= i < 6 ==> IsDigit(s[i]))
    && s[6] == '-'
    && IsDigit(s[7])
  }

  /** The canonical code for seven digits: the first six, `-`, the seventh. */
  function Format(digits: string): string
    requires |digits| == 7
  {
    digits[..6] + "-" + digits[6..]
  }

  /** `normalizeCode(raw)`. A raw value is modelled by its `String(raw)`
      conversion; every falsy value (`null`, `undefined`, `0`, `false`, `NaN`,
      `""`) converts to a string that is rejected below, so the source's
      `!raw` test is the test for the empty string. */
  function NormalizeCode(raw: string): (r: Option<string>)
    ensures r.Some? ==> IsCanonical(r.value)
  {
    if raw == "" then None
    else
      var trimmed := Trim(raw);
      if trimmed == "" then None
      else if IsCanonical(trimmed) then Some(trimmed)
      else
        var digits := Digits(trimmed);
        DigitsSpec(trimmed);
        if |digits| == 7 then Some(Format(digits)) else None
  }

  /** Empty or whitespace-only input is rejected. */
  lemma NormalizeBlank(raw: string)
    requires AllWhitespace(raw)
    ensures NormalizeCode(raw) == None
  {
    DigitsOfTrim(raw);
    DigitsOfWhitespace(raw);
  }

  /** Input whose trimmed form is already canonical comes back trimmed and otherwise unchanged. */
  lemma NormalizeKeepsCanonical(raw: string)
    requires IsCanonical(Trim(raw))
    ensures NormalizeCode(raw) == Some(Trim(raw))
  {
  }

  /** A canonical code has no surrounding whitespace, so it normalises to itself. */
  lemma CanonicalIsFixedPoint(code: string)
    requires IsCanonical(code)
    ensures Trim(code) == code
    ensures NormalizeCode(code) == Some(code)
  {
    assert !IsWhitespace(code[0]) && !IsWhitespace(code[7]);
    TrimOfTrimmed(code);
  }

  /** The canonical digits of a canonical code: all but the hyphen. */
  lemma DigitsOfCanonical(code: string)
    requires IsCanonical(code)
    ensures Digits(code) == code[..6] + code[7..]
    ensures Format(Digits(code)) == code
  {
    assert code == code[..6] + ([code[6]] + code[7..]);
    DigitsAppend(code[..6], [code[6]] + code[7..]);
    DigitsAppend([code[6]], code[7..]);
    DigitsOfDigits(code[..6]);
    DigitsOfDigits(code[7..]);
  }

  /** The whole of `normalizeCode` in one statement: a value normalises exactly
      when it holds seven digits, whatever else it holds, and then to those
      digits in canonical form. The early return for an already-canonical
      value agrees with the digit rule. */
  lemma NormalizeByDigits(raw: string)
    ensures |Digits(raw)| == 7 ==> NormalizeCode(raw) == Some(Format(Digits(raw)))
    ensures |Digits(raw)| != 7 ==> NormalizeCode(raw) == None
  {
    var trimmed := Trim(raw);
    DigitsOfTrim(raw);
    if IsCanonical(trimmed) {
      DigitsOfCanonical(trimmed);
    }
  }

  /** Normalising a normalised code changes nothing. */
  lemma NormalizeIdempotent(raw: string)
    requires NormalizeCode(raw).Some?
    ensures NormalizeCode(NormalizeCode(raw).value) == NormalizeCode(raw)
  {
    CanonicalIsFixedPoint(NormalizeCode(raw).value);
  }

  /** Worked cases: a canonical code, seven bare digits, seven digits with
      stray hyphens, too few digits, and the empty string. */
  lemma NormalizeExamples()
    ensures NormalizeCode("123456-7") == Some("123456-7")
    ensures NormalizeCode("1234567") == Some("123456-7")
    ensures NormalizeCode("12-34-567") == Some("123456-7")
    ensures NormalizeCode("12345") == None
    ensures NormalizeCode("") == None
  {
    CanonicalIsFixedPoint("123456-7");
    NormalizeSevenDigitsExample();
    NormalizeHyphenatedExample();
    NormalizeShortExample();
  }

  lemma NormalizeSevenDigitsExample()
    ensures NormalizeCode("1234567") == Some("123456-7")
  {
    TrimOfTrimmed("1234567");
    DigitsOfDigits("1234567");
    assert "1234567"[..6] == "123456" && "1234567"[6..] == "7";
    assert Format("1234567") == "123456-7";
  }

  lemma NormalizeHyphenatedExample()
    ensures NormalizeCode("12-34-567") == Some("123456-7")
  {
    TrimOfTrimmed("12-34-567");
    HyphenatedDigitsExample();
    assert "1234567"[..6] == "123456" && "1234567"[6..] == "7";
    assert Format("1234567") == "123456-7";
  }

  lemma HyphenatedDigitsExample()
    ensures Digits("12-34-567") == "1234567"
  {
    assert "12-34-567" == "12" + "-" + "34" + "-" + "567";
    assert "1234567" == "12" + "34" + "567";
    DigitsAroundHyphens("12", "34", "567");
  }

  /** Hyphens between runs of digits are dropped and nothing else is. */
  lemma DigitsAroundHyphens(a: string, b: string, c: string)
    requires AllDigits(a) && AllDigits(b) && AllDigits(c)
    ensures Digits(a + "-" + b + "-" + c) == a + b + c
  {
    assert Digits("-") == [];
    assert Digits(a + "-") == a by {
      DigitsAppend(a, "-");
      DigitsOfDigits(a);
    }
    assert Digits(a + "-" + b) == a + b by {
      DigitsAppend(a + "-", b);
      DigitsOfDigits(b);
    }
    assert Digits(a + "-" + b + "-") == a + b by {
      DigitsAppend(a + "-" + b, "-");
    }
    DigitsAppend(a + "-" + b + "-", c);
    DigitsOfDigits(c);
  }

  lemma NormalizeShortExample()
    ensures NormalizeCode("12345") == None
  {
    TrimOfTrimmed("12345");
    DigitsOfDigits("12345");
  }

  // ---------------------------------------------------------------------------
  // Normalise-and-keep: `.map(normalizeCode).filter(Boolean)`, and the loop
  // of parseCodesFromText that pushes every non-null normalised token
  // ---------------------------------------------------------------------------

  /** The non-null results of `f` over `raws`, in order. */
  function FilterMap(f: string -> Option<string>, raws: seq<string>): seq<string> {
    if raws == [] then []
    else (match f(raws[0]) case Some(c) => [c] case None => []) + FilterMap(f, raws[1..])
  }

  lemma {:induction false} FilterMapAppend(f: string -> Option<string>, a: seq<string>, b: seq<string>)
    ensures FilterMap(f, a + b) == FilterMap(f, a) + FilterMap(f, b)
  {
    if a == [] {
      assert a + b == b;
    } else {
      assert (a + b)[0] == a[0] && (a + b)[1..] == a[1..] + b;
      FilterMapAppend(f, a[1..], b);
    }
  }

  /** A value is kept exactly when `f` maps some input to it. */
  lemma {:induction false} FilterMapMembers(f: string -> Option<string>, raws: seq<string>, c: string)
    ensures c in FilterMap(f, raws) <==> exists i :: 0 <= i < |raws| && f(raws[i]) == Some(c)
  {
    if raws != [] {
      FilterMapMembers(f, raws[1..], c);
      if exists i :: 0 <= i < |raws| && f(raws[i]) == Some(c) {
        var i :| 0 <= i < |raws| && f(raws[i]) == Some(c);
        if i > 0 {
          assert raws[1..][i - 1] == raws[i];
        }
      }
      if exists i :: 0 <= i < |raws[1..]| && f(raws[1..][i]) == Some(c) {
        var i :| 0 <= i < |raws[1..]| && f(raws[1..][i]) == Some(c);
        assert raws[i + 1] == raws[1..][i];
      }
    }
  }

  /** The non-null normalisations of `raws`, in order. */
  function NormalizeAll(raws: seq<string>): seq<string> {
    FilterMap(NormalizeCode, raws)
  }

  /** Every kept code is canonical, and it is kept exactly when some raw value
      normalises to it. */
  lemma NormalizeAllMembers(raws: seq<string>)
    ensures forall c :: c in NormalizeAll(raws) ==> IsCanonical(c)
    ensures forall c :: c in NormalizeAll(raws) <==> exists i :: 0 <= i < |raws| && NormalizeCode(raws[i]) == Some(c)
  {
    forall c
      ensures c in NormalizeAll(raws) <==> exists i :: 0 <= i < |raws| && NormalizeCode(raws[i]) == Some(c)
    {
      FilterMapMembers(NormalizeCode, raws, c);
    }
  }

  /** Normalising canonical codes again keeps all of them, unchanged. */
  lemma {:induction false} NormalizeAllOfCanonical(codes: seq<string>)
    requires forall c :: c in codes ==> IsCanonical(c)
    ensures NormalizeAll(codes) == codes
  {
    if codes != [] {
      assert codes[0] in codes;
      CanonicalIsFixedPoint(codes[0]);
      NormalizeAllOfCanonical(codes[1..]);
    }
  }

  // ---------------------------------------------------------------------------
  // Tokenising: `String(text).split(/[\s,;]+/g)`
  // ---------------------------------------------------------------------------

  predicate IsSeparator(c: char) {
    IsWhitespace(c) || c == ',' || c == ';'
  }

  predicate NoSeparator(s: string) {
    forall i :: 0 <= i < |s| ==> !IsSeparator(s[i])
  }

  /** `s` without its leading run of separators. */
  function SkipSeparators(s: string): (r: string)
    ensures |r| <= |s|
    ensures r == [] || !IsSeparator(r[0])
  {
    if s != [] && IsSeparator(s[0]) then SkipSeparators(s[1..]) else s
  }

  /** SkipSeparators drops exactly the leading run of separators: what it
      keeps is a suffix of `s`, and everything it drops is a separator. */
  lemma {:induction false} SkipSeparatorsSpec(s: string)
    ensures SkipSeparators(s) == s[|s| - |SkipSeparators(s)|..]
    ensures forall i :: 0 <= i < |s| - |SkipSeparators(s)| ==> IsSeparator(s[i])
  {
    if s != [] && IsSeparator(s[0]) {
      SkipSeparatorsSpec(s[1..]);
    }
  }

  lemma {:induction false} SkipSeparatorsAppend(a: string, t: string)
    ensures SkipSeparators(a + t) == if SkipSeparators(a) == [] then SkipSeparators(t) else SkipSeparators(a) + t
  {
    if a == [] {
      assert a + t == t;
    } else {
      assert (a + t)[0] == a[0] && (a + t)[1..] == a[1..] + t;
      if IsSeparator(a[0]) {
        SkipSeparatorsAppend(a[1..], t);
      }
    }
  }

  /** The pieces of `s`, the first of them starting with `token` already read,
      cut at every maximal run of separators. As with JavaScript's `split`,
      a leading or trailing run yields an empty first or last piece, and the
      empty string yields one empty piece. */
  function SplitFrom(s: string, token: string): seq<string>
    decreases |s|
  {
    if s == [] then [token]
    else if IsSeparator(s[0]) then [token] + SplitFrom(SkipSeparators(s), "")
    else SplitFrom(s[1..], token + [s[0]])
  }

  /** `s.split(/[\s,;]+/g)`: the pieces of `s` cut at every maximal run of
      separators. */
  function Split(s: string): (pieces: seq<string>)
    ensures |pieces| >= 1
    ensures forall i :: 0 <= i < |pieces| ==> NoSeparator(pieces[i])
    ensures s == [] ==> pieces == [""]
    ensures s != [] && IsSeparator(s[0]) ==> pieces[0] == ""
    ensures s != [] && IsSeparator(s[|s| - 1]) ==> pieces[|pieces| - 1] == ""
  {
    SplitFromPieces(s, "");
    SplitFromTrailing(s, "");
    SplitFrom(s, "")
  }

  /** No piece contains a separator, and there is always at least one piece. */
  lemma {:induction false} SplitFromPieces(s: string, token: string)
    requires NoSeparator(token)
    ensures |SplitFrom(s, token)| >= 1
    ensures forall i :: 0 <= i < |SplitFrom(s, token)| ==> NoSeparator(SplitFrom(s, token)[i])
    decreases |s|
  {
    if s != [] {
      if IsSeparator(s[0]) {
        SplitFromPieces(SkipSeparators(s), "");
      } else {
        SplitFromPieces(s[1..], token + [s[0]]);
      }
    }
  }

  /** A trailing run of separators yields an empty last piece. */
  lemma {:induction false} SplitFromTrailing(s: string, token: string)
    ensures |SplitFrom(s, token)| >= 1
    ensures s != [] && IsSeparator(s[|s| - 1]) ==> SplitFrom(s, token)[|SplitFrom(s, token)| - 1] == ""
    decreases |s|
  {
    if s != [] {
      if IsSeparator(s[0]) {
        var r := SkipSeparators(s);
        SplitFromTrailing(r, "");
        var rest := SplitFrom(r, "");
        assert SplitFrom(s, token) == [token] + rest;
        if r != [] && IsSeparator(s[|s| - 1]) {
          SkipSeparatorsSpec(s);
          assert r[|r| - 1] == s[|s| - 1];
        }
      } else {
        SplitFromTrailing(s[1..], token + [s[0]]);
        if IsSeparator(s[|s| - 1]) {
          assert s[1..][|s| - 2] == s[|s| - 1];
        }
      }
    }
  }

  /** A text without separators is one piece, appended to the token already read. */
  lemma {:induction false} SplitFromToken(t: string, token: string)
    requires NoSeparator(t)
    ensures SplitFrom(t, token) == [token + t]
    decreases |t|
  {
    if t == [] {
      assert token + t == token;
    } else {
      SplitFromToken(t[1..], token + [t[0]]);
      assert token + [t[0]] + t[1..] == token + t;
    }
  }

  /** A maximal run of separators ends the piece being read: splitting a
      separator-free `t`, a non-empty run `run` of separators, and a `rest`
      that does not start with a separator gives the piece `token + t`
      followed by the pieces of `rest`. With SplitFromToken this fixes the
      pieces as the maximal separator-free runs of the text, in order. */
  lemma {:induction false} SplitFromRun(t: string, run: string, rest: string, token: string)
    requires NoSeparator(t)
    requires run != [] && forall i :: 0 <= i < |run| ==> IsSeparator(run[i])
    requires rest == [] || !IsSeparator(rest[0])
    ensures SplitFrom(t + run + rest, token) == [token + t] + Split(rest)
    decreases |t|
  {
    var s := t + run + rest;
    if t == [] {
      assert s == run + rest;
      assert SkipSeparators(run) == [] by {
        SkipSeparatorsOfRun(run);
      }
      SkipSeparatorsAppend(run, rest);
      assert token + t == token;
    } else {
      assert s[0] == t[0] && s[1..] == t[1..] + run + rest;
      SplitFromRun(t[1..], run, rest, token + [t[0]]);
      assert token + [t[0]] + t[1..] == token + t;
    }
  }

  lemma {:induction false} SkipSeparatorsOfRun(run: string)
    requires forall i :: 0 <= i < |run| ==> IsSeparator(run[i])
    ensures SkipSeparators(run) == []
  {
    if run != [] {
      SkipSeparatorsOfRun(run[1..]);
    }
  }

  /** Worked case of `split`: a leading and a trailing separator each leave
      an empty piece. */
  lemma SplitEdgesExample()
    ensures Split(",a,") == ["", "a", ""]
  {
    assert ",a," == [] + "," + "a,";
    SplitFromRun([], ",", "a,", "");
    assert "" + [] == "";
    SplitTrailingExample();
    assert [""] + ["a", ""] == ["", "a", ""];
  }

  lemma SplitTrailingExample()
    ensures Split("a,") == ["a", ""]
  {
    assert "a," == "a" + "," + [];
    SplitFromRun("a", ",", [], "");
    assert "" + "a" == "a";
    assert Split([]) == [""];
    assert ["a"] + [""] == ["a", ""];
  }

  /** Worked case of `split`: a mixed run of separators cuts once. */
  lemma SplitRunExample()
    ensures Split("ab ;c") == ["ab", "c"]
  {
    assert "ab ;c" == "ab" + " ;" + "c";
    SplitFromRun("ab", " ;", "c", "");
    SplitFromToken("c", "");
    assert "" + "ab" == "ab" && "" + "c" == "c";
    assert ["ab"] + ["c"] == ["ab", "c"];
  }

  /** Leading separators only contribute an empty piece, which `f` rejects. */
  lemma FilterMapSplitSkip(f: string -> Option<string>, s: string)
    requires f("") == None
    ensures FilterMap(f, Split(SkipSeparators(s))) == FilterMap(f, Split(s))
  {
    if s != [] && IsSeparator(s[0]) {
      var rest := SplitFrom(SkipSeparators(s), "");
      assert Split(s) == [""] + rest;
      FilterMapAppend(f, [""], rest);
    }
  }

  /** Splitting `a`, a separator, then `b` keeps what splitting `a` and `b`
      apart keeps, in that order, for any `f` that rejects the empty piece. */
  lemma {:induction false} FilterMapSplitConcat(f: string -> Option<string>, a: string, c: char, b: string, token: string)
    requires f("") == None && IsSeparator(c)
    ensures FilterMap(f, SplitFrom(a + [c] + b, token)) == FilterMap(f, SplitFrom(a, token)) + FilterMap(f, Split(b))
    decreases |a|, 2
  {
    var s := a + [c] + b;
    if a == [] {
      assert s == [c] + b;
      assert SplitFrom(a, token) == [token];
      SplitConcatEmpty(f, c, b, token);
    } else if !IsSeparator(a[0]) {
      assert s[0] == a[0] && s[1..] == a[1..] + [c] + b;
      assert SplitFrom(s, token) == SplitFrom(a[1..] + [c] + b, token + [a[0]]);
      assert SplitFrom(a, token) == SplitFrom(a[1..], token + [a[0]]);
      FilterMapSplitConcat(f, a[1..], c, b, token + [a[0]]);
    } else {
      SplitConcatRun(f, a, c, b, token);
    }
  }

  /** The case of FilterMapSplitConcat where `a` starts with a separator run. */
  lemma {:induction false} SplitConcatRun(f: string -> Option<string>, a: string, c: char, b: string, token: string)
    requires f("") == None && IsSeparator(c)
    requires a != [] && IsSeparator(a[0])
    ensures FilterMap(f, SplitFrom(a + [c] + b, token)) == FilterMap(f, SplitFrom(a, token)) + FilterMap(f, Split(b))
    decreases |a|, 1
  {
    var s := a + [c] + b;
    var a' := SkipSeparators(a);
    var rest := SplitFrom(SkipSeparators(s), "");
    assert FilterMap(f, SplitFrom(s, token)) == FilterMap(f, [token]) + FilterMap(f, rest) by {
      assert s[0] == a[0];
      assert SplitFrom(s, token) == [token] + rest;
      FilterMapAppend(f, [token], rest);
    }
    assert FilterMap(f, SplitFrom(a, token)) == FilterMap(f, [token]) + FilterMap(f, SplitFrom(a', "")) by {
      assert SplitFrom(a, token) == [token] + SplitFrom(a', "");
      FilterMapAppend(f, [token], SplitFrom(a', ""));
    }
    SplitConcatAfterRun(f, a, c, b);
    AppendAssociative(FilterMap(f, [token]), FilterMap(f, SplitFrom(a', "")), FilterMap(f, Split(b)));
  }

  /** What follows the leading separator run of `a`, then `c`, then `b`. */
  lemma {:induction false} SplitConcatAfterRun(f: string -> Option<string>, a: string, c: char, b: string)
    requires f("") == None && IsSeparator(c)
    requires a != [] && IsSeparator(a[0])
    ensures FilterMap(f, SplitFrom(SkipSeparators(a + [c] + b), ""))
         == FilterMap(f, SplitFrom(SkipSeparators(a), "")) + FilterMap(f, Split(b))
    decreases |a|, 0
  {
    var s := a + [c] + b;
    var a' := SkipSeparators(a);
    assert s == a + ([c] + b);
    SkipSeparatorsAppend(a, [c] + b);
    if a' == [] {
      assert ([c] + b)[1..] == b;
      assert SkipSeparators(s) == SkipSeparators(b);
      FilterMapSplitSkip(f, b);
      assert SplitFrom(a', "") == [""];
      assert FilterMap(f, [""]) == [];
    } else {
      assert SkipSeparators(s) == a' + [c] + b;
      FilterMapSplitConcat(f, a', c, b, "");
    }
  }

  /** The base case of FilterMapSplitConcat: the separator comes first. */
  lemma SplitConcatEmpty(f: string -> Option<string>, c: char, b: string, token: string)
    requires f("") == None && IsSeparator(c)
    ensures FilterMap(f, SplitFrom([c] + b, token)) == FilterMap(f, [token]) + FilterMap(f, Split(b))
  {
    var s := [c] + b;
    assert s[1..] == b;
    assert SkipSeparators(s) == SkipSeparators(b);
    assert SplitFrom(s, token) == [token] + SplitFrom(SkipSeparators(b), "");
    FilterMapAppend(f, [token], SplitFrom(SkipSeparators(b), ""));
    FilterMapSplitSkip(f, b);
  }

  // ---------------------------------------------------------------------------
  // parseCodesFromText / parseCodes
  // ---------------------------------------------------------------------------

  /** What `parseCodesFromText(text)` returns: the non-null normalisations of
      the pieces of `text`, in order; nothing for an absent or empty text. */
  function ParsedCodes(text: string): seq<string> {
    if text == "" then [] else NormalizeAll(Split(text))
  }

  method ParseCodesFromText(text: string) returns (codes: seq<string>)
    ensures codes == ParsedCodes(text)
  {
    if text == "" {
      return [];
    }
    var tokens := Split(text);
    codes := [];
    for i := 0 to |tokens|
      invariant codes == NormalizeAll(tokens[..i])
    {
      var normalized := NormalizeCode(tokens[i]);
      assert tokens[..i + 1] == tokens[..i] + [tokens[i]];
      FilterMapAppend(NormalizeCode, tokens[..i], [tokens[i]]);
      if normalized.Some? {
        codes := codes + [normalized.value];
      }
    }
    assert tokens[..|tokens|] == tokens;
  }

  /** Every parsed code is canonical, and a code is parsed exactly when some
      piece of the text normalises to it. The early return for an empty text
      agrees with splitting it, which yields one empty piece. */
  lemma ParsedCodesMembers(text: string)
    ensures ParsedCodes(text) == NormalizeAll(Split(text))
    ensures forall c :: c in ParsedCodes(text) ==> IsCanonical(c)
    ensures forall c :: c in ParsedCodes(text) <==> exists i :: 0 <= i < |Split(text)| && NormalizeCode(Split(text)[i]) == Some(c)
  {
    if text == "" {
      assert Split(text) == [""];
    }
    NormalizeAllMembers(Split(text));
  }

  /** Parsing two texts joined by a separator gives the codes of the first
      followed by the codes of the second. */
  lemma ParsedCodesConcat(a: string, c: char, b: string)
    requires IsSeparator(c)
    ensures ParsedCodes(a + [c] + b) == ParsedCodes(a) + ParsedCodes(b)
  {
    ParsedCodesMembers(a + [c] + b);
    ParsedCodesMembers(a);
    ParsedCodesMembers(b);
    FilterMapSplitConcat(NormalizeCode, a, c, b, "");
  }

  // ---------------------------------------------------------------------------
  // uniquePreserveOrder
  // ---------------------------------------------------------------------------

  predicate Distinct(s: seq<string>) {
    forall i, j :: 0 <= i < j < |s| ==> s[i] != s[j]
  }

  /** The position of the first occurrence of `x` in `s`, or `|s|` if none. */
  function FirstIndex(s: seq<string>, x: string): (i: nat)
    ensures i <= |s| && x !in s[..i]
    ensures i < |s| ==> s[i] == x
  {
    if s == [] then 0
    else if s[0] == x then 0
    else
      var j := FirstIndex(s[1..], x);
      assert s[..j + 1] == [s[0]] + s[1..][..j];
      1 + j
  }

  /** What `uniquePreserveOrder(items)` returns: each value at its first
      occurrence, later repeats dropped. */
  function Unique(s: seq<string>): seq<string> {
    if s == [] then []
    else
      var prefix, last := s[..|s| - 1], s[|s| - 1];
      if last in prefix then Unique(prefix) else Unique(prefix) + [last]
  }

  method UniquePreserveOrder(items: seq<string>) returns (result: seq<string>)
    ensures result == Unique(items)
  {
    var seen: set<string> := {};
    result := [];
    for i := 0 to |items|
      invariant result == Unique(items[..i])
      invariant forall x :: x in seen <==> x in items[..i]
    {
      var item := items[i];
      assert items[..i + 1][..i] == items[..i] && items[..i + 1][i] == item;
      if item in seen {
        continue;
      }
      seen := seen + {item};
      result := result + [item];
    }
    assert items[..|items|] == items;
  }

  /** The output holds exactly the values of the input. */
  lemma {:induction false} UniqueSameElements(s: seq<string>)
    ensures forall x :: x in Unique(s) <==> x in s
  {
    if s != [] {
      var prefix := s[..|s| - 1];
      assert s == prefix + [s[|s| - 1]];
      UniqueSameElements(prefix);
    }
  }

  /** The output holds no value twice. */
  lemma {:induction false} UniqueDistinct(s: seq<string>)
    ensures Distinct(Unique(s))
  {
    if s != [] {
      var prefix := s[..|s| - 1];
      UniqueDistinct(prefix);
      UniqueSameElements(prefix);
    }
  }

  lemma {:induction false} FirstIndexAppend(p: seq<string>, last: string, y: string)
    ensures y in p ==> FirstIndex(p + [last], y) == FirstIndex(p, y)
    ensures y !in p && y == last ==> FirstIndex(p + [last], y) == |p|
  {
    if p != [] {
      assert (p + [last])[0] == p[0] && (p + [last])[1..] == p[1..] + [last];
      FirstIndexAppend(p[1..], last, y);
      if y in p && p[0] != y {
        assert y in p[1..];
      }
    }
  }

  /** The output lists values in the order of their first occurrences in the input. */
  lemma {:induction false} UniqueFirstOccurrenceOrder(s: seq<string>)
    ensures forall i, j :: 0 <= i < j < |Unique(s)| ==> FirstIndex(s, Unique(s)[i]) < FirstIndex(s, Unique(s)[j]) < |s|
  {
    if s != [] {
      var prefix, last := s[..|s| - 1], s[|s| - 1];
      assert s == prefix + [last];
      var u := Unique(prefix);
      UniqueFirstOccurrenceOrder(prefix);
      UniqueSameElements(prefix);
      forall y | y in u
        ensures FirstIndex(s, y) == FirstIndex(prefix, y) < |prefix|
      {
        FirstIndexAppend(prefix, last, y);
      }
      if last !in prefix {
        FirstIndexAppend(prefix, last, last);
        assert Unique(s) == u + [last];
        forall i, j | 0 <= i < j < |Unique(s)|
          ensures FirstIndex(s, Unique(s)[i]) < FirstIndex(s, Unique(s)[j]) < |s|
        {
          assert Unique(s)[i] == u[i] && u[i] in u;
          if j < |u| {
            assert Unique(s)[j] == u[j] && u[j] in u;
          }
        }
      } else {
        forall i, j | 0 <= i < j < |u|
          ensures FirstIndex(s, u[i]) < FirstIndex(s, u[j]) < |s|
        {
          assert u[i] in u && u[j] in u;
        }
      }
    }
  }

  /** Input without repeats passes through unchanged. */
  lemma {:induction false} UniqueOfDistinct(s: seq<string>)
    requires Distinct(s)
    ensures Unique(s) == s
  {
    if s != [] {
      var prefix := s[..|s| - 1];
      assert s == prefix + [s[|s| - 1]];
      UniqueOfDistinct(prefix);
    }
  }

  /** Deduplicating twice is deduplicating once. */
  lemma UniqueIdempotent(s: seq<string>)
    ensures Unique(Unique(s)) == Unique(s)
  {
    UniqueDistinct(s);
    UniqueOfDistinct(Unique(s));
  }

  lemma UniqueExample()
    ensures Unique(["a", "b", "a", "c", "b"]) == ["a", "b", "c"]
  {
    UniqueExamplePrefix();
    assert Unique(["a", "b", "a", "c"]) == ["a", "b", "c"] by {
      assert ["a", "b", "a", "c"][..3] == ["a", "b", "a"];
    }
    assert ["a", "b", "a", "c", "b"][..4] == ["a", "b", "a", "c"];
  }

  lemma UniqueExamplePrefix()
    ensures Unique(["a", "b", "a"]) == ["a", "b"]
  {
    assert Unique(["a"]) == ["a"] by {
      assert ["a"][..0] == [];
    }
    assert Unique(["a", "b"]) == ["a", "b"] by {
      assert ["a", "b"][..1] == ["a"];
    }
    assert ["a", "b", "a"][..2] == ["a", "b"];
  }
}
