/**
 * The Python string primitives the application relies on: `in` on strings,
 * `lower`, `strip`, `rstrip(chars)`, `split(sep)`, `sep.join`, `int(text)`
 * and `str(n)`, each stated over `seq<char>`.
 */
module PyStr {
  import opened Common

  /** The characters for which Python's `str.isspace` holds: what `strip()`
      removes when given no argument. */
  const WHITESPACE: set<char> := {
    '\t', '\n', '\U{B}', '\U{C}', '\r', '\U{1C}', '\U{1D}', '\U{1E}', '\U{1F}', ' ',
    '\U{85}', '\U{A0}', '\U{1680}',
    '\U{2000}', '\U{2001}', '\U{2002}', '\U{2003}', '\U{2004}', '\U{2005}',
    '\U{2006}', '\U{2007}', '\U{2008}', '\U{2009}', '\U{200A}',
    '\U{2028}', '\U{2029}', '\U{202F}', '\U{205F}', '\U{3000}'
  }

  predicate IsSpace(c: char) { c in WHITESPACE }

  /**
   * The characters `int(text)` ignores around a number. CPython first turns
   * every non-ASCII space into `' '`, then skips only the ASCII spaces
   * `' '`, tab, newline, vertical tab, form feed and carriage return; the
   * four ASCII separators U+001C to U+001F, which `strip()` removes, make
   * `int` raise.
   */
  const INT_WHITESPACE: set<char> := {
    '\t', '\n', '\U{B}', '\U{C}', '\r', ' ',
    '\U{85}', '\U{A0}', '\U{1680}',
    '\U{2000}', '\U{2001}', '\U{2002}', '\U{2003}', '\U{2004}', '\U{2005}',
    '\U{2006}', '\U{2007}', '\U{2008}', '\U{2009}', '\U{200A}',
    '\U{2028}', '\U{2029}', '\U{202F}', '\U{205F}', '\U{3000}'
  }

  predicate IsIntSpace(c: char) { c in INT_WHITESPACE }

  predicate IsDigit(c: char) { '0' <= c <= '9' }

  /** `str.isalnum` restricted to ASCII letters and digits. */
  predicate IsAlnum(c: char) { IsDigit(c) || 'a' <= c <= 'z' || 'A' <= c <= 'Z' }

  /** `str.lower` restricted to the ASCII letters. */
  function LowerChar(c: char): char {
    if 'A' <= c <= 'Z' then (c as int + 32) as char else c
  }

  function Lower(s: string): string {
    seq(|s|, i requires 0 <= i < |s| => LowerChar(s[i]))
  }

  /** Text without an ASCII capital is its own lower case. */
  lemma LowerWithoutCapitals(s: string)
    requires forall i :: 0 <= i < |s| ==> !('A' <= s[i] <= 'Z')
    ensures Lower(s) == s
  {
  }

  /** `needle` occurs in `hay` starting at index `i`. */
  predicate OccursAt(needle: string, hay: string, i: int) {
    0 <= i <= |hay| - |needle| && hay[i..i + |needle|] == needle
  }

  /** Python's `s.endswith(suffix)`. */
  predicate EndsWith(s: string, suffix: string) {
    |suffix| <= |s| && s[|s| - |suffix|..] == suffix
  }

  /** Python's `needle in hay` for two strings. */
  predicate IsSubstring(needle: string, hay: string) {
    exists i :: 0 <= i <= |hay| - |needle| && OccursAt(needle, hay, i)
  }

  /** Being a substring is transitive. */
  lemma SubstringTransitive(a: string, b: string, c: string)
    requires IsSubstring(a, b) && IsSubstring(b, c)
    ensures IsSubstring(a, c)
  {
    var j :| 0 <= j <= |b| - |a| && OccursAt(a, b, j);
    var i :| 0 <= i <= |c| - |b| && OccursAt(b, c, i);
    assert b[j..j + |a|] == a && c[i..i + |b|] == b;
    assert forall k :: 0 <= k < |b| ==> c[i + k] == b[k];
    assert c[i + j..i + j + |a|] == b[j..j + |a|];
    assert OccursAt(a, c, i + j);
  }

  /** Every character of a substring occurs in the text. */
  lemma SubstringChars(needle: string, hay: string, c: char)
    requires IsSubstring(needle, hay) && c in needle
    ensures c in hay
  {
    var i :| 0 <= i <= |hay| - |needle| && OccursAt(needle, hay, i);
    var k :| 0 <= k < |needle| && needle[k] == c;
    assert hay[i..i + |needle|][k] == hay[i + k];
  }

  /** Python's `s.lstrip(chars)`: the leading characters in `chars` dropped. */
  function TrimLeft(s: string, chars: set<char>): string {
    if s != [] && s[0] in chars then TrimLeft(s[1..], chars) else s
  }

  /** `lstrip` leaves a suffix of its input: everything it dropped is in
      `chars`, and what it kept does not start with one. */
  lemma {:induction false} TrimLeftSuffix(s: string, chars: set<char>)
    ensures var r := TrimLeft(s, chars);
      |r| <= |s| && r == s[|s| - |r|..]
      && (forall i :: 0 <= i < |s| - |r| ==> s[i] in chars)
      && (r != [] ==> r[0] !in chars)
  {
    if s != [] && s[0] in chars {
      var t := s[1..];
      TrimLeftSuffix(t, chars);
      assert forall i :: 1 <= i < |s| ==> s[i] == t[i - 1];
    }
  }

  /** Python's `s.rstrip(chars)`: the trailing characters in `chars` dropped. */
  function TrimRight(s: string, chars: set<char>): string {
    if s != [] && s[|s| - 1] in chars then TrimRight(s[..|s| - 1], chars) else s
  }

  /** `rstrip` leaves a prefix of its input: everything it dropped is in
      `chars`, and what it kept does not end with one. */
  lemma {:induction false} TrimRightPrefix(s: string, chars: set<char>)
    ensures var r := TrimRight(s, chars);
      |r| <= |s| && r == s[..|r|]
      && (forall i :: |r| <= i < |s| ==> s[i] in chars)
      && (r != [] ==> r[|r| - 1] !in chars)
  {
    if s != [] && s[|s| - 1] in chars {
      TrimRightPrefix(s[..|s| - 1], chars);
    }
  }

  /** Python's `s.strip()`: whitespace removed from both ends. */
  function Strip(s: string): string {
    TrimRight(TrimLeft(s, WHITESPACE), WHITESPACE)
  }

  /** `Strip` gives a slice of its input with every removed character a space
      and no space at either end. */
  lemma StripIsSlice(s: string)
    ensures var r := Strip(s); var a := |s| - |TrimLeft(s, WHITESPACE)|;
      0 <= a <= |s| - |r| && r == s[a..a + |r|]
        && (forall i :: 0 <= i < a ==> IsSpace(s[i]))
        && (forall i :: a + |r| <= i < |s| ==> IsSpace(s[i]))
    ensures Strip(s) != [] ==> !IsSpace(Strip(s)[0]) && !IsSpace(Strip(s)[|Strip(s)| - 1])
  {
    var l := TrimLeft(s, WHITESPACE);
    var r := TrimRight(l, WHITESPACE);
    TrimLeftSuffix(s, WHITESPACE);
    TrimRightPrefix(l, WHITESPACE);
    var a := |s| - |l|;
    assert l == s[a..];
    assert r == l[..|r|] == s[a..a + |r|];
    assert forall i :: a + |r| <= i < |s| ==> s[i] == l[i - a];
  }

  /** A string with no space at either end is left alone by `Strip`. */
  lemma StripKeepsTrimmed(s: string)
    requires s == [] || (!IsSpace(s[0]) && !IsSpace(s[|s| - 1]))
    ensures Strip(s) == s
  {
  }

  /** What `int(text)` ignores: the spaces of `INT_WHITESPACE` at both ends. */
  function IntStrip(s: string): string {
    TrimRight(TrimLeft(s, INT_WHITESPACE), INT_WHITESPACE)
  }

  /** A string with no `int` space at either end is left alone by `IntStrip`. */
  lemma IntStripKeepsTrimmed(s: string)
    requires s == [] || (!IsIntSpace(s[0]) && !IsIntSpace(s[|s| - 1]))
    ensures IntStrip(s) == s
  {
  }

  /** `Strip` is idempotent. */
  lemma StripIdempotent(s: string)
    ensures Strip(Strip(s)) == Strip(s)
  {
    StripIsSlice(s);
    StripKeepsTrimmed(Strip(s));
  }

  /** `sep.join(parts)`. */
  function Join(parts: seq<string>, sep: string): string {
    if |parts| == 0 then ""
    else if |parts| == 1 then parts[0]
    else parts[0] + sep + Join(parts[1..], sep)
  }

  /** Joining all but the last part, then the separator, then the last part. */
  lemma {:induction false} JoinLast(parts: seq<string>, sep: string)
    requires |parts| >= 2
    ensures Join(parts, sep) == Join(parts[..|parts| - 1], sep) + sep + parts[|parts| - 1]
  {
    if |parts| > 2 {
      JoinLast(parts[1..], sep);
      assert parts[1..][..|parts| - 2] == parts[..|parts| - 1][1..];
    }
  }

  /**
   * Python's `s.split(sep)` for a one-character separator: the pieces between
   * the separators, always at least one, none holding `sep`, and joined back
   * with `sep` they give `s` again.
   */
  function Split(s: string, sep: char): (r: seq<string>)
    ensures |r| >= 1
    ensures forall k :: 0 <= k < |r| ==> sep !in r[k]
    ensures Join(r, [sep]) == s
  {
    if s == [] then [""]
    else
      var rest := Split(s[1..], sep);
      if s[0] == sep then
        var r := [""] + rest;
        assert r[1..] == rest;
        r
      else
        var r := [[s[0]] + rest[0]] + rest[1..];
        assert r[1..] == rest[1..];
        assert |rest| > 1 ==> Join(rest, [sep]) == rest[0] + [sep] + Join(rest[1..], [sep]);
        r
  }

  /** Splitting at one occurrence of the separator splits the text in two. */
  lemma {:induction false} SplitConcat(a: string, b: string, sep: char)
    ensures Split(a + [sep] + b, sep) == Split(a, sep) + Split(b, sep)
  {
    if a == [] {
      assert a + [sep] + b == [sep] + b;
      assert ([sep] + b)[1..] == b;
    } else {
      var s := a + [sep] + b;
      assert s[0] == a[0] && s[1..] == a[1..] + [sep] + b;
      SplitConcat(a[1..], b, sep);
    }
  }

  /** `s.split(sep)[0]`: the text before the first separator, or all of `s`. */
  function FirstPiece(s: string, sep: char): (r: string)
    ensures sep !in r && r <= s
    ensures sep in s <==> |r| < |s|
    ensures |r| < |s| ==> s[|r|] == sep
  {
    var parts := Split(s, sep);
    assert |parts| > 1 ==> s == parts[0] + [sep] + Join(parts[1..], [sep]);
    assert |parts| == 1 ==> s == parts[0];
    parts[0]
  }

  /** `s.split(sep)[-1]`: the text after the last separator, or all of `s`. */
  function LastPiece(s: string, sep: char): (r: string)
    ensures |r| <= |s| && sep !in r && r == s[|s| - |r|..]
    ensures sep in s <==> |r| < |s|
    ensures |r| < |s| ==> s[|s| - |r| - 1] == sep
  {
    var parts := Split(s, sep);
    var r := parts[|parts| - 1];
    if |parts| > 1 then
      JoinLast(parts, [sep]);
      assert s == Join(parts[..|parts| - 1], [sep]) + [sep] + r;
      assert s[|s| - |r|..] == r;
      r
    else
      r
  }

  /* ----- int(text) and str(n) ----- */

  function DigitChar(d: nat): char
    requires d < 10
  {
    ('0' as int + d) as char
  }

  function DigitOf(c: char): nat
    requires IsDigit(c)
  {
    c as int - '0' as int
  }

  /** The body of a Python integer literal: digits, with single underscores
      allowed between two digits (`1_000`). */
  predicate WellFormedDigits(b: string) {
    |b| > 0 && IsDigit(b[0])
    && forall i :: 0 <= i < |b| ==> DigitOrSeparator(b, i)
  }

  /** Position `i` of `b` holds a digit, or an underscore followed by one. */
  predicate DigitOrSeparator(b: string, i: nat)
    requires i < |b|
  {
    IsDigit(b[i]) || (b[i] == '_' && i + 1 < |b| && IsDigit(b[i + 1]))
  }

  /** The decimal value of the digits of `b`, underscores ignored. */
  function DigitsValue(b: string): nat {
    if b == [] then 0
    else if IsDigit(b[|b| - 1]) then 10 * DigitsValue(b[..|b| - 1]) + DigitOf(b[|b| - 1])
    else DigitsValue(b[..|b| - 1])
  }

  /** CPython's default `sys.get_int_max_str_digits()`: `int` refuses decimal
      text with more digits than this. */
  const MAX_STR_DIGITS: nat := 4300

  /** The number of digits of `b`, underscores not counted. */
  function DigitCount(b: string): nat {
    if b == [] then 0
    else DigitCount(b[..|b| - 1]) + (if IsDigit(b[|b| - 1]) then 1 else 0)
  }

  /** Digits within CPython's limit on their number. */
  predicate Parsable(b: string) {
    WellFormedDigits(b) && DigitCount(b) <= MAX_STR_DIGITS
  }

  /**
   * Python's `int(text)` for base 10: the spaces of `INT_WHITESPACE` around
   * the number are ignored, a single `+` or `-` may lead, and the rest must
   * be well-formed ASCII digits, at most `MAX_STR_DIGITS` of them. `None`
   * stands for the `ValueError` Python raises.
   */
  function ParseInt(text: string): (r: Option<int>)
    ensures r.Some? ==> IntStrip(text) != ""
  {
    ParseSigned(IntStrip(text))
  }

  /** `int` on text that has no surrounding whitespace. */
  function ParseSigned(t: string): Option<int> {
    if |t| > 0 && (t[0] == '+' || t[0] == '-') then
      if Parsable(t[1..]) then
        var magnitude: int := DigitsValue(t[1..]);
        Some(if t[0] == '-' then -magnitude else magnitude)
      else None
    else if Parsable(t) then Some(DigitsValue(t))
    else None
  }

  /** The decimal digits of a natural number, most significant first. */
  function NatToString(n: nat): (r: string)
    ensures |r| > 0 && forall i :: 0 <= i < |r| ==> IsDigit(r[i])
    ensures DigitsValue(r) == n
  {
    if n < 10 then [DigitChar(n)]
    else
      var r := NatToString(n / 10) + [DigitChar(n % 10)];
      assert r[..|r| - 1] == NatToString(n / 10);
      r
  }

  /** Python's `str(n)` for an integer. */
  function IntToString(n: int): string {
    if n < 0 then "-" + NatToString(-n) else NatToString(n)
  }

  predicate AllDigits(d: string) {
    |d| > 0 && forall i :: 0 <= i < |d| ==> IsDigit(d[i])
  }

  lemma DigitNotSpace(c: char)
    requires IsDigit(c)
    ensures !IsSpace(c) && !IsIntSpace(c)
  {
  }

  /** A run of digits has as many digits as characters. */
  lemma {:induction false} AllDigitsCount(d: string)
    requires forall i :: 0 <= i < |d| ==> IsDigit(d[i])
    ensures DigitCount(d) == |d|
  {
    if d != [] {
      AllDigitsCount(d[..|d| - 1]);
    }
  }

  lemma ParseSignedDigits(d: string)
    requires AllDigits(d) && |d| <= MAX_STR_DIGITS
    ensures ParseSigned(d) == Some(DigitsValue(d) as int)
    ensures ParseSigned("-" + d) == Some(-(DigitsValue(d) as int))
  {
    AllDigitsCount(d);
    assert WellFormedDigits(d);
    assert ("-" + d)[1..] == d;
  }

  lemma ParseTrimmed(t: string)
    requires IntStrip(t) == t
    ensures ParseInt(t) == ParseSigned(t)
  {
  }

  /** A run of digits, with or without a leading minus, has no `int` space
      to drop. */
  lemma DigitsTrimmed(d: string)
    requires AllDigits(d)
    ensures IntStrip(d) == d && IntStrip("-" + d) == "-" + d
  {
    var m := "-" + d;
    assert m[0] == '-' && m[|m| - 1] == d[|d| - 1];
    DigitNotSpace(d[0]);
    DigitNotSpace(d[|d| - 1]);
    assert !IsIntSpace('-');
    IntStripKeepsTrimmed(d);
    IntStripKeepsTrimmed(m);
  }

  /** A run of at most `MAX_STR_DIGITS` digits, with or without a leading
      minus, parses to its value. */
  lemma ParseDigits(d: string)
    requires AllDigits(d) && |d| <= MAX_STR_DIGITS
    ensures ParseInt(d) == Some(DigitsValue(d) as int)
    ensures ParseInt("-" + d) == Some(-(DigitsValue(d) as int))
  {
    DigitsTrimmed(d);
    ParseTrimmed(d);
    ParseTrimmed("-" + d);
    ParseSignedDigits(d);
  }

  /** Text that is a run of digits once `int`'s spaces are dropped parses
      exactly when the run has at most `MAX_STR_DIGITS` digits. */
  lemma DigitLimit(text: string)
    requires AllDigits(IntStrip(text))
    ensures ParseInt(text).Some? <==> |IntStrip(text)| <= MAX_STR_DIGITS
  {
    AllDigitsCount(IntStrip(text));
  }

  /** A run of more than `MAX_STR_DIGITS` digits is refused with a `ValueError`. */
  lemma TooManyDigits(d: string)
    requires AllDigits(d) && |d| > MAX_STR_DIGITS
    ensures ParseInt(d) == None
  {
    DigitNotSpace(d[0]);
    DigitNotSpace(d[|d| - 1]);
    IntStripKeepsTrimmed(d);
    AllDigitsCount(d);
  }

  /** `strip()` removes a trailing U+001C, but `int` refuses it:
      `int('500\x1c')` raises. */
  lemma SeparatorNotSkipped()
    ensures Strip("500" + ['\U{1C}']) == "500"
    ensures ParseInt("500" + ['\U{1C}']) == None
  {
    var t := "500" + ['\U{1C}'];
    assert t[..3] == "500";
    assert TrimLeft(t, WHITESPACE) == t;
    assert TrimRight(t, WHITESPACE) == TrimRight("500", WHITESPACE) == "500";
    IntStripKeepsTrimmed(t);
    assert t[0] == '5' && t[3] == '\U{1C}' && |t| == 4;
    assert !DigitOrSeparator(t, 3);
    assert ParseInt(t) == ParseSigned(t);
  }

  /** The magnitude of `n` as a natural number. */
  function Magnitude(n: int): nat {
    if n < 0 then -n else n
  }

  /** `int(str(n)) == n` whenever `str(n)` has no more digits than `int` accepts. */
  lemma IntRoundTrip(n: int)
    requires |NatToString(Magnitude(n))| <= MAX_STR_DIGITS
    ensures ParseInt(IntToString(n)) == Some(n)
  {
    ParseDigits(NatToString(Magnitude(n)));
  }

  /** Distinct integers print differently. */
  lemma IntToStringInjective(m: int, n: int)
    requires IntToString(m) == IntToString(n)
    ensures m == n
  {
    var a, b := NatToString(Magnitude(m)), NatToString(Magnitude(n));
    assert IntToString(m)[0] == '-' <==> m < 0;
    assert IntToString(n)[0] == '-' <==> n < 0;
    if m < 0 && n < 0 {
      assert a == IntToString(m)[1..] && b == IntToString(n)[1..];
    }
    assert DigitsValue(a) == Magnitude(m) && DigitsValue(b) == Magnitude(n);
  }
}
