/**
 * The pieces of Python's `str` that the scripts rely on: the whitespace class of
 * `str.isspace()`, `lower()`, `strip()`, `split()` without an argument,
 * `split(sep)` with a one-character separator, and the decimal digits that
 * `re.match(r"[0-9]+", ...)` and `int(...)` read.
 */
module Text {

  /** The characters for which Python's `str.isspace()` holds; `strip()` and `split()` use this class. */
  predicate IsSpace(c: char) {
    || ('\t' <= c <= '\r')
    || ('\U{1C}' <= c <= '\U{1F}')
    || c == ' '
    || c == '\U{85}'
    || c == '\U{A0}'
    || c == '\U{1680}'
    || ('\U{2000}' <= c <= '\U{200A}')
    || c == '\U{2028}'
    || c == '\U{2029}'
    || c == '\U{202F}'
    || c == '\U{205F}'
    || c == '\U{3000}'
  }

  /** The class `[0-9]` of a Python `str` pattern: ASCII digits only. */
  predicate IsDigit(c: char) {
    '0' <= c <= '9'
  }

  /** A string made only of whitespace (the empty string included): `not s.strip()`. */
  predicate IsBlank(s: string) {
    forall i :: 0 <= i < |s| ==> IsSpace(s[i])
  }

  predicate NoSpace(s: string) {
    forall i :: 0 <= i < |s| ==> !IsSpace(s[i])
  }

  predicate AllDigits(s: string) {
    forall i :: 0 <= i < |s| ==> IsDigit(s[i])
  }

  /* ---------------------------------------------------------------- lower */

  /** Lower-casing of one character, for the ASCII letters only; every other character is kept. */
  function LowerChar(c: char): (r: char)
    ensures IsSpace(r) == IsSpace(c)
    ensures IsDigit(r) == IsDigit(c)
    ensures r == 'a' <==> c == 'a' || c == 'A'
    ensures r == 'n' <==> c == 'n' || c == 'N'
    ensures r == 'g' <==> c == 'g' || c == 'G'
  {
    if 'A' <= c <= 'Z' then (c as int + 32) as char else c
  }

  /** `.lower()` as the scripts need it: ASCII letters lowered one by one, the length kept. */
  function Lower(s: string): (r: string)
    ensures |r| == |s|
    ensures forall i :: 0 <= i < |s| ==> r[i] == LowerChar(s[i])
  {
    seq(|s|, i requires 0 <= i < |s| => LowerChar(s[i]))
  }

  lemma LowerConcat(a: string, b: string)
    ensures Lower(a + b) == Lower(a) + Lower(b)
  {
  }

  lemma LowerDigits(ds: string)
    requires AllDigits(ds)
    ensures Lower(ds) == ds
  {
  }

  /** Lower-casing a string leaves exactly the one-letter answers `c` and its capital as `c`. */
  lemma LowerSingle(x: string, c: char, upper: char)
    requires forall d :: LowerChar(d) == c <==> d == c || d == upper
    ensures Lower(x) == [c] <==> x == [c] || x == [upper]
  {
    if |x| == 1 {
      assert Lower(x) == [LowerChar(x[0])];
    }
  }

  /* ---------------------------------------------------------------- strip */

  /** `str.lstrip()`: drops the leading whitespace and keeps the rest. */
  function TrimStart(s: string): (r: string)
    ensures |r| <= |s| && r == s[|s| - |r|..]
    ensures IsBlank(s[..|s| - |r|])
    ensures r != [] ==> !IsSpace(r[0])
    decreases |s|
  {
    if |s| > 0 && IsSpace(s[0]) then
      var r := TrimStart(s[1..]);
      TrimStep(s, r);
      r
    else s
  }

  /** What `lstrip` leaves of `s[1..]`, after a leading space, is what it leaves of `s`. */
  lemma TrimStep(s: string, r: string)
    requires |s| > 0 && IsSpace(s[0]) && |r| < |s|
    requires r == s[1..][|s| - 1 - |r|..] && IsBlank(s[1..][..|s| - 1 - |r|])
    ensures r == s[|s| - |r|..] && IsBlank(s[..|s| - |r|])
  {
    var n := |s| - |r|;
    assert s[1..][n - 1..] == s[n..];
    forall i | 0 <= i < n
      ensures IsSpace(s[i])
    {
      if i > 0 {
        assert s[i] == s[1..][..n - 1][i - 1];
      }
    }
  }

  /** `str.rstrip()`: drops the trailing whitespace and keeps the rest. */
  function TrimEnd(s: string): (r: string)
    ensures |r| <= |s| && r == s[..|r|]
    ensures IsBlank(s[|r|..])
    ensures r != [] ==> !IsSpace(r[|r| - 1])
    decreases |s|
  {
    if |s| > 0 && IsSpace(s[|s| - 1]) then TrimEnd(s[..|s| - 1]) else s
  }

  /**
   * `str.strip()`: the slice of `s` left once the whitespace at both ends is
   * gone. It is empty exactly when `s` is blank, and otherwise begins and
   * ends with a non-space character.
   */
  function Strip(s: string): (r: string)
    ensures r == [] <==> IsBlank(s)
    ensures r != [] ==> !IsSpace(r[0]) && !IsSpace(r[|r| - 1])
  {
    StripBlank(s);
    TrimEnd(TrimStart(s))
  }

  /** Whitespace around a word that begins and ends with non-space is exactly what `strip()` removes. */
  lemma {:induction false} StripPadded(pad: string, x: string, tail: string)
    requires IsBlank(pad) && IsBlank(tail)
    requires x != [] && !IsSpace(x[0]) && !IsSpace(x[|x| - 1])
    ensures Strip(pad + x + tail) == x
  {
    TrimStartBlank(pad, x + tail);
    assert pad + x + tail == pad + (x + tail);
    TrimEndBlank(x, tail);
  }

  lemma {:induction false} TrimStartBlank(pad: string, rest: string)
    requires IsBlank(pad) && rest != [] && !IsSpace(rest[0])
    ensures TrimStart(pad + rest) == rest
    decreases |pad|
  {
    if pad == [] {
      assert pad + rest == rest;
    } else {
      assert (pad + rest)[0] == pad[0];
      assert (pad + rest)[1..] == pad[1..] + rest;
      TrimStartBlank(pad[1..], rest);
    }
  }

  lemma {:induction false} TrimEndBlank(x: string, tail: string)
    requires IsBlank(tail) && x != [] && !IsSpace(x[|x| - 1])
    ensures TrimEnd(x + tail) == x
    decreases |tail|
  {
    if tail == [] {
      assert x + tail == x;
    } else {
      var u := x + tail;
      assert u[|u| - 1] == tail[|tail| - 1];
      assert u[..|u| - 1] == x + tail[..|tail| - 1];
      TrimEndBlank(x, tail[..|tail| - 1]);
    }
  }

  lemma {:induction false} StripBlank(s: string)
    ensures TrimEnd(TrimStart(s)) == [] <==> IsBlank(s)
  {
    var t := TrimStart(s);
    var n := |s| - |t|;
    if TrimEnd(t) == [] {
      assert t[0..] == t;
      BlankConcat(s[..n], t);
      assert s == s[..n] + t;
    } else {
      assert s[n] == t[0];
      NotBlank(s, n);
    }
  }

  lemma NotBlank(s: string, i: nat)
    requires i < |s| && !IsSpace(s[i])
    ensures !IsBlank(s)
  {
  }

  lemma {:induction false} BlankConcat(a: string, b: string)
    requires IsBlank(a) && IsBlank(b)
    ensures IsBlank(a + b)
  {
    forall i | 0 <= i < |a + b|
      ensures IsSpace((a + b)[i])
    {
      if i >= |a| {
        assert (a + b)[i] == b[i - |a|];
      }
    }
  }

  /** Whitespace is left alone by `lower()`, so stripping and lowering commute. */
  lemma {:induction false} StripLower(s: string)
    ensures Strip(Lower(s)) == Lower(Strip(s))
  {
    TrimStartLower(s);
    TrimEndLower(TrimStart(s));
  }

  lemma {:induction false} TrimStartLower(s: string)
    ensures TrimStart(Lower(s)) == Lower(TrimStart(s))
    decreases |s|
  {
    if |s| > 0 && IsSpace(s[0]) {
      assert Lower(s)[1..] == Lower(s[1..]);
      TrimStartLower(s[1..]);
    }
  }

  lemma {:induction false} TrimEndLower(s: string)
    ensures TrimEnd(Lower(s)) == Lower(TrimEnd(s))
    decreases |s|
  {
    if |s| > 0 && IsSpace(s[|s| - 1]) {
      assert Lower(s)[..|s| - 1] == Lower(s[..|s| - 1]);
      TrimEndLower(s[..|s| - 1]);
    }
  }

  /* ---------------------------------------------------------------- split(sep) */

  /** `sep.join(parts)` for a one-character separator. */
  function JoinWith(parts: seq<string>, sep: char): string
    decreases |parts|
  {
    if |parts| == 0 then []
    else if |parts| == 1 then parts[0]
    else parts[0] + [sep] + JoinWith(parts[1..], sep)
  }

  /**
   * `s.split(sep)` for a one-character separator: at least one piece, no piece
   * holds the separator, and joining the pieces back with it gives `s`.
   */
  function SplitOn(s: string, sep: char): (r: seq<string>)
    ensures |r| >= 1
    ensures forall k :: 0 <= k < |r| ==> sep !in r[k]
    ensures JoinWith(r, sep) == s
    decreases |s|
  {
    if |s| == 0 then [[]]
    else
      var rest := SplitOn(s[1..], sep);
      if s[0] == sep then
        assert ([[]] + rest)[1..] == rest;
        [[]] + rest
      else
        var r := [[s[0]] + rest[0]] + rest[1..];
        assert r[1..] == rest[1..];
        assert |rest| > 1 ==> JoinWith(rest, sep) == rest[0] + [sep] + JoinWith(rest[1..], sep);
        r
  }

  /** Index of the first `sep` in `s`, or `|s|` when there is none. */
  function FirstIndex(s: string, sep: char): (i: nat)
    ensures i <= |s| && sep !in s[..i]
    ensures i < |s| ==> s[i] == sep
    decreases |s|
  {
    if |s| == 0 || s[0] == sep then 0 else 1 + FirstIndex(s[1..], sep)
  }

  /** A separator-free prefix followed by the separator ends at the first separator. */
  lemma {:induction false} PrefixBeforeSep(s: string, p: string, sep: char)
    requires |p| < |s| && s[..|p|] == p && s[|p|] == sep && sep !in p
    ensures FirstIndex(s, sep) == |p|
    decreases |p|
  {
    if |p| > 0 {
      assert s[0] == p[0];
      assert s[1..][..|p| - 1] == p[1..];
      PrefixBeforeSep(s[1..], p[1..], sep);
    }
  }

  /** Where the first piece of a join ends, and whether the join holds the separator at all. */
  lemma {:induction false} JoinShape(a: seq<string>, sep: char)
    requires |a| >= 1
    requires forall k :: 0 <= k < |a| ==> sep !in a[k]
    ensures sep in JoinWith(a, sep) <==> |a| > 1
    ensures |a| > 1 ==> FirstIndex(JoinWith(a, sep), sep) == |a[0]|
  {
    var s := JoinWith(a, sep);
    if |a| > 1 {
      assert s[|a[0]|] == sep;
      assert s[..|a[0]|] == a[0];
      PrefixBeforeSep(s, a[0], sep);
    }
  }

  /** The pieces of a separator-free split are determined by the joined text. */
  lemma {:induction false} JoinInjective(a: seq<string>, b: seq<string>, sep: char)
    requires |a| >= 1 && |b| >= 1
    requires forall k :: 0 <= k < |a| ==> sep !in a[k]
    requires forall k :: 0 <= k < |b| ==> sep !in b[k]
    requires JoinWith(a, sep) == JoinWith(b, sep)
    ensures a == b
    decreases |a|
  {
    var s := JoinWith(a, sep);
    JoinShape(a, sep);
    JoinShape(b, sep);
    if |a| > 1 {
      assert a[0] == s[..|a[0]|] == b[0];
      assert JoinWith(a[1..], sep) == s[|a[0]| + 1..] == JoinWith(b[1..], sep);
      JoinInjective(a[1..], b[1..], sep);
      assert a == [a[0]] + a[1..];
      assert b == [b[0]] + b[1..];
    }
  }

  /** Splitting a join of separator-free pieces gives the pieces back. */
  lemma {:induction false} SplitJoin(parts: seq<string>, sep: char)
    requires |parts| >= 1
    requires forall k :: 0 <= k < |parts| ==> sep !in parts[k]
    ensures SplitOn(JoinWith(parts, sep), sep) == parts
  {
    JoinInjective(SplitOn(JoinWith(parts, sep), sep), parts, sep);
  }

  /* ---------------------------------------------------------------- split() */

  /** The longest prefix of `s` without whitespace. */
  function LeadingWord(s: string): (r: string)
    ensures |r| <= |s| && r == s[..|r|] && NoSpace(r)
    ensures |r| < |s| ==> IsSpace(s[|r|])
    decreases |s|
  {
    if |s| > 0 && !IsSpace(s[0]) then [s[0]] + LeadingWord(s[1..]) else []
  }

  /**
   * `s.split()` with no argument: the maximal runs of non-whitespace, in
   * order. Every field is non-empty and whitespace-free, and there are none
   * exactly when `s` is blank.
   */
  function Fields(s: string): (r: seq<string>)
    ensures forall k :: 0 <= k < |r| ==> r[k] != [] && NoSpace(r[k])
    ensures r == [] <==> IsBlank(s)
    decreases |s|
  {
    if s == [] then []
    else if IsSpace(s[0]) then
      BlankCons(s);
      Fields(s[1..])
    else
      var w := LeadingWord(s);
      [w] + Fields(s[|w|..])
  }

  /**
   * `split()` skips the leading whitespace, takes the next maximal run of
   * non-whitespace as a field, and goes on after it. With `Fields` being empty
   * exactly on blank text, this fixes the fields of every string.
   */
  lemma {:induction false} FieldsCons(pad: string, w: string, rest: string)
    requires IsBlank(pad) && w != [] && NoSpace(w)
    requires rest == [] || IsSpace(rest[0])
    ensures Fields(pad + w + rest) == [w] + Fields(rest)
    decreases |pad|
  {
    var s := pad + w + rest;
    if pad == [] {
      assert s == w + rest;
      LeadingWordOf(w, rest);
      assert s[|w|..] == rest;
    } else {
      assert s[0] == pad[0];
      assert s[1..] == pad[1..] + w + rest;
      FieldsCons(pad[1..], w, rest);
    }
  }

  /** Concatenation is associative; the proofs call this where the solver would not regroup on its own. */
  lemma Regroup<T>(x: seq<T>, y: seq<T>, z: seq<T>)
    ensures x + y + z == x + (y + z)
  {
  }

  lemma {:induction false} BlankCons(s: string)
    requires s != [] && IsSpace(s[0])
    ensures IsBlank(s) <==> IsBlank(s[1..])
  {
    if IsBlank(s[1..]) {
      forall i | 1 <= i < |s|
        ensures IsSpace(s[i])
      {
        assert s[i] == s[1..][i - 1];
      }
    }
  }

  /** Splitting a space-joined list of non-empty, whitespace-free words gives the words back. */
  lemma {:induction false} FieldsOfWords(words: seq<string>)
    requires forall k :: 0 <= k < |words| ==> words[k] != [] && NoSpace(words[k])
    ensures Fields(JoinWith(words, ' ')) == words
    decreases |words|
  {
    if |words| == 1 {
      FieldsCons([], words[0], []);
      assert [] + words[0] + [] == JoinWith(words, ' ');
    } else if |words| > 1 {
      var w := words[0];
      var rest := JoinWith(words[1..], ' ');
      assert JoinWith(words, ' ') == [] + w + ([' '] + rest);
      FieldsCons([], w, [' '] + rest);
      FieldsAfterSpace(rest);
      FieldsOfWords(words[1..]);
      assert words == [w] + words[1..];
    }
  }

  /** A leading space is no field. */
  lemma FieldsAfterSpace(rest: string)
    ensures Fields([' '] + rest) == Fields(rest)
  {
    assert ([' '] + rest)[1..] == rest;
  }

  lemma {:induction false} LeadingWordOf(w: string, tail: string)
    requires NoSpace(w)
    requires tail == [] || IsSpace(tail[0])
    ensures LeadingWord(w + tail) == w
    decreases |w|
  {
    if w != [] {
      assert (w + tail)[1..] == w[1..] + tail;
      LeadingWordOf(w[1..], tail);
    } else {
      assert w + tail == tail;
    }
  }

  /* ---------------------------------------------------------------- digits */

  /**
   * The text `re.match(r"[0-9]+", s)` matches at the start of `s`, or the
   * empty string when there is no match: the longest all-digit prefix.
   */
  function LeadingDigits(s: string): (r: string)
    ensures |r| <= |s| && r == s[..|r|] && AllDigits(r)
    ensures |r| < |s| ==> !IsDigit(s[|r|])
    decreases |s|
  {
    if |s| > 0 && IsDigit(s[0]) then [s[0]] + LeadingDigits(s[1..]) else []
  }

  /** The digit run of a numeral followed by anything but a digit is the numeral itself. */
  lemma {:induction false} LeadingDigitsOf(ds: string, rest: string)
    requires AllDigits(ds)
    requires rest == [] || !IsDigit(rest[0])
    ensures LeadingDigits(ds + rest) == ds
    decreases |ds|
  {
    if ds != [] {
      assert (ds + rest)[1..] == ds[1..] + rest;
      LeadingDigitsOf(ds[1..], rest);
    } else {
      assert ds + rest == rest;
    }
  }

  /** `lower()` leaves the leading digit run alone: digits have no case, and no letter lowers to a digit. */
  lemma LowerLeadingDigits(s: string)
    ensures LeadingDigits(Lower(s)) == LeadingDigits(s)
  {
    var ds := LeadingDigits(s);
    var rest := s[|ds|..];
    assert s == ds + rest;
    LowerConcat(ds, rest);
    LowerDigits(ds);
    LeadingDigitsOf(ds, Lower(rest));
  }

  function DigitValue(c: char): nat
    requires IsDigit(c)
  {
    c as int - '0' as int
  }

  /** `int(ds)` for a string of ASCII digits, leading zeros allowed. */
  function DecimalValue(ds: string): nat
    requires AllDigits(ds)
    decreases |ds|
  {
    if ds == [] then 0 else DecimalValue(ds[..|ds| - 1]) * 10 + DigitValue(ds[|ds| - 1])
  }

  /** Leading zeros do not change the value `int` reads. */
  lemma {:induction false} ZerosValue(zeros: string, ds: string)
    requires forall i :: 0 <= i < |zeros| ==> zeros[i] == '0'
    requires AllDigits(ds)
    ensures AllDigits(zeros + ds) && DecimalValue(zeros + ds) == DecimalValue(ds)
    decreases |ds|
  {
    var u := zeros + ds;
    if ds == [] {
      assert u == zeros;
      ZerosZero(zeros);
    } else {
      assert u[..|u| - 1] == zeros + ds[..|ds| - 1];
      assert u[|u| - 1] == ds[|ds| - 1];
      ZerosValue(zeros, ds[..|ds| - 1]);
    }
  }

  lemma {:induction false} ZerosZero(zeros: string)
    requires forall i :: 0 <= i < |zeros| ==> zeros[i] == '0'
    ensures AllDigits(zeros) && DecimalValue(zeros) == 0
    decreases |zeros|
  {
    if zeros != [] {
      ZerosZero(zeros[..|zeros| - 1]);
    }
  }

  function DigitChar(d: nat): (c: char)
    requires d < 10
    ensures IsDigit(c) && DigitValue(c) == d
  {
    ('0' as int + d) as char
  }

  /**
   * `str(n)`: the decimal numeral of `n` without leading zeros, as the
   * selector prints row numbers. Reading it back with `int` gives `n`.
   */
  function Decimal(n: nat): (r: string)
    ensures r != [] && AllDigits(r)
    ensures DecimalValue(r) == n
    ensures |r| > 1 ==> r[0] != '0'
    decreases n
  {
    if n < 10 then [DigitChar(n)]
    else
      var r := Decimal(n / 10) + [DigitChar(n % 10)];
      assert r[..|r| - 1] == Decimal(n / 10);
      r
  }
}
