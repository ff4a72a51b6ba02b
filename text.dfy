/**
 * The handful of Python `str` operations both services rely on, over `seq<char>`:
 * `isspace` (which is also what `\s` matches in a `str` regular expression, what
 * `split()` splits on and what `strip()` removes), `isdigit`, `strip`, `split()`,
 * `split(sep)`, `replace`, `startswith`/`endswith`, the `in` test and decimal
 * formatting of a non-negative integer in an f-string.
 */
module Text {

  /** Python's `str.isspace` on one character (`Py_UNICODE_ISSPACE`). */
  predicate IsSpace(c: char) {
    ('\t' <= c <= '\r') || ('\U{1C}' <= c <= '\U{1F}') || c == ' ' ||
    c == '\U{85}' || c == '\U{A0}' || c == '\U{1680}' ||
    ('\U{2000}' <= c <= '\U{200A}') || c == '\U{2028}' || c == '\U{2029}' ||
    c == '\U{202F}' || c == '\U{205F}' || c == '\U{3000}'
  }

  predicate IsDigit(c: char) {
    '0' <= c <= '9'
  }

  /** Python's `s.isdigit()`, restricted to ASCII digits. */
  predicate IsDigits(s: string) {
    |s| > 0 && forall i :: 0 <= i < |s| ==> IsDigit(s[i])
  }

  predicate AllSpace(s: string) {
    forall i :: 0 <= i < |s| ==> IsSpace(s[i])
  }

  // ---------------------------------------------------------------------------
  // strip()

  function StripLeft(s: string): (r: string)
    ensures |r| <= |s| && r == s[|s| - |r|..]
    ensures r != [] ==> !IsSpace(r[0])
    decreases |s|
  {
    if s != [] && IsSpace(s[0]) then StripLeft(s[1..]) else s
  }

  function StripRight(s: string): (r: string)
    ensures |r| <= |s| && r == s[..|r|]
    ensures r != [] ==> !IsSpace(r[|r| - 1])
    decreases |s|
  {
    if s != [] && IsSpace(s[|s| - 1]) then StripRight(s[..|s| - 1]) else s
  }

  /** What `StripLeft` removes is all white space. */
  lemma {:induction false} StripLeftRemovesSpace(s: string)
    ensures forall i :: 0 <= i < |s| - |StripLeft(s)| ==> IsSpace(s[i])
    decreases |s|
  {
    if s != [] && IsSpace(s[0]) {
      StripLeftRemovesSpace(s[1..]);
      forall i | 0 < i < |s| - |StripLeft(s)| ensures IsSpace(s[i]) {
        assert s[i] == s[1..][i - 1];
      }
    }
  }

  /** What `StripRight` removes is all white space. */
  lemma {:induction false} StripRightRemovesSpace(s: string)
    ensures forall i :: |StripRight(s)| <= i < |s| ==> IsSpace(s[i])
    decreases |s|
  {
    if s != [] && IsSpace(s[|s| - 1]) {
      StripRightRemovesSpace(s[..|s| - 1]);
      forall i | |StripRight(s)| <= i < |s| - 1 ensures IsSpace(s[i]) {
        assert s[i] == s[..|s| - 1][i];
      }
    }
  }

  /** Python's `s.strip()`: the longest infix with no leading or trailing white space. */
  function Strip(s: string): (r: string)
    ensures |r| <= |s|
    ensures r != [] ==> !IsSpace(r[0]) && !IsSpace(r[|r| - 1])
    ensures r == [] <==> AllSpace(s)
  {
    var right := StripRight(s);
    var r := StripLeft(right);
    assert r == [] ==> AllSpace(s) by {
      if r == [] {
        StripRightRemovesSpace(s);
        assert right == [] by { StripLeftRemovesSpace(right); }
      }
    }
    assert r != [] ==> !AllSpace(s) by {
      if r != [] {
        assert r[0] == s[|right| - |r|];
      }
    }
    r
  }

  /** `strip()` leaves text alone that neither starts nor ends with white space. */
  lemma StripUnchanged(s: string)
    requires s != [] ==> !IsSpace(s[0]) && !IsSpace(s[|s| - 1])
    ensures Strip(s) == s
  {
    assert StripRight(s) == s;
    assert StripLeft(s) == s;
  }

  /** So stripping twice is stripping once. */
  lemma StripIdempotent(s: string)
    ensures Strip(Strip(s)) == Strip(s)
  {
    StripUnchanged(Strip(s));
  }

  // ---------------------------------------------------------------------------
  // split() with no argument, and the shape of normalised text

  /** Length of the leading run of non-white-space characters. */
  function WordLen(s: string): (n: nat)
    ensures n <= |s|
    ensures forall i :: 0 <= i < n ==> !IsSpace(s[i])
    ensures n < |s| ==> IsSpace(s[n])
    decreases |s|
  {
    if s != [] && !IsSpace(s[0]) then 1 + WordLen(s[1..]) else 0
  }

  /** Python's `s.split()`: the maximal runs of non-white-space characters, in order. */
  function Words(s: string): (ws: seq<string>)
    ensures forall k :: 0 <= k < |ws| ==> |ws[k]| > 0 && !HasSpace(ws[k])
    decreases |s|
  {
    if s == [] then []
    else if IsSpace(s[0]) then Words(s[1..])
    else
      var n := WordLen(s);
      [s[..n]] + Words(s[n..])
  }

  predicate HasSpace(s: string) {
    exists i :: 0 <= i < |s| && IsSpace(s[i])
  }

  /** Number of white-space characters in `s`. */
  function SpaceCount(s: string): nat
    decreases |s|
  {
    if s == [] then 0 else (if IsSpace(s[0]) then 1 else 0) + SpaceCount(s[1..])
  }

  predicate NoAdjacentSpaces(s: string) {
    forall i :: 0 < i < |s| ==> !(IsSpace(s[i - 1]) && IsSpace(s[i]))
  }

  /** Single-spaced and stripped: what the sanitiser produces. */
  predicate Normalized(s: string) {
    NoAdjacentSpaces(s) && (s != [] ==> !IsSpace(s[0]) && !IsSpace(s[|s| - 1]))
  }

  /** `len(s.split())` is zero exactly when `s` is empty or all white space. */
  lemma {:induction false} WordsEmptyIff(s: string)
    ensures |Words(s)| == 0 <==> AllSpace(s)
    decreases |s|
  {
    if s != [] {
      if IsSpace(s[0]) {
        WordsEmptyIff(s[1..]);
        assert AllSpace(s) <==> AllSpace(s[1..]) by {
          if AllSpace(s[1..]) {
            forall i | 0 <= i < |s| ensures IsSpace(s[i]) {
              if i > 0 { assert s[i] == s[1..][i - 1]; }
            }
          }
        }
      } else {
        assert !AllSpace(s);
      }
    }
  }

  lemma {:induction false} SpaceCountAppend(a: string, b: string)
    ensures SpaceCount(a + b) == SpaceCount(a) + SpaceCount(b)
    decreases |a|
  {
    if a != [] {
      assert (a + b)[1..] == a[1..] + b;
      SpaceCountAppend(a[1..], b);
    } else {
      assert a + b == b;
    }
  }

  lemma {:induction false} SpaceCountNone(s: string)
    requires !HasSpace(s)
    ensures SpaceCount(s) == 0
    decreases |s|
  {
    if s != [] {
      assert !HasSpace(s[1..]);
      SpaceCountNone(s[1..]);
    }
  }

  /**
   * On single-spaced, stripped, non-empty text the word count is one more than
   * the number of spaces: every space separates two words.
   */
  lemma {:induction false} WordCountOfNormalized(s: string)
    requires Normalized(s) && s != []
    ensures |Words(s)| == SpaceCount(s) + 1
    decreases |s|
  {
    var n := WordLen(s);
    assert n >= 1;
    assert !HasSpace(s[..n]);
    SpaceCountNone(s[..n]);
    assert s == s[..n] + s[n..];
    SpaceCountAppend(s[..n], s[n..]);
    if n < |s| {
      assert IsSpace(s[n]);
      assert n + 1 < |s|;
      var t := s[n + 1..];
      assert t[0] == s[n + 1];
      assert !IsSpace(t[0]);
      assert t[|t| - 1] == s[|s| - 1];
      assert NoAdjacentSpaces(t) by {
        forall i | 0 < i < |t| ensures !(IsSpace(t[i - 1]) && IsSpace(t[i])) {
          assert t[i - 1] == s[n + i] && t[i] == s[n + 1 + i];
        }
      }
      assert s[n..][1..] == t;
      assert Words(s[n..]) == Words(t);
      assert SpaceCount(s[n..]) == 1 + SpaceCount(t);
      WordCountOfNormalized(t);
    } else {
      assert s[n..] == [];
      assert s[..n] == s;
    }
  }

  /** Every word holds at least one character, so there are never more words than characters. */
  lemma {:induction false} WordCountBound(s: string)
    ensures |Words(s)| <= |s|
    decreases |s|
  {
    if s != [] {
      if IsSpace(s[0]) {
        WordCountBound(s[1..]);
      } else {
        WordCountBound(s[WordLen(s)..]);
      }
    }
  }

  // ---------------------------------------------------------------------------
  // split(sep)

  /** Python's `s.split(sep)` for a one-character separator. */
  function SplitOn(s: string, sep: char): (lines: seq<string>)
    ensures |lines| >= 1
    decreases |s|
  {
    if s == [] then [""]
    else
      var rest := SplitOn(s[1..], sep);
      if s[0] == sep then [""] + rest
      else [[s[0]] + rest[0]] + rest[1..]
  }

  /**
   * No piece holds the separator, a single piece is the whole text, and the last
   * piece is a suffix of the text.
   */
  lemma {:induction false} SplitOnShape(s: string, sep: char)
    ensures forall k :: 0 <= k < |SplitOn(s, sep)| ==> sep !in SplitOn(s, sep)[k]
    ensures |SplitOn(s, sep)| == 1 ==> SplitOn(s, sep)[0] == s
    ensures var last := SplitOn(s, sep)[|SplitOn(s, sep)| - 1];
      |last| <= |s| && last == s[|s| - |last|..]
    decreases |s|
  {
    if s != [] {
      var rest := SplitOn(s[1..], sep);
      SplitOnShape(s[1..], sep);
      var lines := SplitOn(s, sep);
      if s[0] == sep {
        assert lines == [""] + rest;
        forall k | 0 <= k < |lines| ensures sep !in lines[k] {
          if k > 0 { assert lines[k] == rest[k - 1]; }
        }
      } else {
        var first := [s[0]] + rest[0];
        assert lines == [first] + rest[1..];
        forall k | 0 <= k < |lines| ensures sep !in lines[k] {
          if k > 0 { assert lines[k] == rest[k]; }
        }
        if |rest| == 1 {
          assert first == [s[0]] + s[1..] == s;
        } else {
          assert lines[|lines| - 1] == rest[|rest| - 1];
        }
      }
    }
  }

  /** Text without the separator is one piece: the whole text. */
  lemma {:induction false} SplitWithoutSeparator(s: string, sep: char)
    requires sep !in s
    ensures SplitOn(s, sep) == [s]
    decreases |s|
  {
    if s != [] {
      assert sep !in s[1..];
      SplitWithoutSeparator(s[1..], sep);
      assert [s[0]] + s[1..] == s;
    }
  }

  /** Python's `any(c in line for line in lines)`. */
  predicate AnyLineHas(lines: seq<string>, c: char) {
    exists k :: 0 <= k < |lines| && c in lines[k]
  }

  lemma AnyLineHasCons(line: string, rest: seq<string>, c: char)
    ensures AnyLineHas([line] + rest, c) <==> c in line || AnyLineHas(rest, c)
  {
    var lines := [line] + rest;
    if c in line { assert c in lines[0]; }
    if AnyLineHas(rest, c) {
      var k :| 0 <= k < |rest| && c in rest[k];
      assert lines[k + 1] == rest[k];
    }
    if AnyLineHas(lines, c) {
      var k :| 0 <= k < |lines| && c in lines[k];
      if k > 0 { assert lines[k] == rest[k - 1]; }
    }
  }

  /** Splitting loses only separators: any other character is in some piece iff it is in the text. */
  lemma {:induction false} SplitKeepsCharacters(s: string, sep: char, c: char)
    requires c != sep
    ensures AnyLineHas(SplitOn(s, sep), c) <==> c in s
    decreases |s|
  {
    if s == [] {
      assert SplitOn(s, sep) == [""];
      assert AnyLineHas([""], c) <==> c in "" || AnyLineHas([], c) by { AnyLineHasCons("", [], c); }
    } else {
      var rest := SplitOn(s[1..], sep);
      SplitKeepsCharacters(s[1..], sep, c);
      assert c in s <==> c == s[0] || c in s[1..] by { assert s == [s[0]] + s[1..]; }
      if s[0] == sep {
        AnyLineHasCons("", rest, c);
      } else {
        AnyLineHasCons([s[0]] + rest[0], rest[1..], c);
        AnyLineHasCons(rest[0], rest[1..], c);
        assert [rest[0]] + rest[1..] == rest;
      }
    }
  }

  /** `s.split(sep)[-1]`: the text after the last separator. */
  function LastSegment(s: string, sep: char): (r: string)
    ensures sep !in r
    ensures |r| <= |s| && r == s[|s| - |r|..]
  {
    SplitOnShape(s, sep);
    var lines := SplitOn(s, sep);
    lines[|lines| - 1]
  }

  // ---------------------------------------------------------------------------
  // `w in s`, startswith, endswith, replace

  /** Python's `w in s` for strings: `w` occurs contiguously in `s`. */
  predicate Contains(s: string, w: string)
    decreases |s|
  {
    if |w| > |s| then false
    else if s[..|w|] == w then true
    else |s| > 0 && Contains(s[1..], w)
  }

  lemma {:induction false} ContainsInfix(x: string, w: string, y: string)
    ensures Contains(x + w + y, w)
    decreases |x|
  {
    if x == [] {
      assert x + w + y == w + y;
      assert (w + y)[..|w|] == w;
    } else {
      var s := x + w + y;
      assert s[1..] == x[1..] + w + y;
      ContainsInfix(x[1..], w, y);
    }
  }

  predicate StartsWith(s: string, p: string) {
    |p| <= |s| && s[..|p|] == p
  }

  predicate EndsWith(s: string, p: string) {
    |p| <= |s| && s[|s| - |p|..] == p
  }

  /** Python's `s.replace(pat, rep)`: every non-overlapping occurrence, left to right. */
  function ReplaceAll(s: string, pat: string, rep: string): string
    requires |pat| > 0
    decreases |s|
  {
    if |s| < |pat| then s
    else if s[..|pat|] == pat then rep + ReplaceAll(s[|pat|..], pat, rep)
    else [s[0]] + ReplaceAll(s[1..], pat, rep)
  }

  /**
   * Text without the pattern is left alone; a replacement no longer than the pattern
   * never lengthens the text; deleting a one-character pattern leaves none of it.
   */
  lemma {:induction false} ReplaceAllShape(s: string, pat: string, rep: string)
    requires |pat| > 0
    ensures !Contains(s, pat) ==> ReplaceAll(s, pat, rep) == s
    ensures |rep| <= |pat| ==> |ReplaceAll(s, pat, rep)| <= |s|
    ensures |pat| == 1 && rep == [] ==> pat[0] !in ReplaceAll(s, pat, rep)
    decreases |s|
  {
    if |s| < |pat| {
      if |pat| == 1 { assert s == []; }
    } else if s[..|pat|] == pat {
      assert Contains(s, pat);
      ReplaceAllShape(s[|pat|..], pat, rep);
    } else {
      if |pat| == 1 { assert s[..1] == [s[0]]; }
      ReplaceAllShape(s[1..], pat, rep);
    }
  }

  /** A character in neither the text nor the replacement is not in the result. */
  lemma {:induction false} ReplaceAllKeepsOut(s: string, pat: string, rep: string, c: char)
    requires |pat| > 0 && c !in s && c !in rep
    ensures c !in ReplaceAll(s, pat, rep)
    decreases |s|
  {
    if |s| < |pat| {
    } else if s[..|pat|] == pat {
      assert c !in s[|pat|..];
      ReplaceAllKeepsOut(s[|pat|..], pat, rep, c);
    } else {
      assert c !in s[1..];
      ReplaceAllKeepsOut(s[1..], pat, rep, c);
    }
  }

  // ---------------------------------------------------------------------------
  // lower()

  /** `c.lower()` on ASCII letters; every other character is left as it is. */
  function LowerChar(c: char): char {
    if 'A' <= c <= 'Z' then (c as int + 32) as char else c
  }

  function Lower(s: string): (r: string)
    ensures |r| == |s|
  {
    seq(|s|, i requires 0 <= i < |s| => LowerChar(s[i]))
  }

  /**
   * `s.lower().endswith(".pdf")` accepts exactly the names whose last four characters
   * are a dot and the letters p, d, f in either case.
   */
  lemma LowerEndsWithPdf(s: string)
    ensures EndsWith(Lower(s), ".pdf") <==>
      |s| >= 4 && s[|s| - 4] == '.' && s[|s| - 3] in "pP" && s[|s| - 2] in "dD" && s[|s| - 1] in "fF"
  {
    var n := |s|;
    if n >= 4 {
      var tail := Lower(s)[n - 4..];
      assert tail == [LowerChar(s[n - 4]), LowerChar(s[n - 3]), LowerChar(s[n - 2]), LowerChar(s[n - 1])];
    }
  }

  // ---------------------------------------------------------------------------
  // f"{n}" for a non-negative integer

  function DigitChar(d: nat): (c: char)
    requires d < 10
    ensures IsDigit(c)
  {
    ('0' as int + d) as char
  }

  /** Decimal rendering of `n`, most significant digit first, no leading zeros. */
  function NatToString(n: nat): (r: string)
    ensures IsDigits(r)
    decreases n
  {
    if n < 10 then [DigitChar(n)] else NatToString(n / 10) + [DigitChar(n % 10)]
  }

  /** The value of a string of decimal digits: the inverse of NatToString. */
  function DigitsValue(s: string): nat
    requires forall i :: 0 <= i < |s| ==> IsDigit(s[i])
    decreases |s|
  {
    if s == [] then 0
    else
      assert IsDigit(s[|s| - 1]);
      DigitsValue(s[..|s| - 1]) * 10 + (s[|s| - 1] as int - '0' as int)
  }

  lemma {:induction false} NatToStringRoundTrip(n: nat)
    ensures DigitsValue(NatToString(n)) == n
    decreases n
  {
    var r := NatToString(n);
    if n < 10 {
      assert r[..0] == [];
    } else {
      NatToStringRoundTrip(n / 10);
      assert r[..|r| - 1] == NatToString(n / 10);
    }
  }
  /** Different numbers are written differently. */
  lemma NatToStringInjective(m: nat, n: nat)
    requires NatToString(m) == NatToString(n)
    ensures m == n
  {
    NatToStringRoundTrip(m);
    NatToStringRoundTrip(n);
  }

  /**
   * A run of digits followed by text that starts with a space is read back
   * unambiguously: the digits end where the first space is.
   */
  lemma DigitsThenSpace(a: string, r: string, a2: string, r2: string)
    requires IsDigits(a) && IsDigits(a2)
    requires r != [] && r[0] == ' ' && r2 != [] && r2[0] == ' '
    requires a + r == a2 + r2
    ensures a == a2 && r == r2
  {
    var s := a + r;
    assert forall k :: 0 <= k < |a| ==> s[k] == a[k];
    assert forall k :: 0 <= k < |a2| ==> s[k] == a2[k];
    assert s[|a|] == ' ' && s[|a2|] == ' ';
    assert |a| == |a2|;
    assert a == s[..|a|] && a2 == s[..|a2|];
    assert r == s[|a|..] && r2 == s[|a2|..];
  }

  // ---------------------------------------------------------------------------
  // Pieces written one after another

  /** The pieces written one after another. */
  function Concat(parts: seq<string>): string
    decreases |parts|
  {
    if parts == [] then [] else Concat(parts[..|parts| - 1]) + parts[|parts| - 1]
  }

  lemma ConcatSnoc(parts: seq<string>, p: string)
    ensures Concat(parts + [p]) == Concat(parts) + p
  {
    assert (parts + [p])[..|parts|] == parts;
  }

  /** Empty pieces write nothing. */
  lemma {:induction false} ConcatEmpty(parts: seq<string>)
    requires forall k :: 0 <= k < |parts| ==> parts[k] == []
    ensures Concat(parts) == []
    decreases |parts|
  {
    if parts != [] {
      var init := parts[..|parts| - 1];
      assert forall k :: 0 <= k < |init| ==> init[k] == parts[k];
      ConcatEmpty(init);
    }
  }

  /** A piece that is not empty makes the whole text non-empty. */
  lemma ConcatNonEmpty(parts: seq<string>, k: nat)
    requires k < |parts| && parts[k] != []
    ensures Concat(parts) != []
  {
    ConcatSplitAt(parts, k);
  }

  lemma {:induction false} ConcatAppend(a: seq<string>, c: seq<string>)
    ensures Concat(a + c) == Concat(a) + Concat(c)
    decreases |c|
  {
    if c != [] {
      var init, last := c[..|c| - 1], c[|c| - 1];
      assert (a + c)[..|a + c| - 1] == a + init;
      ConcatAppend(a, init);
      calc {
        Concat(a + c);
        Concat(a + init) + last;
        Concat(a) + Concat(init) + last;
        Concat(a) + (Concat(init) + last);
        Concat(a) + Concat(c);
      }
    } else {
      assert a + c == a;
    }
  }

  lemma ConcatSplitAt(parts: seq<string>, i: nat)
    requires i < |parts|
    ensures Concat(parts) == Concat(parts[..i]) + parts[i] + Concat(parts[i + 1..])
  {
    var upto, rest := parts[..i + 1], parts[i + 1..];
    calc {
      Concat(parts);
      { assert parts == upto + rest; }
      Concat(upto + rest);
      { ConcatAppend(upto, rest); }
      Concat(upto) + Concat(rest);
      { assert upto[..i] == parts[..i]; }
      Concat(parts[..i]) + parts[i] + Concat(rest);
    }
  }
}
