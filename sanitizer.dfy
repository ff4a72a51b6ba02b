/**
 * `clean_text_for_database` of the enhanced service: five character-class deletions,
 * three regular-expression rewrites and a final `strip()`, applied to the output of
 * every extraction strategy and to every title.
 *
 * Each `re.sub` is modelled as the left-to-right scan Python's regular-expression
 * engine performs: at each position it tries the pattern, and on a match emits the
 * replacement and resumes after the match, otherwise emits one character and moves on.
 * The patterns here never profit from backtracking because white space and the
 * punctuation classes are disjoint, so "greedy run, then look at the next character"
 * is exactly what the engine decides.
 */
module Sanitizer {
  import opened Text

  // ---------------------------------------------------------------------------
  // Character classes of the five deletions and of the punctuation rewrites

  predicate IsNul(c: char) {
    c == '\0'
  }

  /** `[\x01-\x08\x0B\x0C\x0E-\x1F\x7F]` */
  predicate IsControl(c: char) {
    ('\U{1}' <= c <= '\U{8}') || c == '\U{B}' || c == '\U{C}' ||
    ('\U{E}' <= c <= '\U{1F}') || c == '\U{7F}'
  }

  predicate IsReplacementChar(c: char) {
    c == '\U{FFFD}'
  }

  /** `[\uE000-\uF8FF]` */
  predicate IsPrivateUse(c: char) {
    '\U{E000}' <= c <= '\U{F8FF}'
  }

  /** `[\uFFF0-\uFFFF]` */
  predicate IsSpecial(c: char) {
    '\U{FFF0}' <= c <= '\U{FFFF}'
  }

  /** A character that one of the five deletions removes. */
  predicate IsForbidden(c: char) {
    IsNul(c) || IsControl(c) || IsReplacementChar(c) || IsPrivateUse(c) || IsSpecial(c)
  }

  /** `[.!?]`, the class whose runs are collapsed. */
  predicate IsRepeatPunct(c: char) {
    c == '.' || c == '!' || c == '?'
  }

  /** `[.!?,:;]`, the class before which white space is dropped. */
  predicate IsTightPunct(c: char) {
    c == '.' || c == '!' || c == '?' || c == ',' || c == ':' || c == ';'
  }

  /** A character that no step removes, rewrites or merges with its neighbours. */
  predicate IsPlain(c: char) {
    !IsSpace(c) && !IsTightPunct(c) && !IsForbidden(c)
  }

  predicate NoSpaceBeforePunct(s: string) {
    forall i :: 0 < i < |s| ==> !(IsSpace(s[i - 1]) && IsTightPunct(s[i]))
  }

  /** No two `[.!?]` side by side. */
  predicate NoPunctPairs(s: string) {
    forall i :: 0 < i < |s| ==> !(IsRepeatPunct(s[i - 1]) && IsRepeatPunct(s[i]))
  }

  predicate AllRepeatPunct(s: string) {
    forall i :: 0 <= i < |s| ==> IsRepeatPunct(s[i])
  }

  // ---------------------------------------------------------------------------
  // Steps 1-5: deletions

  /** `re.sub(cls, '', s)`: the characters `drop` selects are deleted, the rest kept in order. */
  function Remove(s: string, drop: char -> bool): (r: string)
    ensures |r| <= |s|
    decreases |s|
  {
    if s == [] then []
    else (if drop(s[0]) then [] else [s[0]]) + Remove(s[1..], drop)
  }

  /** Step 1, `re.sub(r'\x00', '', s)`. */
  function RemoveNul(s: string): string {
    Remove(s, IsNul)
  }

  /** Step 2, `re.sub(r'[\x01-\x08\x0B\x0C\x0E-\x1F\x7F]', '', s)`. */
  function RemoveControl(s: string): string {
    Remove(s, IsControl)
  }

  /** Step 3, `re.sub(r'\uFFFD', '', s)`. */
  function RemoveReplacementChar(s: string): string {
    Remove(s, IsReplacementChar)
  }

  /** Step 4, `re.sub(r'[\uE000-\uF8FF]', '', s)`. */
  function RemovePrivateUse(s: string): string {
    Remove(s, IsPrivateUse)
  }

  /** Step 5, `re.sub(r'[\uFFF0-\uFFFF]', '', s)`. */
  function RemoveSpecials(s: string): string {
    Remove(s, IsSpecial)
  }

  // ---------------------------------------------------------------------------
  // Leading runs

  /** Length of the leading run of white space (what a greedy `\s*` consumes). */
  function SpaceRun(s: string): (n: nat)
    ensures n <= |s|
    ensures n < |s| ==> !IsSpace(s[n])
    decreases |s|
  {
    if s != [] && IsSpace(s[0]) then 1 + SpaceRun(s[1..]) else 0
  }

  /** Length of the leading run of `[.!?]` (what a greedy `([.!?])+` consumes). */
  function PunctRun(s: string): (n: nat)
    ensures n <= |s|
    ensures n < |s| ==> !IsRepeatPunct(s[n])
    decreases |s|
  {
    if s != [] && IsRepeatPunct(s[0]) then 1 + PunctRun(s[1..]) else 0
  }

  // ---------------------------------------------------------------------------
  // Step 6: re.sub(r'\s+', ' ', s)

  /** Step 6: every maximal run of white space becomes one ASCII space. */
  function CollapseWhitespace(s: string): (r: string)
    ensures |r| <= |s|
    ensures s != [] ==> r != [] && r[0] == (if IsSpace(s[0]) then ' ' else s[0])
    decreases |s|
  {
    if s == [] then []
    else if IsSpace(s[0]) then [' '] + CollapseWhitespace(s[SpaceRun(s)..])
    else [s[0]] + CollapseWhitespace(s[1..])
  }

  // ---------------------------------------------------------------------------
  // Step 7: re.sub(r'([.!?])\s*([.!?])+', r'\1', s)

  /**
   * Does the pattern of step 7 match at the start of `s`? It does when `s` starts
   * with `[.!?]` and, after the white space that follows, another `[.!?]` comes.
   */
  predicate RepeatAt(s: string) {
    s != [] && IsRepeatPunct(s[0]) &&
    1 + SpaceRun(s[1..]) < |s| && IsRepeatPunct(s[1 + SpaceRun(s[1..])])
  }

  /** Length of the match of step 7 at the start of `s`. */
  function RepeatMatchLen(s: string): (m: nat)
    requires RepeatAt(s)
    ensures 2 <= m <= |s|
  {
    var k := 1 + SpaceRun(s[1..]);
    k + PunctRun(s[k..])
  }

  /** How far step 7 advances at the start of `s`: past the match, or one character. */
  function RepeatStep(s: string): (m: nat)
    requires s != []
    ensures 1 <= m <= |s|
  {
    if RepeatAt(s) then RepeatMatchLen(s) else 1
  }

  /**
   * Step 7: a `[.!?]` followed by optional white space and a run of `[.!?]` is
   * replaced by the first punctuation character; scanning resumes after the run.
   */
  function CollapseRepeatedPunct(s: string): (r: string)
    ensures |r| <= |s|
    ensures s != [] ==> r != [] && r[0] == s[0]
    decreases |s|
  {
    if s == [] then [] else [s[0]] + CollapseRepeatedPunct(s[RepeatStep(s)..])
  }

  // ---------------------------------------------------------------------------
  // Step 8: re.sub(r'\s+([.!?,:;])', r'\1', s)

  /** Does the pattern of step 8 match at the start of `s`? White space, then `[.!?,:;]`. */
  predicate SpacesThenPunct(s: string) {
    s != [] && IsSpace(s[0]) && SpaceRun(s) < |s| && IsTightPunct(s[SpaceRun(s)])
  }

  /** Step 8: white space immediately before `[.!?,:;]` is deleted. */
  function DropSpaceBeforePunct(s: string): (r: string)
    ensures |r| <= |s|
    ensures s != [] ==> r != []
    decreases |s|
  {
    if s == [] then []
    else if SpacesThenPunct(s) then [s[SpaceRun(s)]] + DropSpaceBeforePunct(s[SpaceRun(s) + 1..])
    else [s[0]] + DropSpaceBeforePunct(s[1..])
  }

  // ---------------------------------------------------------------------------
  // The whole function

  /** The eight `re.sub` calls, in source order. */
  function Rewrite(s: string): string {
    DropSpaceBeforePunct(
      CollapseRepeatedPunct(
        CollapseWhitespace(
          RemoveSpecials(RemovePrivateUse(RemoveReplacementChar(RemoveControl(RemoveNul(s))))))))
  }

  /** `clean_text_for_database`: empty input gives `""`, otherwise the eight rewrites and `strip()`. */
  function Clean(text: string): (r: string)
    ensures text == [] ==> r == []
    ensures |r| <= |text|
  {
    if text == [] then [] else Strip(Rewrite(text))
  }
}

/**
 * What `clean_text_for_database` guarantees about its output, what it keeps of its
 * input, and where it falls short of being idempotent.
 */
module SanitizerProperties {
  import opened Text
  import opened Sanitizer

  predicate AllPlain(w: string) {
    forall i :: 0 <= i < |w| ==> IsPlain(w[i])
  }

  // ---------------------------------------------------------------------------
  // Facts about single steps

  /** Deletion works character by character, so it distributes over concatenation. */
  lemma {:induction false} RemoveAppend(a: string, b: string, drop: char -> bool)
    ensures Remove(a + b, drop) == Remove(a, drop) + Remove(b, drop)
    decreases |a|
  {
    if a == [] {
      assert a + b == b;
    } else {
      assert (a + b)[1..] == a[1..] + b;
      RemoveAppend(a[1..], b, drop);
    }
  }

  /** A deletion keeps only characters of its input, and none that it selects. */
  lemma {:induction false} RemoveShape(s: string, drop: char -> bool)
    ensures forall c :: c in Remove(s, drop) ==> c in s && !drop(c)
    decreases |s|
  {
    if s != [] {
      RemoveShape(s[1..], drop);
      assert forall c :: c in s[1..] ==> c in s;
    }
  }

  /** After the five deletions no forbidden character is left. */
  lemma DeletionsShape(s: string)
    ensures forall c ::
      c in RemoveSpecials(RemovePrivateUse(RemoveReplacementChar(RemoveControl(RemoveNul(s))))) ==>
        c in s && !IsForbidden(c)
  {
    var s1 := RemoveNul(s);
    var s2 := RemoveControl(s1);
    var s3 := RemoveReplacementChar(s2);
    var s4 := RemovePrivateUse(s3);
    RemoveShape(s, IsNul);
    RemoveShape(s1, IsControl);
    RemoveShape(s2, IsReplacementChar);
    RemoveShape(s3, IsPrivateUse);
    RemoveShape(s4, IsSpecial);
  }

  /** A leading run is not lengthened by what follows it once it has stopped. */
  lemma {:induction false} SpaceRunAppend(x: string, t: string)
    requires SpaceRun(x) < |x| || t == [] || !IsSpace(t[0])
    ensures SpaceRun(x + t) == SpaceRun(x)
    decreases |x|
  {
    if x == [] {
      assert x + t == t;
    } else {
      assert (x + t)[1..] == x[1..] + t;
      if IsSpace(x[0]) { SpaceRunAppend(x[1..], t); }
    }
  }

  lemma {:induction false} PunctRunAppend(x: string, t: string)
    requires PunctRun(x) < |x| || t == [] || !IsRepeatPunct(t[0])
    ensures PunctRun(x + t) == PunctRun(x)
    decreases |x|
  {
    if x == [] {
      assert x + t == t;
    } else {
      assert (x + t)[1..] == x[1..] + t;
      if IsRepeatPunct(x[0]) { PunctRunAppend(x[1..], t); }
    }
  }

  lemma NoAdjacentSpacesCons(c: char, t: string)
    requires NoAdjacentSpaces(t)
    requires t != [] && IsSpace(c) ==> !IsSpace(t[0])
    ensures NoAdjacentSpaces([c] + t)
  {
    var s := [c] + t;
    forall i | 0 < i < |s| ensures !(IsSpace(s[i - 1]) && IsSpace(s[i])) {
      if i > 1 { assert s[i - 1] == t[i - 2] && s[i] == t[i - 1]; }
    }
  }

  lemma NoSpaceBeforePunctCons(c: char, t: string)
    requires NoSpaceBeforePunct(t)
    requires t != [] && IsSpace(c) ==> !IsTightPunct(t[0])
    ensures NoSpaceBeforePunct([c] + t)
  {
    var s := [c] + t;
    forall i | 0 < i < |s| ensures !(IsSpace(s[i - 1]) && IsTightPunct(s[i])) {
      if i > 1 { assert s[i - 1] == t[i - 2] && s[i] == t[i - 1]; }
    }
  }

  lemma NoAdjacentSpacesSuffix(s: string, m: nat)
    requires m <= |s|
    ensures NoAdjacentSpaces(s) ==> NoAdjacentSpaces(s[m..])
  {
    if NoAdjacentSpaces(s) {
      var t := s[m..];
      forall i | 0 < i < |t| ensures !(IsSpace(t[i - 1]) && IsSpace(t[i])) {
        assert t[i - 1] == s[m + i - 1] && t[i] == s[m + i];
      }
    }
  }

  /** Step 8 matches at a white-space character when it matches at the next one. */
  lemma SpacesThenPunctStep(s: string)
    requires |s| > 1 && IsSpace(s[0])
    ensures IsTightPunct(s[1]) || SpacesThenPunct(s[1..]) ==> SpacesThenPunct(s)
  {
    var t := s[1..];
    assert SpaceRun(s) == 1 + SpaceRun(t);
    if !IsSpace(t[0]) {
      assert SpaceRun(t) == 0;
    } else if SpacesThenPunct(t) {
      assert s[SpaceRun(s)] == t[SpaceRun(t)];
    }
  }

  /** Step 6 leaves only ASCII spaces as white space, never two in a row. */
  lemma {:induction false} CollapseWhitespaceShape(s: string)
    ensures forall c :: c in CollapseWhitespace(s) ==> c == ' ' || (c in s && !IsSpace(c))
    ensures NoAdjacentSpaces(CollapseWhitespace(s))
    decreases |s|
  {
    if s != [] {
      var m := if IsSpace(s[0]) then SpaceRun(s) else 1;
      var rest := CollapseWhitespace(s[m..]);
      CollapseWhitespaceShape(s[m..]);
      assert forall c :: c in s[m..] ==> c in s;
      NoAdjacentSpacesCons(if IsSpace(s[0]) then ' ' else s[0], rest);
    }
  }

  /** Step 7 keeps only characters of its input and creates no adjacent white space. */
  lemma {:induction false} CollapseRepeatedPunctShape(s: string)
    ensures forall c :: c in CollapseRepeatedPunct(s) ==> c in s
    ensures NoAdjacentSpaces(s) ==> NoAdjacentSpaces(CollapseRepeatedPunct(s))
    decreases |s|
  {
    if s != [] {
      var m := RepeatStep(s);
      var rest := CollapseRepeatedPunct(s[m..]);
      CollapseRepeatedPunctShape(s[m..]);
      assert forall c :: c in s[m..] ==> c in s;
      NoAdjacentSpacesSuffix(s, m);
      if NoAdjacentSpaces(s) {
        if m == 1 && rest != [] { assert rest[0] == s[1]; }
        NoAdjacentSpacesCons(s[0], rest);
      }
    }
  }

  lemma NoPunctPairsCons(c: char, t: string)
    requires NoPunctPairs(t)
    requires t != [] && IsRepeatPunct(c) ==> !IsRepeatPunct(t[0])
    ensures NoPunctPairs([c] + t)
  {
    var s := [c] + t;
    forall i | 0 < i < |s| ensures !(IsRepeatPunct(s[i - 1]) && IsRepeatPunct(s[i])) {
      if i > 1 { assert s[i - 1] == t[i - 2] && s[i] == t[i - 1]; }
    }
  }

  /** Two adjacent `[.!?]` always start a match of step 7. */
  lemma AdjacentPunctMatches(s: string)
    ensures |s| >= 2 && IsRepeatPunct(s[0]) && IsRepeatPunct(s[1]) ==> RepeatAt(s)
  {
    if |s| >= 2 && IsRepeatPunct(s[1]) {
      assert SpaceRun(s[1..]) == 0;
    }
  }

  /** Step 7 leaves no two `[.!?]` side by side: every run it meets is collapsed. */
  lemma {:induction false} CollapseRepeatedPunctNoPairs(s: string)
    ensures NoPunctPairs(CollapseRepeatedPunct(s))
    decreases |s|
  {
    if s != [] {
      var m := RepeatStep(s);
      var rest := CollapseRepeatedPunct(s[m..]);
      CollapseRepeatedPunctNoPairs(s[m..]);
      if rest != [] && IsRepeatPunct(s[0]) {
        assert rest[0] == s[m];
        AdjacentPunctMatches(s);
        if RepeatAt(s) {
          var k := 1 + SpaceRun(s[1..]);
          assert s[m] == s[k..][PunctRun(s[k..])];
        }
      }
      NoPunctPairsCons(s[0], rest);
    }
  }

  lemma {:induction false} SpaceRunOfSpaces(w: string, u: string)
    requires AllSpace(w)
    ensures SpaceRun(w + u) == |w| + SpaceRun(u)
    decreases |w|
  {
    if w == [] {
      assert w + u == u;
    } else {
      assert (w + u)[1..] == w[1..] + u;
      SpaceRunOfSpaces(w[1..], u);
    }
  }

  lemma {:induction false} PunctRunOfPuncts(q: string, t: string)
    requires AllRepeatPunct(q)
    requires t == [] || !IsRepeatPunct(t[0])
    ensures PunctRun(q + t) == |q|
    decreases |q|
  {
    if q == [] {
      assert q + t == t;
    } else {
      assert (q + t)[1..] == q[1..] + t;
      PunctRunOfPuncts(q[1..], t);
    }
  }

  /**
   * One match of `[.!?]\s*[.!?]+` (a punctuation character, white space, a maximal
   * run of punctuation) becomes its first character; scanning resumes after it.
   */
  lemma CollapseRepeatedPunctMatch(p: char, w: string, q: string, t: string)
    requires IsRepeatPunct(p) && AllSpace(w) && q != [] && AllRepeatPunct(q)
    requires t == [] || !IsRepeatPunct(t[0])
    ensures CollapseRepeatedPunct([p] + w + q + t) == [p] + CollapseRepeatedPunct(t)
  {
    var s := [p] + w + q + t;
    RepeatStepOfMatch(p, w, q, t);
    assert s[1 + |w| + |q|..] == t;
  }

  /** Where a match starts, step 7 finds it and advances past the whole of it. */
  lemma RepeatStepOfMatch(p: char, w: string, q: string, t: string)
    requires IsRepeatPunct(p) && AllSpace(w) && q != [] && AllRepeatPunct(q)
    requires t == [] || !IsRepeatPunct(t[0])
    ensures RepeatAt([p] + w + q + t)
    ensures RepeatStep([p] + w + q + t) == 1 + |w| + |q|
  {
    var s := [p] + w + q + t;
    MatchSuffixes(p, w, q, t);
    SpaceRunOfSpaces(w, q + t);
    PunctRunOfPuncts(q, t);
    RepeatStepAt(s, 1 + |w|, 1 + |w| + |q|);
  }

  lemma MatchSuffixes(p: char, w: string, q: string, t: string)
    requires q != []
    ensures var s := [p] + w + q + t;
      && s[0] == p && s[1..] == w + (q + t) && s[1 + |w|..] == q + t
      && (q + t)[0] == q[0]
  {
  }

  /** Step 7 at a `[.!?]` followed by `k - 1` white space and a punctuation run ending at `m`. */
  lemma RepeatStepAt(s: string, k: nat, m: nat)
    requires 1 <= k < m <= |s|
    requires IsRepeatPunct(s[0]) && SpaceRun(s[1..]) == k - 1
    requires IsRepeatPunct(s[k]) && PunctRun(s[k..]) == m - k
    ensures RepeatAt(s) && RepeatStep(s) == m
  {
  }

  /** Text in which the pattern of step 7 matches nowhere is left unchanged. */
  lemma {:induction false} CollapseRepeatedPunctNoMatch(s: string)
    requires forall i :: 0 <= i < |s| ==> !RepeatAt(s[i..])
    ensures CollapseRepeatedPunct(s) == s
    decreases |s|
  {
    if s != [] {
      assert !RepeatAt(s[0..]);
      assert s[0..] == s;
      var t := s[1..];
      forall i | 0 <= i < |t| ensures !RepeatAt(t[i..]) {
        assert t[i..] == s[i + 1..];
      }
      CollapseRepeatedPunctNoMatch(t);
      assert s == [s[0]] + t;
    }
  }

  /** What step 8 puts first: white space only where no match started, `[.!?,:;]` only where one did or it was there. */
  lemma DropSpaceBeforePunctHead(s: string)
    ensures var r := DropSpaceBeforePunct(s);
      r != [] && IsSpace(r[0]) ==> IsSpace(s[0]) && !SpacesThenPunct(s)
    ensures var r := DropSpaceBeforePunct(s);
      r != [] && IsTightPunct(r[0]) ==> IsTightPunct(s[0]) || SpacesThenPunct(s)
  {
    if s != [] && SpacesThenPunct(s) {
      assert DropSpaceBeforePunct(s)[0] == s[SpaceRun(s)];
    }
  }

  /**
   * Step 8 keeps only characters of its input, leaves no white space before
   * `[.!?,:;]` and creates no adjacent white space.
   */
  lemma {:induction false} DropSpaceBeforePunctShape(s: string)
    ensures forall c :: c in DropSpaceBeforePunct(s) ==> c in s
    ensures NoSpaceBeforePunct(DropSpaceBeforePunct(s))
    ensures NoAdjacentSpaces(s) ==> NoAdjacentSpaces(DropSpaceBeforePunct(s))
    decreases |s|, 1
  {
    if s == [] {
    } else if SpacesThenPunct(s) {
      DropShapeAfterMatch(s);
    } else {
      DropShapeNoMatch(s);
    }
  }

  lemma {:induction false} DropShapeAfterMatch(s: string)
    requires SpacesThenPunct(s)
    ensures forall c :: c in DropSpaceBeforePunct(s) ==> c in s
    ensures NoSpaceBeforePunct(DropSpaceBeforePunct(s))
    ensures NoAdjacentSpaces(s) ==> NoAdjacentSpaces(DropSpaceBeforePunct(s))
    decreases |s|, 0
  {
    var n := SpaceRun(s);
    var rest := DropSpaceBeforePunct(s[n + 1..]);
    assert DropSpaceBeforePunct(s) == [s[n]] + rest;
    DropSpaceBeforePunctShape(s[n + 1..]);
    assert forall c :: c in s[n + 1..] ==> c in s;
    NoSpaceBeforePunctCons(s[n], rest);
    NoAdjacentSpacesSuffix(s, n + 1);
    if NoAdjacentSpaces(s) { NoAdjacentSpacesCons(s[n], rest); }
  }

  lemma {:induction false} DropShapeNoMatch(s: string)
    requires s != [] && !SpacesThenPunct(s)
    ensures forall c :: c in DropSpaceBeforePunct(s) ==> c in s
    ensures NoSpaceBeforePunct(DropSpaceBeforePunct(s))
    ensures NoAdjacentSpaces(s) ==> NoAdjacentSpaces(DropSpaceBeforePunct(s))
    decreases |s|, 0
  {
    var t := s[1..];
    var rest := DropSpaceBeforePunct(t);
    assert DropSpaceBeforePunct(s) == [s[0]] + rest;
    DropSpaceBeforePunctShape(t);
    DropSpaceBeforePunctHead(t);
    assert forall c :: c in t ==> c in s;
    if rest != [] && IsSpace(s[0]) { SpacesThenPunctStep(s); }
    NoSpaceBeforePunctCons(s[0], rest);
    NoAdjacentSpacesSuffix(s, 1);
    if NoAdjacentSpaces(s) {
      assert t != [] ==> t[0] == s[1];
      NoAdjacentSpacesCons(s[0], rest);
    }
  }

  /** Any infix keeps the characters and the spacing properties of the whole. */
  lemma InfixKeepsShape(s: string, a: nat, b: nat)
    requires a <= b <= |s|
    ensures forall c :: c in s[a..b] ==> c in s
    ensures NoAdjacentSpaces(s) ==> NoAdjacentSpaces(s[a..b])
    ensures NoSpaceBeforePunct(s) ==> NoSpaceBeforePunct(s[a..b])
  {
    var r := s[a..b];
    forall c | c in r ensures c in s {
      var i :| 0 <= i < |r| && r[i] == c;
      assert s[a + i] == c;
    }
    if NoAdjacentSpaces(s) {
      forall i | 0 < i < |r| ensures !(IsSpace(r[i - 1]) && IsSpace(r[i])) {
        assert r[i - 1] == s[a + i - 1] && r[i] == s[a + i];
      }
    }
    if NoSpaceBeforePunct(s) {
      forall i | 0 < i < |r| ensures !(IsSpace(r[i - 1]) && IsTightPunct(r[i])) {
        assert r[i - 1] == s[a + i - 1] && r[i] == s[a + i];
      }
    }
  }

  lemma StripKeepsShape(s: string)
    ensures forall c :: c in Strip(s) ==> c in s
    ensures NoAdjacentSpaces(s) ==> NoAdjacentSpaces(Strip(s))
    ensures NoSpaceBeforePunct(s) ==> NoSpaceBeforePunct(Strip(s))
  {
    var right := StripRight(s);
    var r := StripLeft(right);
    var a := |right| - |r|;
    assert r == s[a..|right|];
    InfixKeepsShape(s, a, |right|);
  }

  /** The eight rewrites leave no forbidden character and only single ASCII spaces. */
  lemma RewriteShape(s: string)
    ensures forall c :: c in Rewrite(s) ==> !IsForbidden(c) && (IsSpace(c) ==> c == ' ')
    ensures NoAdjacentSpaces(Rewrite(s))
    ensures NoSpaceBeforePunct(Rewrite(s))
  {
    var s5 := RemoveSpecials(RemovePrivateUse(RemoveReplacementChar(RemoveControl(RemoveNul(s)))));
    DeletionsShape(s);
    var s6 := CollapseWhitespace(s5);
    CollapseWhitespaceShape(s5);
    forall c | c in s6 ensures c == ' ' || (!IsSpace(c) && !IsForbidden(c)) {
    }
    var s7 := CollapseRepeatedPunct(s6);
    CollapseRepeatedPunctShape(s6);
    forall c | c in s7 ensures c == ' ' || (!IsSpace(c) && !IsForbidden(c)) {
    }
    var s8 := DropSpaceBeforePunct(s7);
    DropSpaceBeforePunctShape(s7);
    assert Rewrite(s) == s8;
    forall c | c in s8 ensures !IsForbidden(c) && (IsSpace(c) ==> c == ' ') {
      assert c == ' ' || (!IsSpace(c) && !IsForbidden(c));
    }
  }

  /**
   * The output of the sanitiser holds none of the deleted characters, its only
   * white space is the ASCII space (no newline, no tab), it is single-spaced with
   * no leading or trailing white space, and no white space precedes `[.!?,:;]`.
   */
  lemma CleanOutputShape(text: string)
    ensures forall c :: c in Clean(text) ==> !IsForbidden(c) && (IsSpace(c) ==> c == ' ')
    ensures '\n' !in Clean(text) && '\t' !in Clean(text)
    ensures Normalized(Clean(text))
    ensures NoSpaceBeforePunct(Clean(text))
  {
    if text != [] {
      var s8 := Rewrite(text);
      RewriteShape(text);
      StripKeepsShape(s8);
      assert IsSpace('\n') && IsSpace('\t');
    }
  }

  /** A deletion that selects no character of `s` leaves `s` as it is. */
  lemma {:induction false} RemoveNone(s: string, drop: char -> bool)
    requires forall i :: 0 <= i < |s| ==> !drop(s[i])
    ensures Remove(s, drop) == s
    decreases |s|
  {
    if s != [] {
      RemoveNone(s[1..], drop);
    }
  }

  /** Text without forbidden characters passes the five deletions unchanged. */
  lemma DeletionsNone(s: string)
    requires forall i :: 0 <= i < |s| ==> !IsForbidden(s[i])
    ensures RemoveSpecials(RemovePrivateUse(RemoveReplacementChar(RemoveControl(RemoveNul(s))))) == s
  {
    RemoveNone(s, IsNul);
    RemoveNone(s, IsControl);
    RemoveNone(s, IsReplacementChar);
    RemoveNone(s, IsPrivateUse);
    RemoveNone(s, IsSpecial);
  }

  lemma SpacedDotsWhitespace()
    ensures CollapseWhitespace(". . .") == ". . ."
  {
    assert CollapseWhitespace(".") == ".";
    assert CollapseWhitespace(" .") == " .";
    assert CollapseWhitespace(". .") == ". .";
    assert CollapseWhitespace(" . .") == " . .";
  }

  lemma SpacedDotsPunct()
    ensures CollapseRepeatedPunct(". . .") == ". ."
  {
    var s := ". . .";
    assert s[1..] == " . .";
    assert SpaceRun(s[1..]) == 1 && s[2] == '.';
    assert s[2..] == ". .";
    assert PunctRun(s[2..]) == 1;
    assert RepeatStep(s) == 3 && s[3..] == " .";
    assert CollapseRepeatedPunct(".") == ".";
    assert CollapseRepeatedPunct(" .") == " .";
  }

  lemma SpacedDotsDrop()
    ensures DropSpaceBeforePunct(". .") == ".."
  {
    assert SpacesThenPunct(" .") && SpaceRun(" .") == 1;
    assert DropSpaceBeforePunct(" .") == ".";
  }

  lemma SpacedDotsRewrite()
    ensures Rewrite(". . .") == ".."
  {
    var s := ". . .";
    var s5 := RemoveSpecials(RemovePrivateUse(RemoveReplacementChar(RemoveControl(RemoveNul(s)))));
    assert s5 == s by { DeletionsNone(s); }
    var s7 := CollapseRepeatedPunct(CollapseWhitespace(s5));
    assert CollapseWhitespace(s5) == s by { SpacedDotsWhitespace(); }
    assert s7 == ". ." by { SpacedDotsPunct(); }
    assert DropSpaceBeforePunct(s7) == ".." by { SpacedDotsDrop(); }
  }

  lemma TwoDotsCollapse()
    ensures CollapseWhitespace("..") == ".."
    ensures CollapseRepeatedPunct("..") == "."
  {
    var u := "..";
    assert CollapseWhitespace(".") == ".";
    assert u[1..] == ".";
    assert SpaceRun(u[1..]) == 0 && PunctRun(u[1..]) == 1;
    assert RepeatAt(u);
    assert RepeatMatchLen(u) == 2;
  }

  lemma TwoDotsRewrite()
    ensures Rewrite("..") == "."
  {
    var u := "..";
    var u5 := RemoveSpecials(RemovePrivateUse(RemoveReplacementChar(RemoveControl(RemoveNul(u)))));
    assert u5 == u by { DeletionsNone(u); }
    assert CollapseRepeatedPunct(CollapseWhitespace(u5)) == "." by { TwoDotsCollapse(); }
    assert DropSpaceBeforePunct(".") == ".";
  }

  /**
   * Not idempotent: step 7 collapses only the first `". ."` of `". . ."` and step 8
   * then removes the remaining space, so a second pass shortens the result again.
   */
  lemma CleanNotIdempotent()
    ensures Clean(". . .") == ".."
    ensures Clean("..") == "."
    ensures Clean(Clean(". . .")) != Clean(". . .")
  {
    SpacedDotsRewrite();
    TwoDotsRewrite();
    assert Strip("..") == "..";
    assert Strip(".") == ".";
  }

  // ---------------------------------------------------------------------------
  // Plain characters pass through every step untouched and keep their neighbours apart

  lemma RemoveAround(x: string, c: char, y: string, drop: char -> bool)
    requires !drop(c)
    ensures Remove(x + [c] + y, drop) == Remove(x, drop) + [c] + Remove(y, drop)
  {
    RemoveAppend(x + [c], y, drop);
    RemoveAppend(x, [c], drop);
    assert [c][1..] == [];
  }

  // Regrouping helpers, stated over arbitrary strings so that the lemmas below
  // need not reason about concatenations of the rewrite functions' results.

  lemma RegroupAround(x: string, c: char, y: string)
    ensures x + [c] + y == x + ([c] + y)
  {
  }

  lemma SuffixAround(x: string, m: nat, c: char, y: string)
    requires m <= |x|
    ensures (x + [c] + y)[m..] == x[m..] + [c] + y
  {
    assert x == x[..m] + x[m..];
  }

  lemma RegroupHead(h: string, r: string, c: char, y: string)
    ensures h + (r + [c] + y) == h + r + [c] + y
  {
  }

  lemma {:induction false} CollapseWhitespaceAround(x: string, c: char, y: string)
    requires !IsSpace(c)
    ensures CollapseWhitespace(x + [c] + y) == CollapseWhitespace(x) + [c] + CollapseWhitespace(y)
    decreases |x|, 1
  {
    var s := x + [c] + y;
    if x == [] {
      assert s == [c] + y && s[1..] == y;
      assert CollapseWhitespace(s) == [c] + CollapseWhitespace(y);
    } else if IsSpace(x[0]) {
      RegroupAround(x, c, y);
      SpaceRunAppend(x, [c] + y);
      CollapseAroundSpace(x, c, y);
    } else {
      CollapseAroundOther(x, c, y);
    }
  }

  lemma {:induction false} CollapseAroundSpace(x: string, c: char, y: string)
    requires !IsSpace(c) && x != [] && IsSpace(x[0])
    requires SpaceRun(x + [c] + y) == SpaceRun(x)
    ensures CollapseWhitespace(x + [c] + y) == CollapseWhitespace(x) + [c] + CollapseWhitespace(y)
    decreases |x|, 0
  {
    var n := SpaceRun(x);
    SuffixAround(x, n, c, y);
    CollapseWhitespaceAround(x[n..], c, y);
    RegroupHead([' '], CollapseWhitespace(x[n..]), c, CollapseWhitespace(y));
  }

  lemma {:induction false} CollapseAroundOther(x: string, c: char, y: string)
    requires !IsSpace(c) && x != [] && !IsSpace(x[0])
    ensures CollapseWhitespace(x + [c] + y) == CollapseWhitespace(x) + [c] + CollapseWhitespace(y)
    decreases |x|, 0
  {
    SuffixAround(x, 1, c, y);
    CollapseWhitespaceAround(x[1..], c, y);
    RegroupHead([x[0]], CollapseWhitespace(x[1..]), c, CollapseWhitespace(y));
  }

  /** Step 7 takes the same stride at the start of `x + t` as of `x` when `t` starts plain. */
  lemma RepeatStepAppend(x: string, t: string)
    requires x != [] && t != [] && !IsSpace(t[0]) && !IsRepeatPunct(t[0])
    ensures RepeatStep(x + t) == RepeatStep(x)
  {
    var s := x + t;
    var x1 := x[1..];
    assert s[1..] == x1 + t;
    SpaceRunAppend(x1, t);
    var k := 1 + SpaceRun(x1);
    assert k < |x| ==> s[k] == x[k];
    assert k == |x| ==> s[k] == t[0];
    assert RepeatAt(s) == RepeatAt(x);
    if RepeatAt(x) {
      assert s[k..] == x[k..] + t;
      PunctRunAppend(x[k..], t);
    }
  }

  lemma {:induction false} CollapseRepeatedPunctAround(x: string, c: char, y: string)
    requires !IsSpace(c) && !IsRepeatPunct(c)
    ensures CollapseRepeatedPunct(x + [c] + y) == CollapseRepeatedPunct(x) + [c] + CollapseRepeatedPunct(y)
    decreases |x|, 1
  {
    var s := x + [c] + y;
    if x == [] {
      assert s == [c] + y && s[1..] == y;
      assert RepeatStep(s) == 1;
      assert CollapseRepeatedPunct(s) == [c] + CollapseRepeatedPunct(y);
    } else {
      RegroupAround(x, c, y);
      RepeatStepAppend(x, [c] + y);
      PunctAroundStep(x, c, y);
    }
  }

  lemma {:induction false} PunctAroundStep(x: string, c: char, y: string)
    requires !IsSpace(c) && !IsRepeatPunct(c)
    requires x != [] && RepeatStep(x + [c] + y) == RepeatStep(x)
    ensures CollapseRepeatedPunct(x + [c] + y) == CollapseRepeatedPunct(x) + [c] + CollapseRepeatedPunct(y)
    decreases |x|, 0
  {
    var m := RepeatStep(x);
    SuffixAround(x, m, c, y);
    CollapseRepeatedPunctAround(x[m..], c, y);
    RegroupHead([x[0]], CollapseRepeatedPunct(x[m..]), c, CollapseRepeatedPunct(y));
  }

  /** Step 8 matches at the start of `x + t` exactly when it does at the start of `x`, if `t` starts plain. */
  lemma SpacesThenPunctAppend(x: string, t: string)
    requires x != [] && t != [] && !IsSpace(t[0]) && !IsTightPunct(t[0])
    ensures SpacesThenPunct(x + t) == SpacesThenPunct(x)
    ensures SpacesThenPunct(x) ==> SpaceRun(x + t) == SpaceRun(x) && (x + t)[SpaceRun(x)] == x[SpaceRun(x)]
  {
    var s := x + t;
    SpaceRunAppend(x, t);
    var n := SpaceRun(x);
    assert n < |x| ==> s[n] == x[n];
    assert n == |x| ==> s[n] == t[0];
  }

  lemma {:induction false} DropSpaceBeforePunctAround(x: string, c: char, y: string)
    requires !IsSpace(c) && !IsTightPunct(c)
    ensures DropSpaceBeforePunct(x + [c] + y) == DropSpaceBeforePunct(x) + [c] + DropSpaceBeforePunct(y)
    decreases |x|, 1
  {
    var s := x + [c] + y;
    if x == [] {
      assert s == [c] + y && s[1..] == y;
      assert !SpacesThenPunct(s);
      assert DropSpaceBeforePunct(s) == [c] + DropSpaceBeforePunct(y);
    } else if SpacesThenPunct(x) {
      DropAroundAfterMatch(x, c, y);
    } else {
      RegroupAround(x, c, y);
      SpacesThenPunctAppend(x, [c] + y);
      DropAroundNoMatch(x, c, y);
    }
  }

  lemma {:induction false} DropAroundAfterMatch(x: string, c: char, y: string)
    requires !IsSpace(c) && !IsTightPunct(c) && x != [] && SpacesThenPunct(x)
    ensures DropSpaceBeforePunct(x + [c] + y) == DropSpaceBeforePunct(x) + [c] + DropSpaceBeforePunct(y)
    decreases |x|, 0
  {
    var n := SpaceRun(x);
    var tail := x[n + 1..];
    var h := [x[n]];
    calc {
      DropSpaceBeforePunct(x + [c] + y);
      { DropAfterMatchHead(x, c, y); }
      h + DropSpaceBeforePunct(tail + [c] + y);
      { DropSpaceBeforePunctAround(tail, c, y); }
      h + (DropSpaceBeforePunct(tail) + [c] + DropSpaceBeforePunct(y));
      { RegroupHead(h, DropSpaceBeforePunct(tail), c, DropSpaceBeforePunct(y)); }
      h + DropSpaceBeforePunct(tail) + [c] + DropSpaceBeforePunct(y);
      { DropUnfoldMatch(x); }
      DropSpaceBeforePunct(x) + [c] + DropSpaceBeforePunct(y);
    }
  }

  /** A match at the start of `x` is still the first match once more text follows `x`. */
  lemma DropAfterMatchHead(x: string, c: char, y: string)
    requires !IsSpace(c) && !IsTightPunct(c) && x != [] && SpacesThenPunct(x)
    ensures SpaceRun(x) + 1 <= |x|
    ensures DropSpaceBeforePunct(x + [c] + y) ==
      [x[SpaceRun(x)]] + DropSpaceBeforePunct(x[SpaceRun(x) + 1..] + [c] + y)
  {
    var n := SpaceRun(x);
    RegroupAround(x, c, y);
    SpacesThenPunctAppend(x, [c] + y);
    DropUnfoldMatch(x + [c] + y);
    SuffixAround(x, n + 1, c, y);
  }

  lemma DropUnfoldMatch(s: string)
    requires SpacesThenPunct(s)
    ensures DropSpaceBeforePunct(s) == [s[SpaceRun(s)]] + DropSpaceBeforePunct(s[SpaceRun(s) + 1..])
  {
  }

  lemma {:induction false} DropAroundNoMatch(x: string, c: char, y: string)
    requires !IsSpace(c) && !IsTightPunct(c)
    requires x != [] && !SpacesThenPunct(x) && !SpacesThenPunct(x + [c] + y)
    ensures DropSpaceBeforePunct(x + [c] + y) == DropSpaceBeforePunct(x) + [c] + DropSpaceBeforePunct(y)
    decreases |x|, 0
  {
    SuffixAround(x, 1, c, y);
    DropSpaceBeforePunctAround(x[1..], c, y);
    RegroupHead([x[0]], DropSpaceBeforePunct(x[1..]), c, DropSpaceBeforePunct(y));
  }

  lemma RewriteAround(x: string, c: char, y: string)
    requires IsPlain(c)
    ensures Rewrite(x + [c] + y) == Rewrite(x) + [c] + Rewrite(y)
  {
    RemoveAround(x, c, y, IsNul);
    var x1, y1 := RemoveNul(x), RemoveNul(y);
    RemoveAround(x1, c, y1, IsControl);
    var x2, y2 := RemoveControl(x1), RemoveControl(y1);
    RemoveAround(x2, c, y2, IsReplacementChar);
    var x3, y3 := RemoveReplacementChar(x2), RemoveReplacementChar(y2);
    RemoveAround(x3, c, y3, IsPrivateUse);
    var x4, y4 := RemovePrivateUse(x3), RemovePrivateUse(y3);
    RemoveAround(x4, c, y4, IsSpecial);
    var x5, y5 := RemoveSpecials(x4), RemoveSpecials(y4);
    CollapseWhitespaceAround(x5, c, y5);
    var x6, y6 := CollapseWhitespace(x5), CollapseWhitespace(y5);
    CollapseRepeatedPunctAround(x6, c, y6);
    var x7, y7 := CollapseRepeatedPunct(x6), CollapseRepeatedPunct(y6);
    DropSpaceBeforePunctAround(x7, c, y7);
  }

  /** Regrouping a concatenation around the first character of a non-empty middle part. */
  lemma SplitFirst(a: string, w: string, b: string)
    requires w != []
    ensures a + w + b == a + [w[0]] + (w[1..] + b)
  {
    assert w == [w[0]] + w[1..];
  }

  lemma SplitHead(w: string, b: string)
    requires w != []
    ensures w + b == [w[0]] + (w[1..] + b)
  {
    assert w == [w[0]] + w[1..];
  }

  lemma RewriteEmpty()
    ensures Rewrite([]) == []
  {
  }

  lemma RewriteConsPlain(c: char, t: string)
    requires IsPlain(c)
    ensures Rewrite([c] + t) == [c] + Rewrite(t)
  {
    assert [c] + t == [] + [c] + t;
    RewriteAround([], c, t);
    RewriteEmpty();
  }

  lemma {:induction false} RewritePlainPrefix(w: string, y: string)
    requires AllPlain(w)
    ensures Rewrite(w + y) == w + Rewrite(y)
    decreases |w|
  {
    if w == [] {
      assert w + y == y;
    } else {
      SplitHead(w, y);
      RewriteConsPlain(w[0], w[1..] + y);
      RewritePlainPrefix(w[1..], y);
      SplitHead(w, Rewrite(y));
    }
  }

  lemma RewriteAroundWord(x: string, w: string, y: string)
    requires w != [] && AllPlain(w)
    ensures Rewrite(x + w + y) == Rewrite(x) + w + Rewrite(y)
  {
    SplitFirst(x, w, y);
    RewriteAround(x, w[0], w[1..] + y);
    RewritePlainPrefix(w[1..], y);
    SplitFirst(Rewrite(x), w, Rewrite(y));
  }

  lemma {:induction false} StripLeftAroundWord(x: string, w: string, y: string)
    requires w != [] && !IsSpace(w[0])
    ensures StripLeft(x + w + y) == StripLeft(x) + w + y
    decreases |x|
  {
    var s := x + w + y;
    if x == [] {
      assert s == w + y && s[0] == w[0];
    } else if IsSpace(x[0]) {
      assert s[1..] == x[1..] + w + y;
      StripLeftAroundWord(x[1..], w, y);
    } else {
      assert s[0] == x[0];
    }
  }

  lemma DropLastAround(x: string, w: string, y: string)
    requires y != []
    ensures (x + w + y)[..|x + w + y| - 1] == x + w + y[..|y| - 1]
    ensures (x + w + y)[|x + w + y| - 1] == y[|y| - 1]
  {
    assert y == y[..|y| - 1] + [y[|y| - 1]];
  }

  lemma {:induction false} StripRightAroundWord(x: string, w: string, y: string)
    requires w != [] && !IsSpace(w[|w| - 1])
    ensures StripRight(x + w + y) == x + w + StripRight(y)
    decreases |y|
  {
    var s := x + w + y;
    if y == [] {
      assert s == x + w && s[|s| - 1] == w[|w| - 1];
    } else {
      DropLastAround(x, w, y);
      if IsSpace(y[|y| - 1]) {
        StripRightAroundWord(x, w, y[..|y| - 1]);
      }
    }
  }

  /** `strip()` leaves a word alone when it starts and ends with a non-space. */
  lemma StripAroundWord(x: string, w: string, y: string)
    requires w != [] && !IsSpace(w[0]) && !IsSpace(w[|w| - 1])
    ensures Strip(x + w + y) == StripLeft(x) + w + StripRight(y)
  {
    StripRightAroundWord(x, w, y);
    StripLeftAroundWord(x, w, StripRight(y));
  }

  /**
   * A run of plain characters (letters, digits, most symbols) in the input survives
   * sanitising intact: the output still contains it.
   */
  lemma CleanKeepsPlainInfix(x: string, w: string, y: string)
    requires w != [] && AllPlain(w)
    ensures Contains(Clean(x + w + y), w)
  {
    var X, Y := Rewrite(x), Rewrite(y);
    assert Rewrite(x + w + y) == X + w + Y by { RewriteAroundWord(x, w, y); }
    assert Strip(X + w + Y) == StripLeft(X) + w + StripRight(Y) by {
      assert IsPlain(w[0]) && IsPlain(w[|w| - 1]);
      StripAroundWord(X, w, Y);
    }
    ContainsInfix(StripLeft(X), w, StripRight(Y));
  }
}
