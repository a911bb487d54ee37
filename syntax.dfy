/**
 * The syntax check of the validator: a hand-written character-level
 * recogniser for the language of
 *
 *     ^[a-zA-Z0-9._%+-]+@[a-zA-Z0-9.-]+\.[a-zA-Z]{2,}$
 *
 * under Python's `re.match`, where `$` matches at the very end of the
 * string and also just before a single final newline. The pattern is much
 * narrower than the addr-spec grammar of section 3.4.1 of RFC 5322; the
 * model follows the pattern.
 */
module EmailSyntax {
  import opened PyStrings

  predicate IsAsciiLetter(c: char) { 'a' <= c <= 'z' || 'A' <= c <= 'Z' }

  predicate IsAsciiDigit(c: char) { '0' <= c <= '9' }

  /** The class `[a-zA-Z0-9._%+-]` of the local part. */
  predicate IsLocalChar(c: char)
  {
    IsAsciiLetter(c) || IsAsciiDigit(c) || c == '.' || c == '_' || c == '%' || c == '+' || c == '-'
  }

  /** The class `[a-zA-Z0-9.-]` of the domain. */
  predicate IsDomainChar(c: char)
  {
    IsAsciiLetter(c) || IsAsciiDigit(c) || c == '.' || c == '-'
  }

  /** Every character of `s` belongs to the class `p`. */
  ghost predicate All(s: string, p: char -> bool)
  {
    forall k :: 0 <= k < |s| ==> p(s[k])
  }

  // ---------------------------------------------------------------------
  // The recogniser

  /** The first position at or after `i` whose character is not in `p`. */
  function Span(s: string, i: nat, p: char -> bool): (k: nat)
    requires i <= |s|
    ensures i <= k <= |s|
    ensures forall m :: i <= m < k ==> p(s[m])
    ensures k < |s| ==> !p(s[k])
    decreases |s| - i
  {
    if i < |s| && p(s[i]) then Span(s, i + 1, p) else i
  }

  /** The position of the last '.' in `s`, or -1 when there is none. */
  function LastDot(s: string): (k: int)
    ensures -1 <= k < |s|
    ensures 0 <= k ==> s[k] == '.'
    ensures forall m :: k < m < |s| ==> s[m] != '.'
  {
    if s == [] then -1
    else if s[|s| - 1] == '.' then |s| - 1
    else LastDot(s[..|s| - 1])
  }

  /**
   * Recognises `[a-zA-Z0-9.-]+\.[a-zA-Z]{2,}`: only domain characters,
   * and a last '.' that is not the first character and is followed by at
   * least two letters and nothing else.
   */
  function DomainAccepted(d: string): bool
  {
    var k := LastDot(d);
    1 <= k && k + 3 <= |d| && Span(d, 0, IsDomainChar) == |d| && Span(d, k + 1, IsAsciiLetter) == |d|
  }

  /** Recognises the pattern between the anchors, over the whole of `t`. */
  function BodyAccepted(t: string): bool
  {
    var i := Span(t, 0, IsLocalChar);
    0 < i < |t| && t[i] == '@' && DomainAccepted(t[i + 1..])
  }

  /** `is_syntactic_valid(email)`: the pattern matches, with `$` tolerating one final newline. */
  function IsSyntacticValid(email: string): bool
  {
    BodyAccepted(email)
    || (|email| > 0 && email[|email| - 1] == '\n' && BodyAccepted(email[..|email| - 1]))
  }

  // ---------------------------------------------------------------------
  // The regular expression, as a reference

  /**
   * `t` is `L+ @ D+ \. A{2,}` with the '@' at `i` and the final '\.' at `j`:
   * the concatenation of the pattern's five pieces.
   */
  ghost predicate PatternSplit(t: string, i: int, j: int)
  {
    && 0 < i && i + 1 < j && j + 2 < |t|
    && t[i] == '@' && t[j] == '.'
    && All(t[..i], IsLocalChar)
    && All(t[i + 1..j], IsDomainChar)
    && All(t[j + 1..], IsAsciiLetter)
  }

  /** The pattern between `^` and `$` matches the whole of `t`. */
  ghost predicate MatchesPattern(t: string)
  {
    exists i, j :: PatternSplit(t, i, j)
  }

  /** `re.match(EMAIL_REGEX, s) is not None`. */
  ghost predicate RegexMatches(s: string)
  {
    MatchesPattern(s) || (|s| > 0 && s[|s| - 1] == '\n' && MatchesPattern(s[..|s| - 1]))
  }

  /** The recogniser and the pattern agree on the string between the anchors. */
  lemma BodyAcceptedIsPattern(t: string)
    ensures BodyAccepted(t) <==> MatchesPattern(t)
  {
    if BodyAccepted(t) {
      var i := Span(t, 0, IsLocalChar);
      var d := t[i + 1..];
      var k := LastDot(d);
      var j := i + 1 + k;
      assert t[j] == d[k];
      assert All(t[..i], IsLocalChar);
      assert All(t[i + 1..j], IsDomainChar) by {
        assert t[i + 1..j] == d[..k];
      }
      assert All(t[j + 1..], IsAsciiLetter) by {
        assert t[j + 1..] == d[k + 1..];
      }
      assert PatternSplit(t, i, j);
    }
    if MatchesPattern(t) {
      var i, j :| PatternSplit(t, i, j);
      PatternSplitIsRecognised(t, i, j);
    }
  }

  /** A scan over characters that all pass runs to the end. */
  lemma SpanReachesEnd(s: string, i: nat, p: char -> bool)
    requires i <= |s| && forall m :: i <= m < |s| ==> p(s[m])
    ensures Span(s, i, p) == |s|
  {
  }

  /** A scan stops at the first character that fails. */
  lemma SpanStopsAt(s: string, i: nat, k: nat, p: char -> bool)
    requires i <= k < |s| && !p(s[k]) && forall m :: i <= m < k ==> p(s[m])
    ensures Span(s, i, p) == k
  {
  }

  /** A '.' with no '.' after it is the last one. */
  lemma LastDotIs(d: string, k: nat)
    requires k < |d| && d[k] == '.' && forall m :: k < m < |d| ==> d[m] != '.'
    ensures LastDot(d) == k
  {
  }

  /** The part after the '@' of a pattern split is an accepted domain. */
  lemma PatternDomainIsRecognised(t: string, i: int, j: int)
    requires PatternSplit(t, i, j)
    ensures DomainAccepted(t[i + 1..])
  {
    var d := t[i + 1..];
    var k := j - i - 1;
    assert d[k] == '.';
    forall m | k < m < |d| ensures IsAsciiLetter(d[m]) {
      assert d[m] == t[j + 1..][m - k - 1];
    }
    LastDotIs(d, k);
    forall m | 0 <= m < |d| ensures IsDomainChar(d[m]) {
      if m < k { assert d[m] == t[i + 1..j][m]; }
    }
    SpanReachesEnd(d, 0, IsDomainChar);
    SpanReachesEnd(d, k + 1, IsAsciiLetter);
  }

  /** Any split that matches the pattern is the one the recogniser finds. */
  lemma PatternSplitIsRecognised(t: string, i: int, j: int)
    requires PatternSplit(t, i, j)
    ensures BodyAccepted(t)
  {
    forall m | 0 <= m < i ensures IsLocalChar(t[m]) {
      assert t[..i][m] == t[m];
    }
    SpanStopsAt(t, 0, i, IsLocalChar);
    PatternDomainIsRecognised(t, i, j);
  }

  /** The recogniser decides exactly the language of `EMAIL_REGEX` under `re.match`. */
  lemma SyntacticValidIsRegexMatch(s: string)
    ensures IsSyntacticValid(s) <==> RegexMatches(s)
  {
    BodyAcceptedIsPattern(s);
    if |s| > 0 {
      BodyAcceptedIsPattern(s[..|s| - 1]);
    }
  }

  // ---------------------------------------------------------------------
  // The accepted language, stated through `str.split`

  /** `s` without one final newline, if it has one: what `$` lets the pattern ignore. */
  function DropFinalNewline(s: string): string
  {
    if |s| > 0 && s[|s| - 1] == '\n' then s[..|s| - 1] else s
  }

  /**
   * The shape the pattern describes: exactly one '@'; before it a
   * non-empty run of local characters; after it only domain characters,
   * whose last '.' is not the first one and is followed by two or more
   * ASCII letters and nothing else.
   */
  ghost predicate AddressShaped(t: string)
  {
    var parts := Split(t, '@');
    && |parts| == 2
    && parts[0] != []
    && All(parts[0], IsLocalChar)
    && All(parts[1], IsDomainChar)
    && var k := LastDot(parts[1]);
       1 <= k && k + 3 <= |parts[1]| && All(parts[1][k + 1..], IsAsciiLetter)
  }

  /** A string that ends in a newline is never accepted by the recogniser without the `$` allowance. */
  lemma AcceptedEndsInLetter(t: string)
    requires BodyAccepted(t)
    ensures |t| > 0 && IsAsciiLetter(t[|t| - 1])
  {
    var i := Span(t, 0, IsLocalChar);
    var d := t[i + 1..];
    assert d[|d| - 1] == t[|t| - 1];
  }

  /** Python's `$` tolerance: the check accepts `s` exactly when the recogniser accepts `s` minus one final newline. */
  lemma NewlineTolerance(s: string)
    ensures IsSyntacticValid(s) == BodyAccepted(DropFinalNewline(s))
  {
    if BodyAccepted(s) {
      AcceptedEndsInLetter(s);
    }
  }

  /** In an accepted string the '@' the recogniser stops at is the only one. */
  lemma AcceptedAtIsUnique(t: string)
    requires BodyAccepted(t)
    ensures var i := Span(t, 0, IsLocalChar);
      i < |t| && t[i] == '@' && '@' !in t[..i] && '@' !in t[i + 1..]
  {
    var i := Span(t, 0, IsLocalChar);
    var p, d := t[..i], t[i + 1..];
    assert '@' !in p by {
      forall m | 0 <= m < |p| ensures p[m] != '@' { assert IsLocalChar(t[m]); }
    }
    assert '@' !in d by {
      forall m | 0 <= m < |d| ensures d[m] != '@' { assert IsDomainChar(d[m]); }
    }
  }

  /** An accepted string splits at its '@' into the local part and the domain. */
  lemma AcceptedSplit(t: string)
    requires BodyAccepted(t)
    ensures var i := Span(t, 0, IsLocalChar); Split(t, '@') == [t[..i], t[i + 1..]]
  {
    AcceptedAtIsUnique(t);
    var i := Span(t, 0, IsLocalChar);
    SplitAtUnique(t, i);
  }

  /** A string with a single '@', at `i`, splits into the pieces around it. */
  lemma SplitAtUnique(t: string, i: nat)
    requires i < |t| && t[i] == '@' && '@' !in t[..i] && '@' !in t[i + 1..]
    ensures Split(t, '@') == [t[..i], t[i + 1..]]
  {
    assert t == t[..i] + ['@'] + t[i + 1..];
    SplitAfterPiece(t[..i], '@', t[i + 1..]);
  }

  lemma AcceptedIsAddressShaped(t: string)
    requires BodyAccepted(t)
    ensures AddressShaped(t)
  {
    AcceptedSplit(t);
    var i := Span(t, 0, IsLocalChar);
    var d := t[i + 1..];
    var k := LastDot(d);
    var tld := d[k + 1..];
    assert All(tld, IsAsciiLetter) by {
      forall m | 0 <= m < |tld| ensures IsAsciiLetter(tld[m]) {
        assert tld[m] == d[k + 1 + m];
      }
    }
  }

  lemma AddressShapedIsAccepted(t: string)
    requires AddressShaped(t)
    ensures BodyAccepted(t)
  {
    var parts := Split(t, '@');
    var p, d := parts[0], parts[1];
    JoinSplit(t, '@');
    assert t == p + ['@'] + d;
    var i, k := |p|, LastDot(d);
    var j := i + 1 + k;
    assert t[..i] == p && t[i + 1..j] == d[..k] && t[j + 1..] == d[k + 1..];
    assert t[i] == '@' && t[j] == d[k];
    assert PatternSplit(t, i, j);
    PatternSplitIsRecognised(t, i, j);
  }

  /** The accepted language, in the terms of the pattern's pieces. */
  lemma SyntaxCharacterization(s: string)
    ensures IsSyntacticValid(s) <==> AddressShaped(DropFinalNewline(s))
  {
    NewlineTolerance(s);
    var t := DropFinalNewline(s);
    if BodyAccepted(t) {
      AcceptedIsAddressShaped(t);
    }
    if AddressShaped(t) {
      AddressShapedIsAccepted(t);
    }
  }

  /**
   * Whenever the check passes, `email.split('@')` has exactly two pieces:
   * taking the domain as piece 1 is well defined, the domain has no '@',
   * and the address has exactly one '@'.
   */
  lemma SplitWellDefined(s: string)
    requires IsSyntacticValid(s)
    ensures |Split(s, '@')| == 2 && Count(s, '@') == 1
    ensures Split(s, '@')[0] != [] && '@' !in Split(s, '@')[1]
  {
    NewlineTolerance(s);
    var t := DropFinalNewline(s);
    AcceptedAtIsUnique(t);
    var i := Span(t, 0, IsLocalChar);
    UniqueAtKeepsNewline(s, i);
    SplitAtUnique(s, i);
    SplitLength(s, '@');
  }

  /** A unique '@' stays unique when the tolerated final newline is put back. */
  lemma UniqueAtKeepsNewline(s: string, i: nat)
    requires var t := DropFinalNewline(s);
      i < |t| && t[i] == '@' && '@' !in t[..i] && '@' !in t[i + 1..]
    ensures i < |s| && s[i] == '@' && '@' !in s[..i] && '@' !in s[i + 1..]
  {
    var t := DropFinalNewline(s);
    assert s[..i] == t[..i];
    if t != s {
      assert s[i + 1..] == t[i + 1..] + ['\n'];
    }
  }

  /** The check never errors, and rejects the empty string and strings without an '@'. */
  lemma RejectsWithoutAt(s: string)
    requires '@' !in s
    ensures !IsSyntacticValid(s)
  {
    if IsSyntacticValid(s) {
      SplitWellDefined(s);
    }
  }

  /** Strings with several '@' are rejected. */
  lemma RejectsSeveralAt(s: string)
    requires Count(s, '@') >= 2
    ensures !IsSyntacticValid(s)
  {
    if IsSyntacticValid(s) {
      SplitWellDefined(s);
    }
  }

  /** A final label of one character (the last '.' second to last) is rejected. */
  lemma RejectsOneLetterFinalLabel(s: string)
    requires |s| >= 2 && s[|s| - 2] == '.'
    ensures !IsSyntacticValid(s)
  {
    NewlineTolerance(s);
  }

  /** Assembling an address from pieces of the pattern's classes gives an accepted one. */
  lemma AcceptsAssembled(local: string, host: string, tld: string)
    requires local != [] && All(local, IsLocalChar)
    requires host != [] && All(host, IsDomainChar)
    requires |tld| >= 2 && All(tld, IsAsciiLetter)
    ensures IsSyntacticValid(local + "@" + host + "." + tld)
  {
    var t := local + "@" + host + "." + tld;
    var i, j := |local|, |local| + 1 + |host|;
    assert t[..i] == local && t[i + 1..j] == host && t[j + 1..] == tld;
    assert PatternSplit(t, i, j);
    PatternSplitIsRecognised(t, i, j);
  }

  /** Unless the text before the tolerated newline ends in an ASCII letter, the check fails. */
  lemma RejectsUnlessLetterLast(s: string)
    requires var t := DropFinalNewline(s); t == [] || !IsAsciiLetter(t[|t| - 1])
    ensures !IsSyntacticValid(s)
  {
    NewlineTolerance(s);
    if BodyAccepted(DropFinalNewline(s)) {
      AcceptedEndsInLetter(DropFinalNewline(s));
    }
  }

  /** One trailing newline does not change the verdict: `a@b.co\n` passes exactly as `a@b.co` does. */
  lemma OneNewlineIgnored(t: string)
    requires t == [] || t[|t| - 1] != '\n'
    ensures IsSyntacticValid(t + "\n") == IsSyntacticValid(t)
  {
    NewlineTolerance(t + "\n");
    NewlineTolerance(t);
    assert (t + "\n")[..|t|] == t;
  }
}
