/**
 The four fixed regular expressions of the prescoring check, written as
 character-class predicates. `String.matches` anchors a pattern at both ends, so
 each predicate describes the whole string.
 */
module Patterns {

  predicate IsLatinLetter(c: char) {
    'a' <= c <= 'z' || 'A' <= c <= 'Z'
  }

  predicate IsDigit(c: char) {
    '0' <= c <= '9'
  }

  /** The class `[\w\.]`: Java's default `\w` is `[a-zA-Z_0-9]`. */
  predicate IsEmailChar(c: char) {
    IsLatinLetter(c) || IsDigit(c) || c == '_' || c == '.'
  }

  /** A class repeated `{lo,hi}` times, anchored at both ends, read the way a matcher
      walks it: one character of the class per step, at least `lo` and at most `hi`
      steps, and nothing left over. */
  predicate MatchesRepeat(cls: char -> bool, lo: nat, hi: nat, s: string)
    decreases |s|
  {
    if |s| == 0 then lo == 0
    else hi > 0 && cls(s[0]) && MatchesRepeat(cls, if lo > 0 then lo - 1 else 0, hi - 1, s[1..])
  }

  /** The stepwise matcher accepts exactly the strings of `lo` to `hi` characters, all
      in the class. */
  lemma {:induction false} MatchesRepeatIff(cls: char -> bool, lo: nat, hi: nat, s: string)
    ensures MatchesRepeat(cls, lo, hi, s) <==> lo <= |s| <= hi && forall i :: 0 <= i < |s| ==> cls(s[i])
    decreases |s|
  {
    if |s| > 0 {
      var lo' := if lo > 0 then lo - 1 else 0;
      if hi > 0 {
        MatchesRepeatIff(cls, lo', hi - 1, s[1..]);
        assert forall i :: 1 <= i < |s| ==> s[i] == s[1..][i - 1];
      }
    }
  }

  /** `[a-zA-Z]{2,30}` (the leading `^` of the service's pattern changes nothing under
      `matches`). */
  predicate IsName(s: string) {
    2 <= |s| <= 30 && forall i :: 0 <= i < |s| ==> IsLatinLetter(s[i])
  }

  /** The name check accepts exactly what the stepwise matcher of `[a-zA-Z]{2,30}` accepts. */
  lemma IsNameMatches(s: string)
    ensures IsName(s) <==> MatchesRepeat(IsLatinLetter, 2, 30, s)
  {
    MatchesRepeatIff(IsLatinLetter, 2, 30, s);
  }

  /** `[\w\.]{lo,hi}`. */
  predicate IsEmailRun(s: string, lo: nat, hi: nat) {
    lo <= |s| <= hi && forall i :: 0 <= i < |s| ==> IsEmailChar(s[i])
  }

  /** `[0-9]{n}`. */
  predicate IsDigits(s: string, n: nat) {
    |s| == n && forall i :: 0 <= i < |s| ==> IsDigit(s[i])
  }

  /** The digit check accepts exactly what the stepwise matcher of `[0-9]{n}` accepts. */
  lemma IsDigitsMatches(s: string, n: nat)
    ensures IsDigits(s, n) <==> MatchesRepeat(IsDigit, n, n, s)
  {
    MatchesRepeatIff(IsDigit, n, n, s);
  }

  /** Each run of the email check accepts exactly what the stepwise matcher of
      `[\w\.]{lo,hi}` accepts. */
  lemma IsEmailRunMatches(s: string, lo: nat, hi: nat)
    ensures IsEmailRun(s, lo, hi) <==> MatchesRepeat(IsEmailChar, lo, hi, s)
  {
    MatchesRepeatIff(IsEmailChar, lo, hi, s);
  }

  /** Position of the first `c` in `s`, or -1. */
  function IndexOf(s: string, c: char): (k: int)
    ensures -1 <= k < |s|
    ensures k == -1 <==> c !in s
    ensures k >= 0 ==> s[k] == c && c !in s[..k]
  {
    if |s| == 0 then -1
    else if s[0] == c then 0
    else
      var k := IndexOf(s[1..], c);
      assert s[1..][..(if k < 0 then 0 else k)] == s[1..(if k < 0 then 1 else k + 1)];
      if k == -1 then -1 else k + 1
  }

  /** `IndexOf` finds the first occurrence. */
  lemma IndexOfFirst(s: string, c: char, k: int)
    requires 0 <= k < |s| && s[k] == c && c !in s[..k]
    ensures IndexOf(s, c) == k
  {
  }

  /** The email pattern `[\w\.]{2,50}@[\w\.]{2,20}` as a matcher would try it:
      some `@` splits the string into two runs of the class. */
  ghost predicate MatchesEmailPattern(s: string) {
    exists k :: 0 <= k < |s| && s[k] == '@' && IsEmailRun(s[..k], 2, 50) && IsEmailRun(s[k + 1..], 2, 20)
  }

  /** The email check, deciding the split at the first `@` (the class excludes `@`,
      so no other split can match). */
  predicate IsEmail(s: string) {
    var k := IndexOf(s, '@');
    k >= 0 && IsEmailRun(s[..k], 2, 50) && IsEmailRun(s[k + 1..], 2, 20)
  }

  /** The deterministic check accepts exactly the strings the pattern matches. */
  lemma IsEmailMatchesPattern(s: string)
    ensures IsEmail(s) <==> MatchesEmailPattern(s)
  {
    var first := IndexOf(s, '@');
    if IsEmail(s) {
      assert s[first] == '@';
    }
    if MatchesEmailPattern(s) {
      var k :| 0 <= k < |s| && s[k] == '@' && IsEmailRun(s[..k], 2, 50) && IsEmailRun(s[k + 1..], 2, 20);
      assert !IsEmailChar('@');
      assert '@' !in s[..k];
      IndexOfFirst(s, '@', k);
    }
  }
}
