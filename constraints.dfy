/**
 * The meaning of the Bean Validation annotations used on the entities and forms
 * (`@NotBlank`, `@Size`, `@Length`, `@Min`, `@Pattern`), and a recogniser for the
 * code pattern `^[a-zA-Z]+(-[a-zA-Z]+)*$` proved equal to two independent
 * definitions of that language: one character by character, one following the
 * structure of the regular expression.
 */
module Constraints {
  import opened Wrappers

  /** A Java `String` field, which may be null. */
  type Text = Option<string>

  /** `String.trim` removes the characters up to U+0020 from both ends. */
  predicate IsTrimmed(c: char)
  {
    c <= ' '
  }

  /** `@NotBlank`: not null, and something is left after trimming. */
  predicate NotBlank(t: Text)
  {
    t.Some? && exists i :: 0 <= i < |t.value| && !IsTrimmed(t.value[i])
  }

  /** `@Size(min, max)` and `@Length(min, max)`: a null value is valid. */
  predicate SizeBetween(t: Text, min: nat, max: nat)
  {
    t.None? || min <= |t.value| <= max
  }

  /** `@Pattern(regexp = "^[a-zA-Z]+(-[a-zA-Z]+)*$")`: a null value is valid. */
  predicate MatchesCodePattern(t: Text)
  {
    t.None? || IsCode(t.value)
  }

  lemma NotBlankNotNull(t: Text)
    requires NotBlank(t)
    ensures t.Some? && |t.value| > 0
  {
  }

  /** The empty string and whitespace-only strings are blank. */
  lemma WhitespaceIsBlank(s: string)
    requires forall i :: 0 <= i < |s| ==> s[i] in {' ', '\t', '\n', '\r'}
    ensures !NotBlank(Some(s))
  {
  }

  predicate IsAsciiLetter(c: char)
  {
    'a' <= c <= 'z' || 'A' <= c <= 'Z'
  }

  /**
   * The recogniser: a two-state automaton reading `s` from position `i` to the end.
   * `afterLetter` says whether the character read last was a letter; a hyphen is
   * accepted only there, a letter anywhere, and the input must end after a letter.
   */
  predicate Scan(s: string, i: nat, afterLetter: bool)
    requires i <= |s|
    decreases |s| - i
  {
    if i == |s| then afterLetter
    else if IsAsciiLetter(s[i]) then Scan(s, i + 1, true)
    else s[i] == '-' && afterLetter && Scan(s, i + 1, false)
  }

  /** Whether `s` as a whole matches `^[a-zA-Z]+(-[a-zA-Z]+)*$`. */
  predicate IsCode(s: string)
  {
    Scan(s, 0, false)
  }

  /**
   * The pattern described character by character: non-empty, only ASCII letters
   * and hyphens, starting and ending with a letter, and no hyphen directly after
   * another.
   */
  ghost predicate WellFormedCode(s: string)
  {
    && |s| > 0
    && (forall i :: 0 <= i < |s| ==> IsAsciiLetter(s[i]) || s[i] == '-')
    && IsAsciiLetter(s[0])
    && IsAsciiLetter(s[|s| - 1])
    && (forall i :: 0 <= i < |s| - 1 && s[i] == '-' ==> s[i + 1] != '-')
  }

  /** Prepending a letter `c` to `t` gives a well-formed code exactly in these cases. */
  lemma WellFormedAfterLetter(c: char, t: string)
    requires IsAsciiLetter(c)
    ensures WellFormedCode([c] + t) <==>
              (t == [] || WellFormedCode(t) || (t[0] == '-' && WellFormedCode(t[1..])))
  {
    var s := [c] + t;
    assert forall i :: 1 <= i < |s| ==> s[i] == t[i - 1];
    if t != [] && IsAsciiLetter(t[0]) {
      if WellFormedCode(t) {
        forall i | 0 <= i < |s| - 1 && s[i] == '-'
          ensures s[i + 1] != '-'
        {
          assert i >= 1 && s[i] == t[i - 1] && s[i + 1] == t[i];
        }
      }
      if WellFormedCode(s) {
        forall i | 0 <= i < |t|
          ensures IsAsciiLetter(t[i]) || t[i] == '-'
        {
          assert s[i + 1] == t[i];
        }
        forall i | 0 <= i < |t| - 1 && t[i] == '-'
          ensures t[i + 1] != '-'
        {
          assert s[i + 1] == t[i] && s[i + 2] == t[i + 1];
        }
        assert t[|t| - 1] == s[|s| - 1];
      }
    } else if t != [] && t[0] == '-' {
      var u := t[1..];
      assert forall i :: 2 <= i < |s| ==> s[i] == u[i - 2];
      if WellFormedCode(s) {
        assert |s| >= 3;
        assert s[1] == t[0] == '-';
        assert 0 <= 1 < |s| - 1 && s[1] == '-';
        assert s[2] != '-';
        forall i | 0 <= i < |u|
          ensures IsAsciiLetter(u[i]) || u[i] == '-'
        {
          assert u[i] == s[i + 2];
        }
        forall i | 0 <= i < |u| - 1 && u[i] == '-'
          ensures u[i + 1] != '-'
        {
          assert u[i] == s[i + 2] && u[i + 1] == s[i + 3];
        }
        assert u[|u| - 1] == s[|s| - 1];
        assert WellFormedCode(u);
      }
      if WellFormedCode(u) {
        forall i | 0 <= i < |s|
          ensures IsAsciiLetter(s[i]) || s[i] == '-'
        {
          if i >= 2 {
            assert s[i] == u[i - 2];
          }
        }
        forall i | 0 <= i < |s| - 1 && s[i] == '-'
          ensures s[i + 1] != '-'
        {
          if i == 1 {
            assert s[2] == u[0];
          } else {
            assert i >= 2 && s[i] == u[i - 2] && s[i + 1] == u[i - 1];
          }
        }
        assert s[|s| - 1] == u[|u| - 1];
      }
    } else if t != [] {
      assert !WellFormedCode(s) by {
        assert s[1] == t[0];
      }
    }
  }

  /** What the automaton accepts from each of its two states. */
  lemma {:induction false} ScanAccepts(s: string, i: nat)
    requires i <= |s|
    ensures Scan(s, i, false) <==> WellFormedCode(s[i..])
    ensures Scan(s, i, true) <==> (i == |s| || WellFormedCode(s[i..]) || (s[i] == '-' && WellFormedCode(s[i + 1..])))
    decreases |s| - i
  {
    if i < |s| {
      ScanAccepts(s, i + 1);
      assert s[i..] == [s[i]] + s[i + 1..];
      if IsAsciiLetter(s[i]) {
        WellFormedAfterLetter(s[i], s[i + 1..]);
        if i + 1 < |s| {
          assert s[i + 1..][1..] == s[i + 2..];
        }
      }
    }
  }

  /** The recogniser is correct: it accepts exactly the well-formed codes. */
  lemma IsCodeCorrect(s: string)
    ensures IsCode(s) <==> WellFormedCode(s)
  {
    ScanAccepts(s, 0);
    assert s[0..] == s;
  }

  /** An accepted code contains no digit, space or other symbol. */
  lemma CodeHasOnlyLettersAndHyphens(s: string, i: int)
    requires IsCode(s) && 0 <= i < |s|
    ensures IsAsciiLetter(s[i]) || s[i] == '-'
    ensures s[i] != ' ' && !('0' <= s[i] <= '9')
  {
    IsCodeCorrect(s);
  }

  /** A leading or trailing hyphen, and a doubled hyphen, are rejected. */
  lemma HyphensOnlyInside(s: string)
    ensures |s| > 0 && (s[0] == '-' || s[|s| - 1] == '-') ==> !IsCode(s)
    ensures (exists i :: 0 <= i < |s| - 1 && s[i] == '-' && s[i + 1] == '-') ==> !IsCode(s)
  {
    IsCodeCorrect(s);
  }

  /** A code is never blank, so `@NotBlank` adds nothing to `@Pattern` on a present value. */
  lemma CodeIsNotBlank(s: string)
    requires IsCode(s)
    ensures NotBlank(Some(s))
  {
    IsCodeCorrect(s);
    assert !IsTrimmed(s[0]);
  }

  /** Two codes joined by one hyphen form a code. */
  lemma JoinCodes(a: string, b: string)
    requires IsCode(a) && IsCode(b)
    ensures IsCode(a + "-" + b)
  {
    IsCodeCorrect(a);
    IsCodeCorrect(b);
    var s := a + "-" + b;
    assert forall i :: 0 <= i < |a| ==> s[i] == a[i];
    assert s[|a|] == '-';
    assert forall i :: |a| < i < |s| ==> s[i] == b[i - |a| - 1];
    IsCodeCorrect(s);
  }

  // The pattern's own structure: `[a-zA-Z]+` followed by any number of `-[a-zA-Z]+`.

  /** `[a-zA-Z]+` */
  ghost predicate Word(w: string)
  {
    |w| > 0 && forall i :: 0 <= i < |w| ==> IsAsciiLetter(w[i])
  }

  /** `(-[a-zA-Z]+)*` */
  ghost predicate HyphenWords(s: string)
    decreases |s|
  {
    s == [] || (s[0] == '-' && exists k :: 1 < k <= |s| && Word(s[1..k]) && HyphenWords(s[k..]))
  }

  /** `[a-zA-Z]+(-[a-zA-Z]+)*` */
  ghost predicate PatternLanguage(s: string)
  {
    exists k :: 0 < k <= |s| && Word(s[..k]) && HyphenWords(s[k..])
  }

  /** Dropping the first letter of a word of two or more letters leaves a word. */
  lemma WordTail(s: string, k: nat)
    requires 1 < k <= |s| && Word(s[..k])
    ensures Word(s[1..k])
  {
    var w, v := s[1..k], s[..k];
    forall i | 0 <= i < |w|
      ensures IsAsciiLetter(w[i])
    {
      assert w[i] == v[i + 1];
    }
  }

  /** A letter followed by nothing or by a word is a word. */
  lemma WordCons(s: string, k: nat)
    requires 1 <= k <= |s| && IsAsciiLetter(s[0]) && (k == 1 || Word(s[1..k]))
    ensures Word(s[..k])
  {
    var w := s[..k];
    forall i | 0 <= i < |w|
      ensures IsAsciiLetter(w[i])
    {
      if i > 0 {
        assert w[i] == s[1..k][i - 1];
      }
    }
  }

  /** A letter followed by `t` is in the language iff `t` is `(-[a-zA-Z]+)*` or in the language. */
  lemma PatternAfterLetter(s: string)
    requires |s| > 0 && IsAsciiLetter(s[0])
    ensures PatternLanguage(s) <==> HyphenWords(s[1..]) || PatternLanguage(s[1..])
  {
    var t := s[1..];
    if PatternLanguage(s) {
      var k :| 0 < k <= |s| && Word(s[..k]) && HyphenWords(s[k..]);
      if k == 1 {
        assert s[k..] == t;
      } else {
        WordTail(s, k);
        assert t[..k - 1] == s[1..k] && t[k - 1..] == s[k..];
      }
    }
    if HyphenWords(t) {
      WordCons(s, 1);
      assert s[1..] == t;
    } else if PatternLanguage(t) {
      var j :| 0 < j <= |t| && Word(t[..j]) && HyphenWords(t[j..]);
      assert s[1..j + 1] == t[..j] && s[j + 1..] == t[j..];
      WordCons(s, j + 1);
    }
  }

  /** A hyphen followed by `t` is `(-[a-zA-Z]+)*` iff `t` is in the language. */
  lemma HyphenWordsAfterHyphen(s: string)
    requires |s| > 0 && s[0] == '-'
    ensures HyphenWords(s) <==> PatternLanguage(s[1..])
  {
    var t := s[1..];
    if HyphenWords(s) {
      var k :| 1 < k <= |s| && Word(s[1..k]) && HyphenWords(s[k..]);
      assert t[..k - 1] == s[1..k] && t[k - 1..] == s[k..];
    }
    if PatternLanguage(t) {
      var j :| 0 < j <= |t| && Word(t[..j]) && HyphenWords(t[j..]);
      assert s[1..j + 1] == t[..j] && s[j + 1..] == t[j..];
    }
  }

  /** A string starting with anything but a letter is not in the language. */
  lemma PatternStartsWithLetter(s: string)
    requires s != [] && !IsAsciiLetter(s[0])
    ensures !PatternLanguage(s)
  {
    if PatternLanguage(s) {
      var k :| 0 < k <= |s| && Word(s[..k]) && HyphenWords(s[k..]);
    }
  }

  /** The automaton's two states accept the pattern and, after a letter, also `(-[a-zA-Z]+)*`. */
  lemma {:induction false} ScanMatchesPattern(s: string, i: nat)
    requires i <= |s|
    ensures Scan(s, i, false) <==> PatternLanguage(s[i..])
    ensures Scan(s, i, true) <==> HyphenWords(s[i..]) || PatternLanguage(s[i..])
    decreases |s| - i
  {
    if i == |s| {
      assert !PatternLanguage(s[i..]);
    } else {
      ScanMatchesPattern(s, i + 1);
      var t := s[i..];
      assert t[0] == s[i] && t[1..] == s[i + 1..];
      if IsAsciiLetter(s[i]) {
        PatternAfterLetter(t);
      } else {
        PatternStartsWithLetter(t);
        if s[i] == '-' {
          HyphenWordsAfterHyphen(t);
        }
      }
    }
  }

  /** The recogniser accepts exactly the strings of `^[a-zA-Z]+(-[a-zA-Z]+)*$`. */
  lemma IsCodeMatchesPattern(s: string)
    ensures IsCode(s) <==> PatternLanguage(s)
  {
    ScanMatchesPattern(s, 0);
    assert s[0..] == s;
  }
}
