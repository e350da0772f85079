/**
 * The text normalizer `clean_text`: every run of one repeated character is
 * collapsed to a single copy, then every whitespace run becomes one space,
 * then the result is stripped.
 */
module Normalizer {
  import opened Chars

  /**
   * Pass one, `re.sub(r'(.)\1+', r'\1', text)`. The pattern matches at a
   * position when its character is not a newline (`.` does not match `\n`)
   * and the next character is the same; greedy `\1+` then takes the whole
   * run, which is replaced by one copy. Runs of newlines are copied as they are.
   */
  function CollapseRuns(s: string): string
    decreases |s|
  {
    if s == [] then []
    else
      var n := Run(s, 0, c => c == s[0]);
      if n >= 2 && s[0] != '\n' then [s[0]] + CollapseRuns(s[n..])
      else [s[0]] + CollapseRuns(s[1..])
  }

  /** Pass two, `re.sub(r'\s+', ' ', text)`: each maximal whitespace run becomes one space. */
  function SqueezeSpaces(s: string): string
    decreases |s|
  {
    if s == [] then []
    else if IsSpace(s[0]) then [' '] + SqueezeSpaces(s[Run(s, 0, IsSpace)..])
    else [s[0]] + SqueezeSpaces(s[1..])
  }

  /** `clean_text(text)` */
  function CleanText(text: string): string
  {
    Strip(SqueezeSpaces(CollapseRuns(text)))
  }

  /** No two neighbouring characters are equal. */
  predicate NoRepeats(s: string)
  {
    forall i :: 0 <= i < |s| - 1 ==> s[i] != s[i + 1]
  }

  /** Neighbouring characters are equal only where both are newlines. */
  predicate RepeatsOnlyNewlines(s: string)
  {
    forall i :: 0 <= i < |s| - 1 && s[i] == s[i + 1] ==> s[i] == '\n'
  }

  /** The only whitespace character in `s` is the plain space. */
  predicate SpacesOnly(s: string)
  {
    forall i :: 0 <= i < |s| && IsSpace(s[i]) ==> s[i] == ' '
  }

  /** `s` neither starts nor ends with whitespace. */
  predicate Trimmed(s: string)
  {
    s == [] || (!IsSpace(s[0]) && !IsSpace(s[|s| - 1]))
  }

  /** The normal form `clean_text` produces. */
  predicate IsClean(s: string)
  {
    NoRepeats(s) && SpacesOnly(s) && Trimmed(s)
  }

  /** After pass one only newline runs can still hold repeated characters. */
  lemma {:induction false} CollapseRunsRepeats(s: string)
    ensures |CollapseRuns(s)| == 0 <==> |s| == 0
    ensures s != [] ==> CollapseRuns(s)[0] == s[0]
    ensures RepeatsOnlyNewlines(CollapseRuns(s))
    decreases |s|
  {
    if s != [] {
      var n := Run(s, 0, c => c == s[0]);
      var rest := if n >= 2 && s[0] != '\n' then s[n..] else s[1..];
      CollapseRunsRepeats(rest);
      var r := CollapseRuns(s);
      var tail := CollapseRuns(rest);
      assert r == [s[0]] + tail;
      if tail != [] {
        assert tail[0] == rest[0];
        if n >= 2 && s[0] != '\n' {
          assert rest[0] == s[n] != s[0];
        } else if s[1] == s[0] {
          assert n >= 2;
        }
      }
      forall i | 0 <= i < |r| - 1 && r[i] == r[i + 1] ensures r[i] == '\n' {
        if i > 0 { assert r[i] == tail[i - 1] && r[i + 1] == tail[i]; }
      }
    }
  }

  lemma SuffixKeepsRepeats(s: string, k: nat)
    requires k <= |s| && RepeatsOnlyNewlines(s)
    ensures RepeatsOnlyNewlines(s[k..])
  {
    var t := s[k..];
    forall i | 0 <= i < |t| - 1 && t[i] == t[i + 1] ensures t[i] == '\n' {
      assert t[i] == s[k + i] && t[i + 1] == s[k + i + 1];
    }
  }

  /** Pass two keeps both properties when a fresh first character differs from the output that follows. */
  lemma ConsKeepsShape(head: char, tail: string)
    requires NoRepeats(tail) && SpacesOnly(tail)
    requires IsSpace(head) ==> head == ' '
    requires tail != [] ==> head != tail[0]
    ensures NoRepeats([head] + tail) && SpacesOnly([head] + tail)
  {
    var r := [head] + tail;
    forall i | 0 <= i < |r| - 1 ensures r[i] != r[i + 1] {
      if i > 0 { assert r[i] == tail[i - 1] && r[i + 1] == tail[i]; }
    }
    forall i | 0 <= i < |r| && IsSpace(r[i]) ensures r[i] == ' ' {
      if i > 0 { assert r[i] == tail[i - 1]; }
    }
  }

  /** After pass two no character repeats and every whitespace character is a plain space. */
  lemma {:induction false} SqueezeSpacesShape(s: string)
    requires RepeatsOnlyNewlines(s)
    ensures |SqueezeSpaces(s)| == 0 <==> |s| == 0
    ensures s != [] ==> SqueezeSpaces(s)[0] == if IsSpace(s[0]) then ' ' else s[0]
    ensures NoRepeats(SqueezeSpaces(s)) && SpacesOnly(SqueezeSpaces(s))
    decreases |s|
  {
    if s != [] {
      var k := if IsSpace(s[0]) then Run(s, 0, IsSpace) else 1;
      var rest := s[k..];
      var head := if IsSpace(s[0]) then ' ' else s[0];
      SuffixKeepsRepeats(s, k);
      SqueezeSpacesShape(rest);
      var tail := SqueezeSpaces(rest);
      assert SqueezeSpaces(s) == [head] + tail;
      if tail != [] && !IsSpace(s[0]) && !IsSpace(s[1]) {
        assert s[1] != s[0];
      }
      ConsKeepsShape(head, tail);
    }
  }

  /** Both properties survive taking a slice. */
  lemma SliceKeepsShape(s: string, i: nat, j: nat)
    requires i <= j <= |s| && NoRepeats(s) && SpacesOnly(s)
    ensures NoRepeats(s[i..j]) && SpacesOnly(s[i..j])
  {
    var t := s[i..j];
    forall k | 0 <= k < |t| - 1 ensures t[k] != t[k + 1] {
      assert t[k] == s[i + k] && t[k + 1] == s[i + k + 1];
    }
  }

  /**
   * The output of `clean_text` has no two equal neighbours, no whitespace
   * but single plain spaces and no leading or trailing whitespace.
   */
  lemma CleanTextIsClean(text: string)
    ensures IsClean(CleanText(text))
  {
    var c := CollapseRuns(text);
    CollapseRunsRepeats(text);
    SqueezeSpacesShape(c);
    var q := SqueezeSpaces(c);
    var i, j :| 0 <= i <= j <= |q| && CleanText(text) == q[i..j];
    SliceKeepsShape(q, i, j);
  }

  /** Hence no newline is left, so `\n` alternatives in later patterns never fire. */
  lemma CleanTextHasNoNewline(text: string)
    ensures '\n' !in CleanText(text)
  {
    CleanTextIsClean(text);
  }

  /**
   * Pass one read character by character: a character is dropped exactly
   * when it repeats the one before it and that one is not a newline.
   */
  function CollapseRef(s: string): string
  {
    if s == [] then [] else [s[0]] + CollapseAfter(s[0], s[1..])
  }

  function CollapseAfter(prev: char, s: string): string
    decreases |s|
  {
    if s == [] then []
    else (if s[0] == prev && prev != '\n' then [] else [s[0]]) + CollapseAfter(s[0], s[1..])
  }

  /** Characters repeating a non-newline predecessor are all dropped. */
  lemma {:induction false} CollapseAfterSkips(c: char, t: string, k: nat)
    requires c != '\n' && k <= |t| && forall i :: 0 <= i < k ==> t[i] == c
    ensures CollapseAfter(c, t) == CollapseAfter(c, t[k..])
    decreases k
  {
    if k > 0 {
      assert t[1..][k - 1..] == t[k..];
      CollapseAfterSkips(c, t[1..], k - 1);
    }
  }

  /** After a character that differs from the next one, or after a newline, the rest starts afresh. */
  lemma CollapseAfterFresh(c: char, t: string)
    requires t != [] ==> t[0] != c || c == '\n'
    ensures CollapseAfter(c, t) == CollapseRef(t)
  {
  }

  /** A run of two or more copies of a non-newline character reads as one copy. */
  lemma CollapseRefLongRun(s: string, n: nat)
    requires 2 <= n <= |s| && s[0] != '\n'
    requires forall i :: 0 <= i < n ==> s[i] == s[0]
    requires n < |s| ==> s[n] != s[0]
    ensures CollapseRef(s) == [s[0]] + CollapseRef(s[n..])
  {
    CollapseAfterSkips(s[0], s[1..], n - 1);
    assert s[1..][n - 1..] == s[n..];
    CollapseAfterFresh(s[0], s[n..]);
  }

  /** A character not repeated by the next one, or a newline, is kept and the rest starts afresh. */
  lemma CollapseRefSingle(s: string)
    requires s != [] && (|s| > 1 && s[0] != '\n' ==> s[1] != s[0])
    ensures CollapseRef(s) == [s[0]] + CollapseRef(s[1..])
  {
    CollapseAfterFresh(s[0], s[1..]);
  }

  /** The run-by-run pass one agrees with the character-by-character reading. */
  lemma {:induction false} CollapseRunsIsReference(s: string)
    ensures CollapseRuns(s) == CollapseRef(s)
    decreases |s|
  {
    if s != [] {
      var n := Run(s, 0, c => c == s[0]);
      assert forall i :: 0 <= i < n ==> s[i] == s[0];
      assert n < |s| ==> s[n] != s[0];
      if n >= 2 && s[0] != '\n' {
        assert CollapseRuns(s) == [s[0]] + CollapseRuns(s[n..]);
        CollapseRefLongRun(s, n);
        CollapseRunsIsReference(s[n..]);
      } else {
        assert CollapseRuns(s) == [s[0]] + CollapseRuns(s[1..]);
        CollapseRefSingle(s);
        CollapseRunsIsReference(s[1..]);
      }
    }
  }

  lemma {:induction false} CollapseRunsFixes(s: string)
    requires NoRepeats(s)
    ensures CollapseRuns(s) == s
    decreases |s|
  {
    if s != [] {
      var n := Run(s, 0, c => c == s[0]);
      assert n == 1 by {
        if |s| > 1 { assert s[1] != s[0]; }
      }
      assert NoRepeats(s[1..]) by {
        forall k | 0 <= k < |s[1..]| - 1 ensures s[1..][k] != s[1..][k + 1] {
          assert s[1..][k] == s[k + 1] && s[1..][k + 1] == s[k + 2];
        }
      }
      CollapseRunsFixes(s[1..]);
      assert s == [s[0]] + s[1..];
    }
  }

  lemma {:induction false} SqueezeSpacesFixes(s: string)
    requires NoRepeats(s) && SpacesOnly(s)
    ensures SqueezeSpaces(s) == s
    decreases |s|
  {
    if s != [] {
      SliceKeepsShape(s, 1, |s|);
      SqueezeSpacesFixes(s[1..]);
      if IsSpace(s[0]) {
        assert Run(s, 0, IsSpace) == 1 by {
          if |s| > 1 { assert s[1] != s[0]; }
        }
      }
      assert s == [s[0]] + s[1..];
    }
  }

  /** Text already in the normal form is left as it is. */
  lemma CleanTextFixesClean(s: string)
    requires IsClean(s)
    ensures CleanText(s) == s
  {
    CollapseRunsFixes(s);
    SqueezeSpacesFixes(s);
  }

  /** `clean_text` is idempotent. */
  lemma CleanTextIdempotent(text: string)
    ensures CleanText(CleanText(text)) == CleanText(text)
  {
    CleanTextIsClean(text);
    CleanTextFixesClean(CleanText(text));
  }
}
