/**
 The "pending" test that login uses to count a user's outstanding tasks.

 The store is queried with the regular expression `^pending$` and the
 case-insensitive option. This module models that query as an anchored,
 caseless match of a literal pattern against the whole status string, and
 proves it equal to a plain definition: the case-folded status is "pending",
 or "pending" followed by one newline (PCRE's `$` also matches just before a
 newline that ends the subject).
 */
module PendingStatus {

  /** ASCII case folding: the only folding the letters of "pending" need. */
  function Lower(c: char): char
  {
    if 'A' <= c <= 'Z' then (c as int - 'A' as int + 'a' as int) as char else c
  }

  /** The string with every ASCII upper-case letter folded to lower case. */
  function FoldCase(s: string): (r: string)
    ensures |r| == |s|
    ensures forall i :: 0 <= i < |s| ==> r[i] == Lower(s[i])
  {
    if s == [] then [] else [Lower(s[0])] + FoldCase(s[1..])
  }

  /** Anchored caseless match of the literal `pattern` against all of `s`:
      character by character, then `$`, which accepts the end of `s` or a
      single newline that ends `s`. */
  predicate MatchWhole(pattern: string, s: string)
    decreases pattern
  {
    if pattern == [] then s == [] || s == ['\n']
    else s != [] && Lower(s[0]) == Lower(pattern[0]) && MatchWhole(pattern[1..], s[1..])
  }

  const PendingWord: string := "pending"

  /** The status filter of the login notification query. */
  predicate IsPending(status: string)
  {
    MatchWhole(PendingWord, status)
  }

  /** The matcher agrees with folded equality, in both directions. */
  lemma {:induction false} MatchWholeIsFoldedEquality(pattern: string, s: string)
    ensures MatchWhole(pattern, s) <==>
      (FoldCase(s) == FoldCase(pattern) || FoldCase(s) == FoldCase(pattern) + ['\n'])
    decreases pattern
  {
    if pattern == [] {
      if FoldCase(s) == ['\n'] {
        assert Lower(s[0]) == '\n';
      }
    } else if s == [] {
    } else {
      MatchWholeIsFoldedEquality(pattern[1..], s[1..]);
      assert FoldCase(s) == [Lower(s[0])] + FoldCase(s[1..]);
      assert FoldCase(pattern) == [Lower(pattern[0])] + FoldCase(pattern[1..]);
      if FoldCase(s) == FoldCase(pattern) + ['\n'] {
        assert FoldCase(s)[1..] == FoldCase(pattern[1..]) + ['\n'];
      }
    }
  }

  /** A status is pending exactly when it folds to "pending", optionally
      followed by one newline. */
  lemma PendingIsFoldedWord(status: string)
    ensures IsPending(status) <==>
      (FoldCase(status) == "pending" || FoldCase(status) == "pending\n")
  {
    MatchWholeIsFoldedEquality(PendingWord, status);
    assert FoldCase(PendingWord) == "pending";
  }

  /** Case does not matter, but the match is anchored at both ends. */
  lemma PendingExamples()
    ensures IsPending("pending") && IsPending("Pending") && IsPending("PENDING")
    ensures !IsPending("pending!") && !IsPending("Completed") && !IsPending("") && !IsPending(" pending")
  {
  }
}
