/** Case-insensitive substring search over ASCII letters. */
module Text {

  /** Folds an ASCII capital to its small letter; every other character is kept. */
  function Lower(c: char): char {
    if 'A' <= c <= 'Z' then (c as int + 32) as char else c
  }

  /** `pat` occurs in `s` at offset `i`, ignoring ASCII case. */
  predicate MatchesAt(s: string, pat: string, i: int) {
    0 <= i && i + |pat| <= |s| && forall j :: 0 <= j < |pat| ==> Lower(s[i + j]) == Lower(pat[j])
  }

  /** A match one character into `s` is a match in `s[1..]`, and back. */
  lemma MatchShift(s: string, pat: string)
    requires |s| > 0
    ensures (exists i :: MatchesAt(s[1..], pat, i)) ==> exists i :: MatchesAt(s, pat, i)
    ensures (exists i :: MatchesAt(s, pat, i)) && !MatchesAt(s, pat, 0) ==>
      exists i :: MatchesAt(s[1..], pat, i)
  {
    if i :| MatchesAt(s[1..], pat, i) {
      assert MatchesAt(s, pat, i + 1) by {
        forall j | 0 <= j < |pat| ensures Lower(s[i + 1 + j]) == Lower(pat[j]) {
          assert s[1..][i + j] == s[i + 1 + j];
        }
      }
    }
    if i :| MatchesAt(s, pat, i) && i != 0 {
      assert MatchesAt(s[1..], pat, i - 1) by {
        forall j | 0 <= j < |pat| ensures Lower(s[1..][i - 1 + j]) == Lower(pat[j]) {
          assert s[1..][i - 1 + j] == s[i + j];
        }
      }
    }
  }

  /** The search itself: try offset 0, then search the rest of `s`. It
      succeeds exactly when the pattern occurs at some offset. */
  function ContainsIgnoreCase(s: string, pat: string): (found: bool)
    ensures found <==> exists i :: MatchesAt(s, pat, i)
    decreases |s|
  {
    if |s| < |pat| then false
    else if MatchesAt(s, pat, 0) then true
    else
      MatchShift(s, pat);
      ContainsIgnoreCase(s[1..], pat)
  }

  /** Whoever contains a pattern contains each of its prefixes. */
  lemma ContainsPrefix(s: string, pat: string, n: nat)
    requires n <= |pat|
    requires ContainsIgnoreCase(s, pat)
    ensures ContainsIgnoreCase(s, pat[..n])
  {
    var i :| MatchesAt(s, pat, i);
    assert MatchesAt(s, pat[..n], i);
  }
}
