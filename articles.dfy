/**
 * The article-heading pattern of the bulletin scraper,
 * `^\s*?art.culo\s*?(\d+).*?(?=\w)` compiled with IGNORECASE, matched at
 * the start of a string. Python's backtracking order is written out: the
 * lazy `\s*?` can only stop at the end of the whitespace run (the next
 * pattern character is never whitespace), the greedy `(\d+)` first takes
 * the whole digit run, and the lazy `.*?` then walks to the first word
 * character on the same line. Only when no such character exists does
 * `(\d+)` give back its last digit, which is itself a word character.
 */
module Articles {
  import opened Results
  import opened Numbers

  /**
   * `\w` on a `str`: letters, digits and `_`. Letters are taken up to the end
   * of Latin Extended-B (U+024F); see README for the characters beyond.
   */
  predicate IsWordChar(c: char) {
    var n := c as int;
    ('a' <= c <= 'z') || ('A' <= c <= 'Z') || IsDigit(c) || c == '_'
    || n == 0xAA || n == 0xB2 || n == 0xB3 || n == 0xB5 || n == 0xB9 || n == 0xBA
    || (0xBC <= n <= 0xBE) || (0xC0 <= n <= 0xD6) || (0xD8 <= n <= 0xF6) || (0xF8 <= n <= 0x24F)
  }

  /** The case folding IGNORECASE applies to the ASCII letters of the pattern. */
  function Lower(c: char): char {
    if 'A' <= c <= 'Z' then (c as int + 32) as char else c
  }

  /** `art.culo` under IGNORECASE: `.` is any character but a newline. */
  predicate IsArticuloWord(w: string) {
    |w| == 8 && Lower(w[0]) == 'a' && Lower(w[1]) == 'r' && Lower(w[2]) == 't' && w[3] != '\n'
    && Lower(w[4]) == 'c' && Lower(w[5]) == 'u' && Lower(w[6]) == 'l' && Lower(w[7]) == 'o'
  }

  predicate AllSpace(s: string) {
    forall i :: 0 <= i < |s| ==> IsSpace(s[i])
  }

  /** The end of the whitespace run that starts at `i`. */
  function SpanSpaces(s: string, i: nat): (r: nat)
    requires i <= |s|
    ensures i <= r <= |s| && AllSpace(s[i..r])
    ensures r < |s| ==> !IsSpace(s[r])
    decreases |s| - i
  {
    if i < |s| && IsSpace(s[i]) then SpanSpaces(s, i + 1) else i
  }

  /** The end of the run of decimal digits that starts at `i`. */
  function SpanDigits(s: string, i: nat): (r: nat)
    requires i <= |s|
    ensures i <= r <= |s| && AllDigits(s[i..r])
    ensures r < |s| ==> !IsDigit(s[r])
    decreases |s| - i
  {
    if i < |s| && IsDigit(s[i]) then SpanDigits(s, i + 1) else i
  }

  /** `.*?(?=\w)` from `i`: the first word character before the end of the line. */
  function NextWord(s: string, i: nat): (r: Option<nat>)
    requires i <= |s|
    ensures r.Some? ==> i <= r.value < |s| && IsWordChar(s[r.value]) && '\n' !in s[i..r.value]
    ensures r.Some? ==> forall j :: i <= j < r.value ==> !IsWordChar(s[j])
    ensures r.None? ==> forall j :: i <= j < |s| && '\n' !in s[i..j] ==> !IsWordChar(s[j])
    decreases |s| - i
  {
    if i == |s| then None
    else if IsWordChar(s[i]) then Some(i)
    else if s[i] == '\n' then None
    else
      var r := NextWord(s, i + 1);
      assert forall j :: i + 1 <= j <= |s| ==> s[i..j] == [s[i]] + s[i + 1..j];
      r
  }

  /** A match of the pattern at the start of `s`: where it ends and the digits of group 1. */
  datatype ArtMatch = ArtMatch(end: nat, number: string)

  /** `art_regex.match(s)`, in Python's backtracking order. */
  function MatchArticle(s: string): (r: Option<ArtMatch>)
    ensures r.Some? ==> r.value.end < |s| && IsWordChar(s[r.value.end])
    ensures r.Some? ==> |r.value.number| >= 1 && AllDigits(r.value.number)
  {
    var k := SpanSpaces(s, 0);
    if k + 8 > |s| || !IsArticuloWord(s[k..k + 8]) then None
    else
      var q := SpanSpaces(s, k + 8);
      var e := SpanDigits(s, q);
      if e == q then None
      else
        match NextWord(s, e)
        case Some(j) => Some(ArtMatch(j, s[q..e]))
        case None =>
          if e - q >= 2 then
            assert IsDigit(s[e - 1]) by { assert s[e - 1] == s[q..e][e - 1 - q]; }
            assert AllDigits(s[q..e - 1]) by { assert s[q..e - 1] == s[q..e][..e - 1 - q]; }
            Some(ArtMatch(e - 1, s[q..e - 1]))
          else None
  }

  /**
   * One way of reading the pattern over `s`, without regard to the order in
   * which Python tries them: `k` leading blanks, the word, `m` blanks, `d`
   * digits, then non-word characters on the same line up to the word
   * character at `j`.
   */
  predicate Reading(s: string, k: nat, m: nat, d: nat, j: nat) {
    var q := k + 8 + m;
    q + d <= j < |s|
    && AllSpace(s[..k]) && IsArticuloWord(s[k..k + 8]) && AllSpace(s[k + 8..q])
    && d >= 1 && AllDigits(s[q..q + d])
    && '\n' !in s[q + d..j] && IsWordChar(s[j])
  }

  ghost predicate ReadsAsArticle(s: string) {
    exists k, m, d, j :: Reading(s, k, m, d, j)
  }

  /** The pattern matches at the start exactly when some reading of it exists. */
  lemma MatchArticleIffReading(s: string)
    ensures MatchArticle(s).Some? <==> ReadsAsArticle(s)
  {
    var k := SpanSpaces(s, 0);
    if MatchArticle(s).Some? {
      var q := SpanSpaces(s, k + 8);
      var e := SpanDigits(s, q);
      var j := MatchArticle(s).value.end;
      if NextWord(s, e).Some? {
        assert Reading(s, k, q - k - 8, e - q, j);
      } else {
        assert e - q >= 2;
        assert s[q..e - 1] == s[q..e][..e - 1 - q];
        assert Reading(s, k, q - k - 8, e - 1 - q, j);
      }
    }
    if exists k', m, d, j :: Reading(s, k', m, d, j) {
      var k', m, d, j :| Reading(s, k', m, d, j);
      ReadingFindsMatch(s, k', m, d, j);
    }
  }

  lemma ReadingFindsMatch(s: string, k: nat, m: nat, d: nat, j: nat)
    requires Reading(s, k, m, d, j)
    ensures MatchArticle(s).Some?
  {
    SpanSpacesAt(s, 0, k);
    var q := k + 8 + m;
    SpanSpacesAt(s, k + 8, q);
    var e := SpanDigits(s, q);
    assert e >= q + d by { DigitsReach(s, q, q + d); }
    if e == q + d {
      assert '\n' !in s[e..j] && IsWordChar(s[j]);
    }
  }

  /** Blanks from `i` to `k` followed by a non-blank: the blank run ends at `k`. */
  lemma {:induction false} SpanSpacesAt(s: string, i: nat, k: nat)
    requires i <= k < |s| && AllSpace(s[i..k]) && !IsSpace(s[k])
    ensures SpanSpaces(s, i) == k
    decreases k - i
  {
    if i < k {
      assert IsSpace(s[i]) by { assert s[i] == s[i..k][0]; }
      assert s[i + 1..k] == s[i..k][1..];
      SpanSpacesAt(s, i + 1, k);
    }
  }

  lemma {:induction false} DigitsReach(s: string, i: nat, e: nat)
    requires i <= e <= |s| && AllDigits(s[i..e])
    ensures SpanDigits(s, i) >= e
    decreases e - i
  {
    if i < e {
      assert IsDigit(s[i]) by { assert s[i] == s[i..e][0]; }
      assert s[i + 1..e] == s[i..e][1..];
      DigitsReach(s, i + 1, e);
    }
  }
}
