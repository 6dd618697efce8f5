/**
 * The tweet builder of the bulletin scraper (`Publicacion.GetTweets` and
 * `Publicacion._FormatText`): a publication becomes a thread made of a
 * heading tweet, one tweet per article, cut to the 280-character limit, and
 * the table images, four to a tweet.
 */
module Tweets {
  import opened Results
  import opened Numbers
  import opened Articles
  import Reflow

  // ----- _FormatText -----------------------------------------------------------

  /** `s.replace(a, b)` for single characters. */
  function ReplaceChar(s: string, a: char, b: char): (r: string)
    ensures |r| == |s|
    ensures forall i :: 0 <= i < |s| ==> r[i] == (if s[i] == a then b else s[i])
  {
    if s == [] then [] else [if s[0] == a then b else s[0]] + ReplaceChar(s[1..], a, b)
  }

  /** The characters of `s` other than the space, in order. */
  function DropSpaces(s: string): string {
    if s == [] then [] else (if s[0] == ' ' then [] else [s[0]]) + DropSpaces(s[1..])
  }

  /** `spaces_regex.sub(" ", s)`: every run of two or more spaces becomes one space. */
  function CollapseSpaces(s: string): (r: string)
    ensures Reflow.NoDoubleSpace(r)
    ensures DropSpaces(r) == DropSpaces(s)
    ensures r != [] <==> s != []
    ensures r != [] ==> r[0] == s[0]
    ensures forall i :: 0 <= i < |r| ==> r[i] in s
  {
    if s == [] then []
    else if |s| >= 2 && s[0] == ' ' && s[1] == ' ' then
      assert DropSpaces(s) == DropSpaces(s[1..]);
      CollapseSpaces(s[1..])
    else
      var rest := CollapseSpaces(s[1..]);
      var r := [s[0]] + rest;
      assert forall i :: 1 <= i < |r| ==> r[i] == rest[i - 1];
      assert Reflow.NoDoubleSpace(r) by {
        forall i | 0 <= i < |r| - 1 ensures !(r[i] == ' ' && r[i + 1] == ' ') {
          if i == 0 { assert r[1] == rest[0] == s[1]; }
        }
      }
      assert DropSpaces(r) == (if s[0] == ' ' then [] else [s[0]]) + DropSpaces(rest) by {
        assert r[1..] == rest;
      }
      r
  }

  /** A text that has no double space is left as it is by the collapse. */
  lemma {:induction false} CollapseKeepsSingleSpaces(s: string)
    requires Reflow.NoDoubleSpace(s)
    ensures CollapseSpaces(s) == s
  {
    if s != [] {
      assert Reflow.NoDoubleSpace(s[1..]) by {
        forall i | 0 <= i < |s[1..]| - 1 ensures !(s[1..][i] == ' ' && s[1..][i + 1] == ' ') {
          assert s[1..][i] == s[i + 1] && s[1..][i + 1] == s[i + 2];
        }
      }
      CollapseKeepsSingleSpaces(s[1..]);
      assert s == [s[0]] + s[1..];
    }
  }

  /** A character survives the collapse unless it is a space followed by another space. */
  predicate Survives(s: string, i: nat)
    requires i < |s|
  {
    !(s[i] == ' ' && i + 1 < |s| && s[i + 1] == ' ')
  }

  /** The characters of `s` from `p` on that survive: of each run of spaces only its last space. */
  function Survivors(s: string, p: nat): string
    requires p <= |s|
    decreases |s| - p
  {
    if p == |s| then [] else (if Survives(s, p) then [s[p]] else []) + Survivors(s, p + 1)
  }

  /** The collapse keeps exactly the surviving characters. */
  lemma {:induction false} CollapseIsSurvivors(s: string, p: nat)
    requires p <= |s|
    ensures CollapseSpaces(s[p..]) == Survivors(s, p)
    decreases |s| - p
  {
    if p < |s| {
      CollapseIsSurvivors(s, p + 1);
      assert s[p..][1..] == s[p + 1..];
      if |s[p..]| >= 2 {
        assert s[p..][0] == s[p] && s[p..][1] == s[p + 1];
      }
    }
  }

  /**
   * A maximal run of `n` spaces starting at `p` (one that begins the text or
   * follows another character) becomes exactly one space, and what follows
   * the run is collapsed on its own.
   */
  lemma {:induction false} RunBecomesOneSpace(s: string, p: nat, n: nat)
    requires 1 <= n && p + n <= |s|
    requires forall i :: p <= i < p + n ==> s[i] == ' '
    requires p + n < |s| ==> s[p + n] != ' '
    ensures Survivors(s, p) == " " + Survivors(s, p + n)
    decreases n
  {
    if n > 1 {
      assert !Survives(s, p) by { assert s[p + 1] == ' '; }
      RunBecomesOneSpace(s, p + 1, n - 1);
    }
  }

  /** `art_regex.sub(r"\1: ", s)`: the pattern is anchored, so only a match at the start is replaced. */
  function ArtSub(s: string): string {
    match MatchArticle(s)
    case None => s
    case Some(m) => m.number + ": " + s[m.end..]
  }

  /** `Publicacion._FormatText`. */
  function FormatText(text: string): string {
    ArtSub(CollapseSpaces(ReplaceChar(ReplaceChar(text, '\U{A0}', ' '), '\U{BA}', '\U{B0}')))
  }

  /** The rewrite only adds digits, a colon and a space to a suffix of its input. */
  lemma ArtSubMembers(s: string, i: nat)
    requires i < |ArtSub(s)|
    ensures ArtSub(s)[i] in s || IsDigit(ArtSub(s)[i]) || ArtSub(s)[i] == ':' || ArtSub(s)[i] == ' '
  {
    var r := ArtSub(s);
    if MatchArticle(s).Some? {
      var m := MatchArticle(s).value;
      var n := |m.number|;
      assert r == m.number + ": " + s[m.end..];
      if i >= n + 2 { assert r[i] == r[n + 2..][i - n - 2] == s[m.end + i - n - 2]; }
      else if i >= n { assert r[i] == r[n..n + 2][i - n]; }
      else { assert r[i] == r[..n][i]; }
    }
  }

  /** The rewrite does not create a double space. */
  lemma ArtSubNoDoubleSpace(s: string)
    requires Reflow.NoDoubleSpace(s)
    ensures Reflow.NoDoubleSpace(ArtSub(s))
  {
    var r := ArtSub(s);
    if MatchArticle(s).Some? {
      var m := MatchArticle(s).value;
      var n := |m.number|;
      assert r == m.number + ": " + s[m.end..];
      assert r[n + 2..] == s[m.end..];
      forall i | 0 <= i < |r| - 1 ensures !(r[i] == ' ' && r[i + 1] == ' ') {
        if i >= n + 2 {
          assert r[i] == s[m.end + i - n - 2] && r[i + 1] == s[m.end + i - n - 1];
        } else if i == n + 1 {
          assert r[i + 1] == s[m.end];
        } else if i == n {
          assert r[i] == r[n..n + 2][0];
        } else {
          assert r[i] == r[..n][i];
        }
      }
    }
  }

  /**
   * A formatted text holds no non-breaking space, no masculine ordinal
   * (U+00BA, replaced by the degree sign) and no two adjacent spaces.
   */
  lemma FormatTextClean(text: string)
    ensures forall i :: 0 <= i < |FormatText(text)| ==> FormatText(text)[i] != '\U{A0}' && FormatText(text)[i] != '\U{BA}'
    ensures Reflow.NoDoubleSpace(FormatText(text))
  {
    var t1 := ReplaceChar(text, '\U{A0}', ' ');
    var t2 := ReplaceChar(t1, '\U{BA}', '\U{B0}');
    var t3 := CollapseSpaces(t2);
    assert forall c :: c in t3 ==> c != '\U{A0}' && c != '\U{BA}';
    var r := ArtSub(t3);
    forall i | 0 <= i < |r| ensures r[i] != '\U{A0}' && r[i] != '\U{BA}' {
      ArtSubMembers(t3, i);
    }
    ArtSubNoDoubleSpace(t3);
  }

  /** `s` opens with `k` blanks, `art.culo`, `m` blanks and a digit. */
  predicate HeadingAt(s: string, k: nat, m: nat) {
    k + 8 + m < |s| && AllSpace(s[..k]) && IsArticuloWord(s[k..k + 8])
    && AllSpace(s[k + 8..k + 8 + m]) && IsDigit(s[k + 8 + m])
  }

  ghost predicate OpensWithArticle(s: string) {
    exists k: nat, m: nat :: HeadingAt(s, k, m)
  }

  lemma MatchOpensWithArticle(s: string)
    ensures MatchArticle(s).Some? ==> OpensWithArticle(s)
  {
    MatchArticleIffReading(s);
    if MatchArticle(s).Some? {
      assert ReadsAsArticle(s);
      var k, m, d, j :| Reading(s, k, m, d, j);
      assert IsDigit(s[k + 8 + m]) by { assert s[k + 8 + m] == s[k + 8 + m..k + 8 + m + d][0]; }
      assert HeadingAt(s, k, m);
    }
  }

  /** A text that does not open with `art.culo`, blanks and a digit is not rewritten by `art_regex`. */
  lemma ArtSubLeavesOthers(s: string)
    requires !OpensWithArticle(s)
    ensures ArtSub(s) == s
  {
    MatchOpensWithArticle(s);
  }

  /**
   * A heading "Art<any>culo", blanks, the number, then non-word characters on
   * the same line: the whole heading up to the first word character becomes
   * "<number>: ".
   */
  lemma ArtSubOfHeading(blank: string, word: string, sp: string, number: string, gap: string, rest: string)
    requires AllSpace(blank) && IsArticuloWord(word) && AllSpace(sp)
    requires |number| >= 1 && AllDigits(number)
    requires forall i :: 0 <= i < |gap| ==> !IsWordChar(gap[i]) && gap[i] != '\n'
    requires rest != [] && IsWordChar(rest[0]) && (gap != [] || !IsDigit(rest[0]))
    ensures ArtSub(blank + word + sp + number + gap + rest) == number + ": " + rest
  {
    var s := blank + word + sp + number + gap + rest;
    var k := |blank|;
    var q := k + 8 + |sp|;
    var e := q + |number|;
    var j := e + |gap|;
    assert s[..k] == blank && s[k..k + 8] == word && s[k + 8..q] == sp;
    assert s[q..e] == number && s[e..j] == gap && s[j..] == rest;
    assert forall t :: e <= t < j ==> s[t] == gap[t - e];
    MatchArticleAt(s, k, q, e, j);
  }

  /** The match of the heading pattern when the blanks, the word, the blanks, the digits and the gap sit at known places. */
  lemma MatchArticleAt(s: string, k: nat, q: nat, e: nat, j: nat)
    requires k + 8 <= q < e <= j < |s|
    requires AllSpace(s[..k]) && IsArticuloWord(s[k..k + 8]) && AllSpace(s[k + 8..q])
    requires AllDigits(s[q..e]) && !IsDigit(s[e])
    requires forall t :: e <= t < j ==> !IsWordChar(s[t]) && s[t] != '\n'
    requires IsWordChar(s[j])
    ensures MatchArticle(s) == Some(ArtMatch(j, s[q..e]))
  {
    assert s[k] == s[k..k + 8][0];
    assert s[q] == s[q..e][0];
    assert s[0..k] == s[..k];
    SpanSpacesAt(s, 0, k);
    SpanSpacesAt(s, k + 8, q);
    SpanDigitsAt(s, q, e);
    NextWordAt(s, e, j);
  }

  lemma {:induction false} SpanDigitsAt(s: string, i: nat, e: nat)
    requires i <= e < |s| && AllDigits(s[i..e]) && !IsDigit(s[e])
    ensures SpanDigits(s, i) == e
    decreases e - i
  {
    if i < e {
      assert IsDigit(s[i]) by { assert s[i] == s[i..e][0]; }
      assert s[i + 1..e] == s[i..e][1..];
      SpanDigitsAt(s, i + 1, e);
    }
  }

  lemma {:induction false} NextWordAt(s: string, i: nat, j: nat)
    requires i <= j < |s| && IsWordChar(s[j])
    requires forall t :: i <= t < j ==> !IsWordChar(s[t]) && s[t] != '\n'
    ensures NextWord(s, i) == Some(j)
    decreases j - i
  {
    if i < j {
      NextWordAt(s, i + 1, j);
    }
  }

  /** The example of the source: "Artículo 3˚.- Se dispone..." becomes "3: Se dispone...". */
  lemma FormatTextExample()
    ensures FormatText("Art\U{ED}culo 3\U{2DA}.- Se dispone...") == "3: Se dispone..."
  {
    ExampleIsClean();
    FormatTextOfClean("Art\U{ED}culo 3\U{2DA}.- Se dispone...");
    ExampleHeading();
  }

  lemma ExampleHeading()
    ensures ArtSub("Art\U{ED}culo 3\U{2DA}.- Se dispone...") == "3: Se dispone..."
  {
    var word, gap, rest := "Art\U{ED}culo", "\U{2DA}.- ", "Se dispone...";
    assert IsArticuloWord(word);
    assert AllSpace(" ") && AllSpace("");
    assert AllDigits("3");
    assert !IsWordChar(gap[0]) && !IsWordChar(gap[1]) && !IsWordChar(gap[2]) && !IsWordChar(gap[3]);
    assert forall i :: 0 <= i < |gap| ==> !IsWordChar(gap[i]) && gap[i] != '\n';
    assert IsWordChar(rest[0]) && !IsDigit(rest[0]);
    ExampleSplits();
    ArtSubOfHeading("", word, " ", "3", gap, rest);
  }

  lemma ExampleSplits()
    ensures "Art\U{ED}culo 3\U{2DA}.- Se dispone..." == "" + "Art\U{ED}culo" + " " + "3" + "\U{2DA}.- " + "Se dispone..."
    ensures "3" + ": " + "Se dispone..." == "3: Se dispone..."
  {
  }

  /** On text already free of the replaced characters and of double spaces, only the heading rewrite acts. */
  lemma FormatTextOfClean(s: string)
    requires '\U{A0}' !in s && '\U{BA}' !in s && Reflow.NoDoubleSpace(s)
    ensures FormatText(s) == ArtSub(s)
  {
    ReplaceAbsent(s, '\U{A0}', ' ');
    ReplaceAbsent(s, '\U{BA}', '\U{B0}');
    CollapseKeepsSingleSpaces(s);
  }

  lemma ExampleIsClean()
    ensures '\U{A0}' !in "Art\U{ED}culo 3\U{2DA}.- Se dispone..."
    ensures '\U{BA}' !in "Art\U{ED}culo 3\U{2DA}.- Se dispone..."
    ensures Reflow.NoDoubleSpace("Art\U{ED}culo 3\U{2DA}.- Se dispone...")
  {
  }

  lemma {:induction false} ReplaceAbsent(s: string, a: char, b: char)
    requires a !in s
    ensures ReplaceChar(s, a, b) == s
  {
    if s != [] {
      ReplaceAbsent(s[1..], a, b);
      assert s == [s[0]] + s[1..];
    }
  }

  // ----- GetTweets -------------------------------------------------------------

  /** A tweet: its text and the image files attached to it. */
  datatype Tweet = Tweet(content: string, mediaFilenames: seq<string>)

  /** The fields of a publication that the thread is built from. */
  datatype Publicacion = Publicacion(
    articulos: seq<string>,
    ciudadFecha: string,
    titulo: string,
    url: string,
    anexos: seq<string>,
    imagenes: seq<seq<bv8>>)

  const Fill: string := "... (sigue)"
  const MaxTweet: nat := 280

  const AnnexNote: string := " (ver anexos)"
  const Disclaimer: string := "\nRecord\U{E1} que esta cuenta no est\U{E1} afiliada al Municipio!"

  /** The heading tweet: place and date, title, source, a note when there are annexes, the disclaimer. */
  function FirstTweet(pub: Publicacion): string {
    pub.ciudadFecha + "\n" + pub.titulo + "\nFuente: " + pub.url
    + (if |pub.anexos| > 0 then AnnexNote else "")
    + Disclaimer
  }

  /**
   * The heading tweet opens with the place and date, the title and the
   * source on lines of their own, ends with the disclaimer, and carries the
   * annex note between the two exactly when the publication has annexes.
   */
  lemma FirstTweetShape(pub: Publicacion)
    ensures var head := pub.ciudadFecha + "\n" + pub.titulo + "\nFuente: " + pub.url;
      var t := FirstTweet(pub);
      |t| >= |head| + |Disclaimer| && t[..|head|] == head && t[|t| - |Disclaimer|..] == Disclaimer
      && (|pub.anexos| > 0 ==> t[|head|..|t| - |Disclaimer|] == AnnexNote)
      && (|pub.anexos| == 0 ==> |t| == |head| + |Disclaimer|)
  {
    var head := pub.ciudadFecha + "\n" + pub.titulo + "\nFuente: " + pub.url;
    var note := if |pub.anexos| > 0 then AnnexNote else "";
    var t := FirstTweet(pub);
    assert t == head + note + Disclaimer;
    assert t[..|head|] == head;
    assert t[|head|..|t| - |Disclaimer|] == note;
    assert t[|t| - |Disclaimer|..] == Disclaimer;
  }

  /** An article tweet: the formatted article, cut and marked when it does not fit. */
  function ArticleTweet(art: string): (r: string)
    ensures |r| <= MaxTweet
    ensures |FormatText(art)| > MaxTweet - |Fill| ==>
      |r| == MaxTweet && r == FormatText(art)[..MaxTweet - |Fill|] + Fill
    ensures |FormatText(art)| <= MaxTweet - |Fill| ==> r == FormatText(art)
  {
    var t := FormatText(art);
    if |t| > MaxTweet - |Fill| then t[..MaxTweet - |Fill|] + Fill else t
  }

  /** The images, in order, four to a group; only the last group may hold fewer. */
  function Groups(fs: seq<string>): seq<seq<string>>
    decreases |fs|
  {
    if fs == [] then []
    else if |fs| <= 4 then [fs]
    else [fs[..4]] + Groups(fs[4..])
  }

  function Flatten(gs: seq<seq<string>>): seq<string> {
    if gs == [] then [] else gs[0] + Flatten(gs[1..])
  }

  /** Every group holds one to four files, all but the last exactly four, and together they are the files in order. */
  lemma {:induction false} GroupsPartition(fs: seq<string>)
    ensures Flatten(Groups(fs)) == fs
    ensures |Groups(fs)| == (|fs| + 3) / 4
    ensures forall g :: 0 <= g < |Groups(fs)| ==> 1 <= |Groups(fs)[g]| <= 4
    ensures forall g :: 0 <= g < |Groups(fs)| - 1 ==> |Groups(fs)[g]| == 4
    decreases |fs|
  {
    if |fs| > 4 {
      GroupsPartition(fs[4..]);
      var gs := Groups(fs);
      assert gs[1..] == Groups(fs[4..]);
      assert fs == fs[..4] + fs[4..];
    } else if fs != [] {
      assert Groups(fs)[1..] == [];
    }
  }

  /** Groups of a whole number of fours, then the rest: the groups of each part, in turn. */
  lemma {:induction false} GroupsAppend(a: seq<string>, b: seq<string>)
    requires |a| % 4 == 0
    ensures Groups(a + b) == Groups(a) + Groups(b)
    decreases |a|
  {
    if a != [] {
      assert (a + b)[..4] == a[..4];
      assert (a + b)[4..] == a[4..] + b;
      GroupsAppend(a[4..], b);
      if |a| == 4 {
        assert a[4..] == [];
        if b == [] { assert a + b == a; }
      }
    } else {
      assert a + b == b;
    }
  }

  function ArticleTweets(arts: seq<string>): (ts: seq<Tweet>)
    ensures |ts| == |arts|
  {
    seq(|arts|, k requires 0 <= k < |arts| => Tweet(ArticleTweet(arts[k]), []))
  }

  function ImageTweets(gs: seq<seq<string>>): (ts: seq<Tweet>)
    ensures |ts| == |gs|
  {
    seq(|gs|, k requires 0 <= k < |gs| => Tweet("", gs[k]))
  }

  lemma ArticleTweetsSnoc(arts: seq<string>, a: nat)
    requires a < |arts|
    ensures ArticleTweets(arts[..a + 1]) == ArticleTweets(arts[..a]) + [Tweet(ArticleTweet(arts[a]), [])]
  {
    assert arts[..a + 1][..a] == arts[..a];
  }

  lemma ImageTweetsAppend(gs: seq<seq<string>>, hs: seq<seq<string>>)
    ensures ImageTweets(gs + hs) == ImageTweets(gs) + ImageTweets(hs)
  {
  }

  /**
   * `Publicacion.GetTweets`, with the names of the image files it writes
   * given as `filenames`, one per image.
   */
  method GetTweets(pub: Publicacion, filenames: seq<string>) returns (tweets: seq<Tweet>)
    requires |filenames| == |pub.imagenes|
    ensures tweets == [Tweet(FirstTweet(pub), [])] + ArticleTweets(pub.articulos) + ImageTweets(Groups(filenames))
    ensures |tweets| == 1 + |pub.articulos| + (|pub.imagenes| + 3) / 4
    ensures forall t :: 1 <= t <= |pub.articulos| ==> |tweets[t].content| <= MaxTweet
  {
    tweets := [Tweet(FirstTweet(pub), [])];
    var a := 0;
    while a < |pub.articulos|
      invariant 0 <= a <= |pub.articulos|
      invariant tweets == [Tweet(FirstTweet(pub), [])] + ArticleTweets(pub.articulos[..a])
    {
      ArticleTweetsSnoc(pub.articulos, a);
      tweets := tweets + [Tweet(ArticleTweet(pub.articulos[a]), [])];
      a := a + 1;
    }
    assert pub.articulos[..a] == pub.articulos;
    var images := MediaTweets(filenames);
    tweets := tweets + images;
    GroupsPartition(filenames);
  }

  /**
   * The image part of `GetTweets`: the files are buffered and a tweet is sent
   * out after every fourth one; a last, shorter buffer makes one more tweet.
   */
  method MediaTweets(filenames: seq<string>) returns (tweets: seq<Tweet>)
    ensures tweets == ImageTweets(Groups(filenames))
  {
    tweets := [];
    var media: seq<string> := [];
    ghost var done: seq<string> := [];
    var i := 0;
    while i < |filenames|
      invariant 0 <= |done| <= i <= |filenames| && |done| % 4 == 0 && i - |done| < 4
      invariant done == filenames[..|done|] && media == filenames[|done|..i]
      invariant tweets == ImageTweets(Groups(done))
    {
      media := media + [filenames[i]];
      assert media == filenames[|done|..i + 1];
      if (i + 1) % 4 == 0 {
        assert |media| == 4;
        GroupsAppend(done, media);
        assert Groups(media) == [media];
        ImageTweetsAppend(Groups(done), [media]);
        tweets := tweets + [Tweet("", media)];
        done := done + media;
        assert done == filenames[..i + 1];
        media := [];
      }
      i := i + 1;
    }
    assert filenames == done + media;
    GroupsAppend(done, media);
    if |media| != 0 && |media| % 4 != 0 {
      assert Groups(media) == [media];
      ImageTweetsAppend(Groups(done), [media]);
      tweets := tweets + [Tweet("", media)];
    } else {
      assert media == [];
      assert filenames == done;
    }
  }
}
