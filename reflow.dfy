/**
 * The text reflow part of the table renderer: the character budget of a
 * cell (`_GetMaxChars`), the word wrap (`_WrapText`, which calls Python's
 * `textwrap.wrap`), the whitespace clean-up of `spaces_re` and the cell
 * formatter that combines them (`_FormatField`).
 */
module Reflow {
  import opened Numbers

  /**
   * What the renderer asks of a loaded font: `getsize_multiline(text)` and
   * `getsize(text)`, each as (width, height) in pixels.
   */
  datatype Face = Face(multiline: string -> (int, int), single: string -> (int, int))

  /** `_GetMaxChars`: how many characters of median width fit in `width` pixels, at least one. */
  function MaxChars(width: int, medianCharWidth: int): (r: int)
    requires medianCharWidth >= 1
    ensures r >= 1
    ensures width >= medianCharWidth ==> r * medianCharWidth <= width < (r + 1) * medianCharWidth
    ensures width < medianCharWidth ==> r == 1
  {
    Max(width / medianCharWidth, 1)
  }

  // ----- sequences of characters -------------------------------------------

  /** The whitespace of `textwrap`: tab, newline, vertical tab, form feed, carriage return, space. */
  predicate IsWrapSpace(c: char) {
    c == '\t' || c == '\n' || c == '\U{B}' || c == '\U{C}' || c == '\r' || c == ' '
  }

  predicate NoWrapSpace(s: string) {
    forall i :: 0 <= i < |s| ==> !IsWrapSpace(s[i])
  }

  predicate NoNewline(s: string) {
    forall i :: 0 <= i < |s| ==> s[i] != '\n'
  }

  predicate NoDoubleSpace(s: string) {
    forall i :: 0 <= i < |s| - 1 ==> !(s[i] == ' ' && s[i + 1] == ' ')
  }

  /** The characters of `s` that are not `textwrap` whitespace, in order. */
  function NonWhite(s: string): string {
    if s == [] then [] else (if IsWrapSpace(s[0]) then [] else [s[0]]) + NonWhite(s[1..])
  }

  lemma {:induction false} NonWhiteAppend(a: string, b: string)
    ensures NonWhite(a + b) == NonWhite(a) + NonWhite(b)
  {
    if a != [] {
      assert (a + b)[0] == a[0];
      assert (a + b)[1..] == a[1..] + b;
      NonWhiteAppend(a[1..], b);
    } else {
      assert a + b == b;
    }
  }

  lemma {:induction false} NonWhiteMembers(s: string, c: char)
    ensures c in NonWhite(s) ==> c in s
    ensures c in s && !IsWrapSpace(c) ==> c in NonWhite(s)
  {
    if s != [] {
      NonWhiteMembers(s[1..], c);
      assert s == [s[0]] + s[1..];
    }
  }

  function Concat(ls: seq<string>): string {
    if ls == [] then [] else ls[0] + Concat(ls[1..])
  }

  /** `"\n".join(lines)`. */
  function JoinLines(ls: seq<string>): string {
    if ls == [] then [] else if |ls| == 1 then ls[0] else ls[0] + "\n" + JoinLines(ls[1..])
  }

  lemma {:induction false} JoinLinesNonWhite(ls: seq<string>)
    ensures NonWhite(JoinLines(ls)) == NonWhite(Concat(ls))
  {
    if |ls| == 1 {
      assert ls[1..] == [];
      assert Concat(ls) == ls[0] + Concat([]);
      assert ls[0] + [] == ls[0];
    } else if |ls| > 1 {
      JoinLinesNonWhite(ls[1..]);
      NonWhiteAppend(ls[0] + "\n", JoinLines(ls[1..]));
      NonWhiteAppend(ls[0], "\n");
      NonWhiteAppend(ls[0], Concat(ls[1..]));
    }
  }

  // ----- word wrap -----------------------------------------------------------

  /** Splits `s` on whitespace; `word` is the word read so far. */
  function SplitWords(s: string, word: string): (ws: seq<string>)
    requires NoWrapSpace(word)
    ensures forall i :: 0 <= i < |ws| ==> |ws[i]| >= 1 && NoWrapSpace(ws[i])
    ensures Concat(ws) == word + NonWhite(s)
    decreases |s|
  {
    if s == [] then
      (if word == [] then [] else assert Concat([word]) == word + Concat([]); [word])
    else if IsWrapSpace(s[0]) then
      var rest := SplitWords(s[1..], []);
      assert NonWhite(s) == NonWhite(s[1..]);
      if word == [] then rest
      else
        EndWord(word, rest);
        [word] + rest
    else
      ExtendWord(word, s);
      SplitWords(s[1..], word + [s[0]])
  }

  /** Closing the word being read in front of the words after it. */
  lemma EndWord(word: string, rest: seq<string>)
    requires |word| >= 1 && NoWrapSpace(word)
    requires forall i :: 0 <= i < |rest| ==> |rest[i]| >= 1 && NoWrapSpace(rest[i])
    ensures forall i :: 0 <= i < |[word] + rest| ==> |([word] + rest)[i]| >= 1 && NoWrapSpace(([word] + rest)[i])
    ensures Concat([word] + rest) == word + Concat(rest)
  {
    assert ([word] + rest)[1..] == rest;
  }

  /** Reading one more character of a word. */
  lemma ExtendWord(word: string, s: string)
    requires NoWrapSpace(word) && s != [] && !IsWrapSpace(s[0])
    ensures NoWrapSpace(word + [s[0]])
    ensures (word + [s[0]]) + NonWhite(s[1..]) == word + NonWhite(s)
  {
    var t := NonWhite(s[1..]);
    assert NonWhite(s) == [s[0]] + t;
    Assoc(word, [s[0]], t);
    forall i | 0 <= i < |word| + 1 ensures !IsWrapSpace((word + [s[0]])[i]) {
      if i < |word| {
        assert (word + [s[0]])[i] == word[i];
      }
    }
  }

  lemma Assoc(a: string, b: string, c: string)
    ensures (a + b) + c == a + (b + c)
  {
  }

  function Words(s: string): (ws: seq<string>)
    ensures forall i :: 0 <= i < |ws| ==> |ws[i]| >= 1 && NoWrapSpace(ws[i])
    ensures Concat(ws) == NonWhite(s)
  {
    SplitWords(s, [])
  }

  function SumLen(ws: seq<string>): nat {
    if ws == [] then 0 else |ws[0]| + SumLen(ws[1..])
  }

  lemma SumLenCons(w: string, ws: seq<string>)
    ensures SumLen([w] + ws) == |w| + SumLen(ws)
  {
    assert ([w] + ws)[1..] == ws;
  }

  predicate AllNoNewline(ws: seq<string>) {
    forall i :: 0 <= i < |ws| ==> NoNewline(ws[i])
  }

  /**
   * The greedy line filling of `textwrap` (break_long_words=True): `cur`
   * is the line being filled. A word that fits follows a single space; a
   * word that does not fit starts a new line; a word longer than a whole
   * line fills what is left of the current line and continues on the next.
   * When the space after `cur` exactly fills the line, the long word gets no
   * characters of it: `_handle_long_word` adds an empty chunk, the trailing
   * whitespace check drops only that chunk, and the line keeps its space.
   */
  function Fill(ws: seq<string>, cur: string, width: int): (lines: seq<string>)
    requires width >= 1 && |cur| <= width && NoNewline(cur) && AllNoNewline(ws)
    ensures forall i :: 0 <= i < |lines| ==> 1 <= |lines[i]| <= width && NoNewline(lines[i])
    decreases SumLen(ws), |ws|, |cur|
  {
    if ws == [] then
      (if cur == [] then [] else [cur])
    else
      var w := ws[0];
      if w == [] then Fill(ws[1..], cur, width)
      else if cur == [] then
        if |w| <= width then Fill(ws[1..], w, width)
        else
          SumLenCons(w[width..], ws[1..]);
          [w[..width]] + Fill([w[width..]] + ws[1..], [], width)
      else if |cur| + 1 + |w| <= width then Fill(ws[1..], cur + " " + w, width)
      else if |w| <= width || |cur| == width then [cur] + Fill(ws, [], width)
      else if |cur| + 1 == width then [cur + " "] + Fill(ws, [], width)
      else
        var k := width - |cur| - 1;
        SumLenCons(w[k..], ws[1..]);
        [cur + " " + w[..k]] + Fill([w[k..]] + ws[1..], [], width)
  }

  lemma ConcatCons(w: string, ws: seq<string>)
    ensures Concat([w] + ws) == w + Concat(ws)
  {
    assert ([w] + ws)[1..] == ws;
  }

  lemma EmitLine(line: string, rest: seq<string>)
    ensures NonWhite(Concat([line] + rest)) == NonWhite(line) + NonWhite(Concat(rest))
  {
    ConcatCons(line, rest);
    NonWhiteAppend(line, Concat(rest));
  }

  lemma SplitWord(w: string, k: nat)
    requires k <= |w|
    ensures NonWhite(w) == NonWhite(w[..k]) + NonWhite(w[k..])
  {
    assert w == w[..k] + w[k..];
    NonWhiteAppend(w[..k], w[k..]);
  }

  lemma JoinWithSpace(cur: string, w: string)
    ensures NonWhite(cur + " " + w) == NonWhite(cur) + NonWhite(w)
  {
    NonWhiteAppend(cur + " ", w);
    NonWhiteAppend(cur, " ");
  }

  /** Filling keeps every non-blank character, in order. */
  lemma {:induction false} FillKeepsText(ws: seq<string>, cur: string, width: int)
    requires width >= 1 && |cur| <= width && NoNewline(cur) && AllNoNewline(ws)
    ensures NonWhite(Concat(Fill(ws, cur, width))) == NonWhite(cur) + NonWhite(Concat(ws))
    decreases SumLen(ws), |ws|, |cur|, 1
  {
    if ws == [] {
      if cur != [] {
        assert Fill(ws, cur, width) == [cur] + [];
        EmitLine(cur, []);
      }
    } else if ws[0] == [] || (cur == [] && |ws[0]| <= width) {
      FillTakesWord(ws, cur, width);
    } else if cur == [] {
      FillBreaksWord(ws, cur, width, width);
    } else if |cur| + 1 + |ws[0]| <= width || |ws[0]| <= width || |cur| == width {
      FillMovesWord(ws, cur, width);
    } else if |cur| + 1 == width {
      FillPadsLine(ws, cur, width);
    } else {
      FillBreaksWord(ws, cur, width, width - |cur| - 1);
    }
  }

  /** The branches of Fill that skip an empty word, or start an empty line with the next word. */
  lemma {:induction false} FillTakesWord(ws: seq<string>, cur: string, width: int)
    requires width >= 1 && |cur| <= width && NoNewline(cur) && AllNoNewline(ws)
    requires ws != [] && (ws[0] == [] || (cur == [] && |ws[0]| <= width))
    ensures NonWhite(Concat(Fill(ws, cur, width))) == NonWhite(cur) + NonWhite(Concat(ws))
    decreases SumLen(ws), |ws|, |cur|, 0
  {
    var w := ws[0];
    var tail := ws[1..];
    assert NonWhite(Concat(ws)) == NonWhite(w) + NonWhite(Concat(tail)) by {
      assert ws == [w] + tail;
      EmitLine(w, tail);
    }
    if w == [] {
      assert Fill(ws, cur, width) == Fill(tail, cur, width);
      FillKeepsText(tail, cur, width);
    } else {
      assert Fill(ws, cur, width) == Fill(tail, w, width);
      FillKeepsText(tail, w, width);
    }
  }

  /** The branches of Fill that put the next word after `cur`, or on a line of its own. */
  lemma {:induction false} FillMovesWord(ws: seq<string>, cur: string, width: int)
    requires width >= 1 && |cur| <= width && NoNewline(cur) && AllNoNewline(ws)
    requires ws != [] && ws[0] != [] && cur != []
    requires |cur| + 1 + |ws[0]| <= width || |ws[0]| <= width || |cur| == width
    ensures NonWhite(Concat(Fill(ws, cur, width))) == NonWhite(cur) + NonWhite(Concat(ws))
    decreases SumLen(ws), |ws|, |cur|, 0
  {
    var w := ws[0];
    var tail := ws[1..];
    var a, b, d := NonWhite(cur), NonWhite(w), NonWhite(Concat(tail));
    assert NonWhite(Concat(ws)) == b + d by {
      assert ws == [w] + tail;
      EmitLine(w, tail);
    }
    if |cur| + 1 + |w| <= width {
      assert Fill(ws, cur, width) == Fill(tail, cur + " " + w, width);
      FillKeepsText(tail, cur + " " + w, width);
      JoinWithSpace(cur, w);
    } else {
      var filled := Fill(ws, [], width);
      assert Fill(ws, cur, width) == [cur] + filled;
      assert NonWhite(Concat(filled)) == b + d by {
        FillKeepsText(ws, [], width);
      }
      EmitLine(cur, filled);
    }
  }

  /** The branch of Fill that ends `cur` with its space and moves a long word to the next line whole. */
  lemma {:induction false} FillPadsLine(ws: seq<string>, cur: string, width: int)
    requires width >= 1 && |cur| <= width && NoNewline(cur) && AllNoNewline(ws)
    requires ws != [] && |ws[0]| > width && cur != [] && |cur| + 1 == width
    ensures NonWhite(Concat(Fill(ws, cur, width))) == NonWhite(cur) + NonWhite(Concat(ws))
    decreases SumLen(ws), |ws|, |cur|, 0
  {
    var filled := Fill(ws, [], width);
    assert Fill(ws, cur, width) == [cur + " "] + filled;
    assert NonWhite(Concat(filled)) == NonWhite(Concat(ws)) by {
      FillKeepsText(ws, [], width);
    }
    assert NonWhite(cur + " ") == NonWhite(cur) by {
      NonWhiteAppend(cur, " ");
    }
    EmitLine(cur + " ", filled);
  }

  /** The two branches of Fill that break a long word after its first `k` characters. */
  lemma {:induction false} FillBreaksWord(ws: seq<string>, cur: string, width: int, k: nat)
    requires width >= 1 && |cur| <= width && NoNewline(cur) && AllNoNewline(ws)
    requires ws != [] && |ws[0]| > width
    requires (cur == [] && k == width) || (cur != [] && |cur| + 1 < width && k == width - |cur| - 1)
    ensures NonWhite(Concat(Fill(ws, cur, width))) == NonWhite(cur) + NonWhite(Concat(ws))
    decreases SumLen(ws), |ws|, |cur|, 0
  {
    var w := ws[0];
    var rest := [w[k..]] + ws[1..];
    assert AllNoNewline(rest) by {
      assert forall i :: 0 <= i < |w| - k ==> w[k..][i] == w[k + i];
    }
    FillBreakUnfold(ws, cur, width, k);
    FillKeepsText(rest, [], width);
    BrokenWordText(cur, w, k, ws[1..], Fill(rest, [], width));
    assert ws == [w] + ws[1..];
  }

  /** The text of a broken word: the first line, then lines holding the rest of the word and the words after it. */
  lemma BrokenWordText(cur: string, w: string, k: nat, tail: seq<string>, filled: seq<string>)
    requires k <= |w|
    requires NonWhite(Concat(filled)) == NonWhite(Concat([w[k..]] + tail))
    ensures NonWhite(Concat([if cur == [] then w[..k] else cur + " " + w[..k]] + filled))
         == NonWhite(cur) + NonWhite(Concat([w] + tail))
  {
    var line := if cur == [] then w[..k] else cur + " " + w[..k];
    var a, b, c, d := NonWhite(cur), NonWhite(w[..k]), NonWhite(w[k..]), NonWhite(Concat(tail));
    assert NonWhite(Concat([line] + filled)) == NonWhite(line) + NonWhite(Concat(filled)) by {
      EmitLine(line, filled);
    }
    assert NonWhite(line) == a + b by {
      if cur == [] {
        assert NonWhite(cur) == [];
      } else {
        JoinWithSpace(cur, w[..k]);
      }
    }
    assert NonWhite(Concat(filled)) == c + d by {
      EmitLine(w[k..], tail);
    }
    assert NonWhite(Concat([w] + tail)) == (b + c) + d by {
      EmitLine(w, tail);
      SplitWord(w, k);
    }
    Regroup(a, b, c, d);
  }

  lemma Regroup(a: string, b: string, c: string, d: string)
    ensures (a + b) + (c + d) == a + ((b + c) + d)
  {
  }

  /** Breaking a long word: the first line, then the rest of the word and the words after it from an empty line. */
  lemma FillBreakUnfold(ws: seq<string>, cur: string, width: int, k: nat)
    requires width >= 1 && |cur| <= width && NoNewline(cur) && AllNoNewline(ws)
    requires ws != [] && |ws[0]| > width
    requires (cur == [] && k == width) || (cur != [] && |cur| + 1 < width && k == width - |cur| - 1)
    requires AllNoNewline([ws[0][k..]] + ws[1..])
    ensures SumLen([ws[0][k..]] + ws[1..]) < SumLen(ws)
    ensures Fill(ws, cur, width)
         == [if cur == [] then ws[0][..k] else cur + " " + ws[0][..k]] + Fill([ws[0][k..]] + ws[1..], [], width)
  {
    SumLenCons(ws[0][k..], ws[1..]);
    SumLenCons(ws[0], ws[1..]);
    assert ws == [ws[0]] + ws[1..];
  }

  /** `textwrap.wrap(text, width)`: lines of 1 to `width` characters, none holding a newline. */
  function WrapLines(text: string, width: int): (lines: seq<string>)
    requires width >= 1
    ensures forall i :: 0 <= i < |lines| ==> 1 <= |lines[i]| <= width && NoNewline(lines[i])
  {
    var ws := Words(text);
    assert AllNoNewline(ws) by {
      forall i | 0 <= i < |ws| ensures NoNewline(ws[i]) {
        assert NoWrapSpace(ws[i]);
      }
    }
    Fill(ws, [], width)
  }

  /** `_WrapText`: the wrapped lines joined by newlines. */
  function WrapText(text: string, width: int, medianCharWidth: int): string
    requires medianCharWidth >= 1
  {
    JoinLines(WrapLines(text, MaxChars(width, medianCharWidth)))
  }

  lemma {:induction false} NonWhiteOfNoWrapSpace(s: string)
    requires NoWrapSpace(s)
    ensures NonWhite(s) == s
  {
    if s != [] {
      NonWhiteOfNoWrapSpace(s[1..]);
    }
  }

  /** Wrapping keeps the non-blank characters of its input, in order. */
  lemma WrapKeepsText(text: string, width: int, medianCharWidth: int)
    requires medianCharWidth >= 1
    ensures NonWhite(WrapText(text, width, medianCharWidth)) == NonWhite(text)
  {
    var w := MaxChars(width, medianCharWidth);
    var ws := Words(text);
    assert AllNoNewline(ws) by {
      forall i | 0 <= i < |ws| ensures NoNewline(ws[i]) {
        assert NoWrapSpace(ws[i]);
      }
    }
    FillKeepsText(ws, [], w);
    JoinLinesNonWhite(WrapLines(text, w));
    assert NoWrapSpace(NonWhite(text)) by {
      NoWrapSpaceOfNonWhite(text);
    }
    NonWhiteOfNoWrapSpace(NonWhite(text));
  }

  lemma {:induction false} NoWrapSpaceOfNonWhite(s: string)
    ensures NoWrapSpace(NonWhite(s))
  {
    if s != [] {
      NoWrapSpaceOfNonWhite(s[1..]);
    }
  }

  // ----- subsequences --------------------------------------------------------

  /** `a` is `b` with some characters deleted. */
  predicate IsSubseq(a: string, b: string)
    decreases |b|
  {
    if b == [] then a == []
    else (a != [] && a[0] == b[0] && IsSubseq(a[1..], b[1..])) || IsSubseq(a, b[1..])
  }

  lemma {:induction false} SubseqEmpty(b: string)
    ensures IsSubseq([], b)
    decreases |b|
  {
    if b != [] { SubseqEmpty(b[1..]); }
  }

  lemma {:induction false} SubseqRefl(a: string)
    ensures IsSubseq(a, a)
    decreases |a|
  {
    if a != [] { SubseqRefl(a[1..]); }
  }

  lemma {:induction false} SubseqDrop(a: string, b: string, x: string)
    requires IsSubseq(a, b)
    ensures IsSubseq(a, x + b)
    decreases |x|
  {
    if x != [] {
      SubseqDrop(a, b, x[1..]);
      assert (x + b)[1..] == x[1..] + b;
      assert x + b != [];
    } else {
      assert x + b == b;
    }
  }

  lemma {:induction false} SubseqTrans(a: string, b: string, c: string)
    requires IsSubseq(a, b) && IsSubseq(b, c)
    ensures IsSubseq(a, c)
    decreases |c|
  {
    if c != [] {
      if IsSubseq(b, c[1..]) {
        SubseqTrans(a, b, c[1..]);
      } else {
        assert b != [] && b[0] == c[0] && IsSubseq(b[1..], c[1..]);
        if a != [] && a[0] == b[0] && IsSubseq(a[1..], b[1..]) {
          SubseqTrans(a[1..], b[1..], c[1..]);
        } else {
          SubseqTrans(a, b[1..], c[1..]);
        }
      }
    }
  }

  lemma {:induction false} SubseqMembers(a: string, b: string, i: nat)
    requires IsSubseq(a, b) && i < |a|
    ensures a[i] in b
    decreases |b|
  {
    if b != [] {
      if a != [] && a[0] == b[0] && IsSubseq(a[1..], b[1..]) {
        if i > 0 { SubseqMembers(a[1..], b[1..], i - 1); }
      } else {
        SubseqMembers(a, b[1..], i);
      }
    }
  }

  // ----- whitespace clean-up ---------------------------------------------------

  /** `text.replace(c, "")`. */
  function RemoveChar(s: string, c: char): (r: string)
    ensures forall i :: 0 <= i < |r| ==> r[i] != c
  {
    if s == [] then [] else (if s[0] == c then [] else [s[0]]) + RemoveChar(s[1..], c)
  }

  lemma {:induction false} RemoveCharSubseq(s: string, c: char)
    ensures IsSubseq(RemoveChar(s, c), s)
  {
    if s != [] {
      RemoveCharSubseq(s[1..], c);
      if s[0] == c {
        assert RemoveChar(s, c) == RemoveChar(s[1..], c);
        SubseqDrop(RemoveChar(s[1..], c), s[1..], [s[0]]);
        assert [s[0]] + s[1..] == s;
      } else {
        assert ([s[0]] + RemoveChar(s[1..], c))[1..] == RemoveChar(s[1..], c);
      }
    }
  }

  lemma {:induction false} RemoveCharAbsent(s: string, c: char)
    requires forall i :: 0 <= i < |s| ==> s[i] != c
    ensures RemoveChar(s, c) == s
  {
    if s != [] {
      RemoveCharAbsent(s[1..], c);
    }
  }

  /** The number of consecutive characters `c` in `s` from position `p`. */
  function RunOf(s: string, p: nat, c: char): (n: nat)
    requires p <= |s|
    ensures p + n <= |s|
    ensures forall i :: p <= i < p + n ==> s[i] == c
    ensures p + n < |s| ==> s[p + n] != c
    decreases |s| - p
  {
    if p < |s| && s[p] == c then 1 + RunOf(s, p + 1, c) else 0
  }

  /**
   * `spaces_re.sub("", s)` from position `p`, with the pattern
   * `(^\n)|(\n {2,})|(\n*$)|( {2,})` under `re.M`: at each position the
   * first alternative that matches a non-empty text is deleted, otherwise
   * the character is kept. `^` holds at the start and after a newline,
   * `$` at the end and before a newline.
   */
  function RemoveSpacingFrom(s: string, p: nat): string
    requires p <= |s|
    decreases |s| - p
  {
    if p == |s| then []
    else if s[p] == '\n' then
      if p == 0 || s[p - 1] == '\n' then RemoveSpacingFrom(s, p + 1)
      else if RunOf(s, p + 1, ' ') >= 2 then RemoveSpacingFrom(s, p + 1 + RunOf(s, p + 1, ' '))
      else
        var n := RunOf(s, p, '\n');
        if p + n == |s| then []
        else if n >= 2 then RemoveSpacingFrom(s, p + n - 1)
        else [s[p]] + RemoveSpacingFrom(s, p + 1)
    else if s[p] == ' ' && RunOf(s, p, ' ') >= 2 then RemoveSpacingFrom(s, p + RunOf(s, p, ' '))
    else [s[p]] + RemoveSpacingFrom(s, p + 1)
  }

  function RemoveSpacing(s: string): string {
    RemoveSpacingFrom(s, 0)
  }

  /** The characters of `s` other than spaces and newlines, in order. */
  function NonBlank(s: string): string {
    if s == [] then [] else (if s[0] == ' ' || s[0] == '\n' then [] else [s[0]]) + NonBlank(s[1..])
  }

  lemma {:induction false} NonBlankAppend(a: string, b: string)
    ensures NonBlank(a + b) == NonBlank(a) + NonBlank(b)
  {
    if a != [] {
      assert (a + b)[0] == a[0];
      assert (a + b)[1..] == a[1..] + b;
      NonBlankAppend(a[1..], b);
    } else {
      assert a + b == b;
    }
  }

  lemma {:induction false} NonBlankOfBlanks(s: string)
    requires forall i :: 0 <= i < |s| ==> s[i] == ' ' || s[i] == '\n'
    ensures NonBlank(s) == []
  {
    if s != [] {
      NonBlankOfBlanks(s[1..]);
    }
  }

  /** Deleting `s[p..q]` (all blanks) keeps the non-blank characters of `s[p..]`. */
  lemma DeleteBlanks(s: string, p: nat, q: nat)
    requires p <= q <= |s|
    requires forall i :: p <= i < q ==> s[i] == ' ' || s[i] == '\n'
    ensures NonBlank(s[p..]) == NonBlank(s[q..])
  {
    assert s[p..] == s[p..q] + s[q..];
    NonBlankAppend(s[p..q], s[q..]);
    NonBlankOfBlanks(s[p..q]);
  }

  /** One step of the clean-up at `p`: either `s[p]` is kept, or a run of blanks `s[p..q]` is deleted. */
  lemma RemoveSpacingStep(s: string, p: nat) returns (q: nat, copies: bool)
    requires p < |s|
    ensures p < q <= |s|
    ensures copies ==> q == p + 1 && RemoveSpacingFrom(s, p) == [s[p]] + RemoveSpacingFrom(s, q)
    ensures !copies ==> RemoveSpacingFrom(s, p) == RemoveSpacingFrom(s, q)
    ensures !copies ==> forall i :: p <= i < q ==> s[i] == ' ' || s[i] == '\n'
    ensures s[p] != '\n' ==> (copies <==> !(s[p] == ' ' && RunOf(s, p, ' ') >= 2))
    ensures s[p] != '\n' && !copies ==> q == p + RunOf(s, p, ' ')
  {
    if s[p] == '\n' {
      q, copies := NewlineStep(s, p);
    } else if s[p] == ' ' && RunOf(s, p, ' ') >= 2 {
      q, copies := p + RunOf(s, p, ' '), false;
    } else {
      q, copies := p + 1, true;
    }
  }

  /** The step at a newline: the first two alternatives of `spaces_re`, or a run of newlines. */
  lemma NewlineStep(s: string, p: nat) returns (q: nat, copies: bool)
    requires p < |s| && s[p] == '\n'
    ensures p < q <= |s|
    ensures copies ==> q == p + 1 && RemoveSpacingFrom(s, p) == [s[p]] + RemoveSpacingFrom(s, q)
    ensures !copies ==> RemoveSpacingFrom(s, p) == RemoveSpacingFrom(s, q)
    ensures !copies ==> forall i :: p <= i < q ==> s[i] == ' ' || s[i] == '\n'
  {
    if p == 0 || s[p - 1] == '\n' {
      q, copies := p + 1, false;
      assert RemoveSpacingFrom(s, p) == RemoveSpacingFrom(s, q);
    } else if RunOf(s, p + 1, ' ') >= 2 {
      q, copies := p + 1 + RunOf(s, p + 1, ' '), false;
      assert RemoveSpacingFrom(s, p) == RemoveSpacingFrom(s, q);
    } else {
      q, copies := NewlineRun(s, p);
    }
  }

  /** A newline after other text and not before two spaces: the `\n*$` alternative, or the newline is kept. */
  lemma NewlineRun(s: string, p: nat) returns (q: nat, copies: bool)
    requires p < |s| && s[p] == '\n' && p > 0 && s[p - 1] != '\n' && RunOf(s, p + 1, ' ') < 2
    ensures p < q <= |s|
    ensures copies ==> q == p + 1 && RemoveSpacingFrom(s, p) == [s[p]] + RemoveSpacingFrom(s, q)
    ensures !copies ==> RemoveSpacingFrom(s, p) == RemoveSpacingFrom(s, q)
    ensures !copies ==> forall i :: p <= i < q ==> s[i] == ' ' || s[i] == '\n'
  {
    var n := RunOf(s, p, '\n');
    if p + n == |s| {
      q, copies := |s|, false;
      assert RemoveSpacingFrom(s, p) == [];
    } else if n >= 2 {
      q, copies := p + n - 1, false;
      assert RemoveSpacingFrom(s, p) == RemoveSpacingFrom(s, q);
    } else {
      q, copies := p + 1, true;
    }
  }

  /** The clean-up only deletes characters, and only spaces and newlines. */
  lemma {:induction false} RemoveSpacingDeletesBlanks(s: string, p: nat)
    requires p <= |s|
    ensures IsSubseq(RemoveSpacingFrom(s, p), s[p..])
    ensures NonBlank(RemoveSpacingFrom(s, p)) == NonBlank(s[p..])
    decreases |s| - p
  {
    var r := RemoveSpacingFrom(s, p);
    if p < |s| {
      var q, copies := RemoveSpacingStep(s, p);
      RemoveSpacingDeletesBlanks(s, q);
      var rest := RemoveSpacingFrom(s, q);
      assert s[p..] == s[p..q] + s[q..];
      if copies {
        assert r[1..] == rest;
        NonBlankAppend([s[p]], rest);
        NonBlankAppend([s[p]], s[q..]);
      } else {
        SubseqDrop(rest, s[q..], s[p..q]);
        DeleteBlanks(s, p, q);
      }
    }
  }

  /** On a line without newlines, a kept space is never followed by another one. */
  lemma {:induction false} RemoveSpacingHead(s: string, p: nat)
    requires p <= |s|
    requires forall i :: p <= i < |s| ==> s[i] != '\n'
    ensures var r := RemoveSpacingFrom(s, p);
      r != [] && r[0] == ' ' ==> s[p] == ' ' && (p + 1 == |s| || s[p + 1] != ' ')
    decreases |s| - p
  {
    if p < |s| && s[p] == ' ' && RunOf(s, p, ' ') >= 2 {
      RemoveSpacingHead(s, p + RunOf(s, p, ' '));
    }
  }

  lemma {:induction false} RemoveSpacingNoDoubleSpace(s: string, p: nat)
    requires p <= |s|
    requires forall i :: p <= i < |s| ==> s[i] != '\n'
    ensures NoDoubleSpace(RemoveSpacingFrom(s, p))
    decreases |s| - p
  {
    if p < |s| {
      if s[p] == ' ' && RunOf(s, p, ' ') >= 2 {
        RemoveSpacingNoDoubleSpace(s, p + RunOf(s, p, ' '));
      } else {
        RemoveSpacingNoDoubleSpace(s, p + 1);
        RemoveSpacingHead(s, p + 1);
        var rest := RemoveSpacingFrom(s, p + 1);
        var r := [s[p]] + rest;
        assert RemoveSpacingFrom(s, p) == r;
        forall i | 0 <= i < |r| - 1 ensures !(r[i] == ' ' && r[i + 1] == ' ') {
          if i > 0 { assert r[i] == rest[i - 1] && r[i + 1] == rest[i]; }
        }
      }
    }
  }

  /** A line without newlines and without double spaces is left as it is. */
  lemma {:induction false} RemoveSpacingKeepsClean(s: string, p: nat)
    requires p <= |s|
    requires forall i :: p <= i < |s| ==> s[i] != '\n'
    requires forall i :: p <= i < |s| - 1 ==> !(s[i] == ' ' && s[i + 1] == ' ')
    ensures RemoveSpacingFrom(s, p) == s[p..]
    decreases |s| - p
  {
    if p < |s| {
      RemoveSpacingKeepsClean(s, p + 1);
      assert s[p..] == [s[p]] + s[p + 1..];
    }
  }

  /** A character survives the clean-up of a line unless it is a space next to another space. */
  predicate Kept(s: string, i: nat)
    requires i < |s|
  {
    !(s[i] == ' ' && ((i > 0 && s[i - 1] == ' ') || (i + 1 < |s| && s[i + 1] == ' ')))
  }

  /** The characters of `s` from `p` on that are not part of a run of two or more spaces. */
  function KeptFrom(s: string, p: nat): string
    requires p <= |s|
    decreases |s| - p
  {
    if p == |s| then [] else (if Kept(s, p) then [s[p]] else []) + KeptFrom(s, p + 1)
  }

  lemma {:induction false} SkipRun(s: string, p: nat, n: nat)
    requires n >= 2 && p + n <= |s|
    requires forall i :: p <= i < p + n ==> s[i] == ' '
    ensures KeptFrom(s, p) == KeptFrom(s, p + n)
    decreases n
  {
    assert !Kept(s, p) by { assert s[p + 1] == ' '; }
    if n == 2 {
      assert !Kept(s, p + 1) by { assert s[p] == ' '; }
    } else {
      SkipRun(s, p + 1, n - 1);
    }
  }

  /** On a line, `spaces_re` deletes exactly the maximal runs of two or more spaces. */
  lemma {:induction false} RemoveSpacingDropsRuns(s: string, p: nat)
    requires p <= |s|
    requires forall i :: p <= i < |s| ==> s[i] != '\n'
    requires p < |s| && s[p] == ' ' && p > 0 ==> s[p - 1] != ' '
    ensures RemoveSpacingFrom(s, p) == KeptFrom(s, p)
    decreases |s| - p
  {
    if p < |s| {
      var q, copies := RemoveSpacingStep(s, p);
      if !copies {
        SkipRun(s, p, q - p);
        RemoveSpacingDropsRuns(s, q);
      } else {
        if s[p] == ' ' {
          assert p + 1 < |s| ==> s[p + 1] != ' ' by { assert RunOf(s, p, ' ') == 1 + RunOf(s, p + 1, ' '); }
        }
        assert Kept(s, p);
        assert KeptFrom(s, p) == [s[p]] + KeptFrom(s, p + 1);
        RemoveSpacingDropsRuns(s, p + 1);
      }
    }
  }

  /** The deletions of `_FormatField`: non-breaking spaces, then `spaces_re`. */
  function CleanField(text: string): string {
    RemoveSpacing(RemoveChar(text, '\U{A0}'))
  }

  /** `_FormatField`: clean up, then wrap when the measured width exceeds the cell width. */
  function FormatField(text: string, width: int, face: Face, medianCharWidth: int): string
    requires medianCharWidth >= 1
  {
    var t := CleanField(text);
    if face.multiline(t).0 > width then WrapText(t, width, medianCharWidth) else t
  }

  /**
   * Before the wrap the formatter only deletes characters; the wrap keeps
   * every non-blank character; the result holds no non-breaking space.
   */
  lemma FormatFieldDeletes(text: string, width: int, face: Face, medianCharWidth: int)
    requires medianCharWidth >= 1
    ensures IsSubseq(CleanField(text), text)
    ensures NonWhite(FormatField(text, width, face, medianCharWidth)) == NonWhite(CleanField(text))
    ensures forall i :: 0 <= i < |FormatField(text, width, face, medianCharWidth)| ==>
      FormatField(text, width, face, medianCharWidth)[i] != '\U{A0}'
  {
    var t0 := RemoveChar(text, '\U{A0}');
    var t := CleanField(text);
    RemoveCharSubseq(text, '\U{A0}');
    RemoveSpacingDeletesBlanks(t0, 0);
    assert t0[0..] == t0;
    SubseqTrans(t, t0, text);
    WrapKeepsText(t, width, medianCharWidth);
    var r := FormatField(text, width, face, medianCharWidth);
    forall i | 0 <= i < |r| ensures r[i] != '\U{A0}' {
      if r[i] == '\U{A0}' {
        NonWhiteMembers(r, r[i]);
        NonWhiteMembers(t, r[i]);
        if r != t { assert r[i] in t; }
        var j :| 0 <= j < |t| && t[j] == r[i];
        SubseqMembers(t, t0, j);
        assert false;
      }
    }
  }

  /**
   * On text without newlines the clean-up drops the non-breaking spaces and
   * then exactly the runs of two or more spaces, and leaves no two adjacent spaces.
   */
  lemma CleanFieldNoDoubleSpace(text: string)
    requires NoNewline(text)
    ensures CleanField(text) == KeptFrom(RemoveChar(text, '\U{A0}'), 0)
    ensures NoDoubleSpace(CleanField(text))
  {
    var t0 := RemoveChar(text, '\U{A0}');
    RemoveCharSubseq(text, '\U{A0}');
    forall i | 0 <= i < |t0| ensures t0[i] != '\n' {
      SubseqMembers(t0, text, i);
    }
    RemoveSpacingNoDoubleSpace(t0, 0);
    RemoveSpacingDropsRuns(t0, 0);
  }

  /**
   * A text without newlines, non-breaking spaces or double spaces that fits
   * its cell comes back unchanged.
   */
  lemma FormatFieldKeepsFitting(text: string, width: int, face: Face, medianCharWidth: int)
    requires medianCharWidth >= 1
    requires NoNewline(text) && NoDoubleSpace(text)
    requires forall i :: 0 <= i < |text| ==> text[i] != '\U{A0}'
    requires face.multiline(text).0 <= width
    ensures FormatField(text, width, face, medianCharWidth) == text
  {
    RemoveCharAbsent(text, '\U{A0}');
    RemoveSpacingKeepsClean(text, 0);
    assert text[0..] == text;
  }
}
