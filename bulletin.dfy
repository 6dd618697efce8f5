/**
 * The pure helpers of the bulletin scraper (`SIBOM`): the tag filters
 * handed to BeautifulSoup's `find_all` (`_MatchTables`, `_MatchParagraphs`)
 * over an abstract tag tree, and the address of each index page read by
 * `GetLatestID`.
 */
module Bulletin {
  import opened Results
  import opened Numbers
  import opened Articles

  /** A parsed HTML node: a tag with its children, or a run of text. */
  datatype Node = Element(name: string, children: seq<Node>) | Str(text: string)

  /** `tag.text`: the text of every string below the node, in document order. */
  function TextOf(n: Node): string
    decreases n, 1
  {
    match n
    case Str(t) => t
    case Element(_, cs) => TextOfAll(cs)
  }

  function TextOfAll(cs: seq<Node>): string
    decreases cs, 0
  {
    if cs == [] then [] else TextOf(cs[0]) + TextOfAll(cs[1..])
  }

  predicate IsTable(n: Node) {
    n.Element? && n.name == "table"
  }

  /** `tag.find("table")` on the children `cs`: some tag below is a table. */
  predicate AnyTable(cs: seq<Node>)
    decreases cs
  {
    cs != [] && ((cs[0].Element? && (cs[0].name == "table" || AnyTable(cs[0].children))) || AnyTable(cs[1..]))
  }

  /** Every node strictly below `n`, in document order: an independent account of "below". */
  function Descendants(n: Node): seq<Node>
    decreases n, 1
  {
    match n
    case Str(_) => []
    case Element(_, cs) => DescendantsAll(cs)
  }

  function DescendantsAll(cs: seq<Node>): seq<Node>
    decreases cs, 0
  {
    if cs == [] then [] else [cs[0]] + Descendants(cs[0]) + DescendantsAll(cs[1..])
  }

  lemma {:induction false} AnyTableIffDescendant(cs: seq<Node>)
    ensures AnyTable(cs) <==> exists i :: 0 <= i < |DescendantsAll(cs)| && IsTable(DescendantsAll(cs)[i])
    decreases cs
  {
    if cs != [] {
      var head := [cs[0]] + Descendants(cs[0]);
      var ds := DescendantsAll(cs);
      assert ds == head + DescendantsAll(cs[1..]);
      AnyTableIffDescendant(cs[1..]);
      if cs[0].Element? {
        AnyTableIffDescendant(cs[0].children);
        assert Descendants(cs[0]) == DescendantsAll(cs[0].children);
      }
      if AnyTable(cs) {
        if cs[0].Element? && cs[0].name == "table" {
          assert IsTable(ds[0]);
        } else if cs[0].Element? && AnyTable(cs[0].children) {
          var i :| 0 <= i < |Descendants(cs[0])| && IsTable(Descendants(cs[0])[i]);
          assert ds[1 + i] == Descendants(cs[0])[i];
        } else {
          var i :| 0 <= i < |DescendantsAll(cs[1..])| && IsTable(DescendantsAll(cs[1..])[i]);
          assert ds[|head| + i] == DescendantsAll(cs[1..])[i];
        }
      }
      if exists i :: 0 <= i < |ds| && IsTable(ds[i]) {
        var i :| 0 <= i < |ds| && IsTable(ds[i]);
        if i == 0 {
        } else if i < |head| {
          assert IsTable(Descendants(cs[0])[i - 1]);
        } else {
          assert IsTable(DescendantsAll(cs[1..])[i - |head|]);
        }
      }
    }
  }

  /** The characters `_MatchTables` strips: newline, non-breaking space and space. */
  predicate IsStripped(c: char) {
    c == '\n' || c == '\U{A0}' || c == ' '
  }

  function StripStart(s: string): (r: string)
    ensures |r| <= |s| && r == s[|s| - |r|..]
    ensures forall i :: 0 <= i < |s| - |r| ==> IsStripped(s[i])
    ensures r != [] ==> !IsStripped(r[0])
  {
    if s != [] && IsStripped(s[0]) then StripStart(s[1..]) else s
  }

  function StripEnd(s: string): (r: string)
    ensures |r| <= |s| && r == s[..|r|]
    ensures forall i :: |r| <= i < |s| ==> IsStripped(s[i])
    ensures r != [] ==> !IsStripped(r[|r| - 1])
  {
    if s != [] && IsStripped(s[|s| - 1]) then StripEnd(s[..|s| - 1]) else s
  }

  /** `s.strip("\n\xa0 ")`. */
  function Strip(s: string): string {
    StripEnd(StripStart(s))
  }

  /** Some character of `s` is not one of the stripped ones. */
  ghost predicate Visible(s: string) {
    exists i :: 0 <= i < |s| && !IsStripped(s[i])
  }

  /** Stripping leaves something exactly when some character is not one of the stripped ones. */
  lemma StripEmptyIff(s: string)
    ensures Strip(s) != [] <==> Visible(s)
  {
    var t := StripStart(s);
    if Strip(s) != [] {
      assert !IsStripped(t[0]);
      assert s[|s| - |t|] == t[0];
    }
    if Visible(s) {
      var i :| 0 <= i < |s| && !IsStripped(s[i]);
      assert i >= |s| - |t|;
      assert t[i - (|s| - |t|)] == s[i];
      assert i - (|s| - |t|) < |StripEnd(t)|;
    }
  }

  /** Some node strictly below `n` is a table. */
  ghost predicate TableBelow(n: Node) {
    exists i :: 0 <= i < |Descendants(n)| && IsTable(Descendants(n)[i])
  }

  /** `SIBOM._MatchTables`: an innermost table with some visible text. */
  predicate MatchTables(n: Node) {
    IsTable(n) && !AnyTable(n.children) && Strip(TextOf(n)) != []
  }

  /**
   * A node is kept as a table exactly when it is a table, no node below it is
   * a table, and its text holds a character other than newline, non-breaking
   * space and space.
   */
  lemma MatchTablesIff(n: Node)
    ensures MatchTables(n) <==> IsTable(n) && !TableBelow(n) && Visible(TextOf(n))
  {
    StripEmptyIff(TextOf(n));
    if n.Element? {
      AnyTableIffDescendant(n.children);
      assert Descendants(n) == DescendantsAll(n.children);
    }
  }

  /** `SIBOM._MatchParagraphs`: a node other than a table whose text opens with an article heading. */
  predicate MatchParagraphs(n: Node) {
    !IsTable(n) && MatchArticle(TextOf(n)).Some?
  }

  /** A node is kept as an article exactly when it is not a table and some reading of the heading pattern fits its text. */
  lemma MatchParagraphsIff(n: Node)
    ensures MatchParagraphs(n) <==> !IsTable(n) && ReadsAsArticle(TextOf(n))
  {
    MatchArticleIffReading(TextOf(n));
  }

  /** No node is taken both as a table and as an article. */
  lemma TablesAreNotArticles(n: Node)
    ensures !(MatchTables(n) && MatchParagraphs(n))
  {
  }

  const SibomUrl: string := "https://sibom.slyt.gba.gov.ar/bulletins/"

  /** The index page `i` read by `GetLatestID`: the first page has no query. */
  function PageUrl(base: string, i: nat): string {
    base + (if i > 1 then "?page=" + NatToString(i) else "")
  }

  /** The first page is the base address; each later page number can be read back from its address. */
  lemma PageUrlShape(base: string, i: nat)
    ensures i <= 1 ==> PageUrl(base, i) == base
    ensures i > 1 ==> var u := PageUrl(base, i);
      u[..|base| + 6] == base + "?page=" && ParseInt(u[|base| + 6..]) == Some(i)
  {
    if i > 1 {
      var u := PageUrl(base, i);
      assert u[|base| + 6..] == NatToString(i);
      ParseIntOfNat(i);
    }
  }

  /** Different pages have different addresses. */
  lemma PageUrlInjective(base: string, i: nat, j: nat)
    requires 1 <= i && 1 <= j && i != j
    ensures PageUrl(base, i) != PageUrl(base, j)
  {
    PageUrlShape(base, i);
    PageUrlShape(base, j);
  }

  /** The five pages `GetLatestID` reads, in order. */
  function IndexPages(base: string): (urls: seq<string>)
    ensures |urls| == 5 && urls[0] == base
    ensures forall p :: 1 <= p < 5 ==> urls[p] == base + "?page=" + NatToString(p + 1)
  {
    seq(5, p requires 0 <= p < 5 => PageUrl(base, p + 1))
  }
}
