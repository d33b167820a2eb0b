// The print stylesheet handed to the renderer next to the document: two `@font-face`
// rules that load the Inter fonts from `file://` URLs, the page size, and font and
// line-height overrides. The CSS text is kept character for character, indentation
// included, and is put together from its repeated pieces.

module PrintStyle {
  import opened Wrappers

  /** A line break and the indentation of a rule (16 spaces) or of a declaration (20). */
  const RuleBreak := "\n                "
  const DeclBreak := "\n                    "

  /** `url('file://...')` around a path. */
  const UrlOpen := "url('file://"
  const UrlClose := "')"

  const PageSize := "size: 1080px 810px"

  /** An `@font-face` rule for the Inter family, up to its `src: `. */
  function FaceRule(fontStyle: string): string {
    "@font-face {" + DeclBreak + "font-family: 'Inter';" + DeclBreak + "font-style: " + fontStyle + ";"
      + DeclBreak + "font-weight: 100 900;" + DeclBreak + "src: "
  }

  /** What follows the URL in an `@font-face` rule, up to the next rule. */
  const FaceEnd := " format('truetype-variations');" + RuleBreak + "}" + RuleBreak

  /** The page rule, then the font and line-height overrides, then the closing indentation. */
  const PageRules := PageOpen + (PageSize + PageRest)

  const PageOpen := "@page {" + DeclBreak

  const PageRest := " landscape;" + DeclBreak + "margin: 0;" + RuleBreak + "}"
    + RuleBreak + "body, * {" + DeclBreak + "font-family: 'Inter', sans-serif !important;" + RuleBreak + "}"
    + RuleBreak + "/* Reset line-height to browser defaults */"
    + RuleBreak + "p, div, span, li {" + DeclBreak + "line-height: 1.4 !important;" + RuleBreak + "}"
    + "\n            "

  function Url(path: string): string {
    UrlOpen + path + UrlClose
  }

  /** The text before the normal font's URL, between the two URLs, and after the italic font's URL. */
  const BeforeNormal := RuleBreak + FaceRule("normal")
  const BetweenUrls := FaceEnd + FaceRule("italic")
  const AfterItalic := FaceEnd + PageRules

  /** A text with two `file://` URLs in it: `lead`, the first URL, `between`, the second URL, `trail`. */
  function Fill(lead: string, between: string, trail: string, first: string, second: string): string {
    lead + (Url(first) + (between + (Url(second) + trail)))
  }

  /** The stylesheet for the two font paths. */
  function Stylesheet(normal: string, italic: string): string {
    Fill(BeforeNormal, BetweenUrls, AfterItalic, normal, italic)
  }

  /** Splits `t` at its first `'`. */
  function UpToQuote(t: string): (r: (string, string))
    ensures '\'' !in r.0 && t == r.0 + r.1 && (r.1 == [] || r.1[0] == '\'')
  {
    if t == [] || t[0] == '\'' then ([], t)
    else
      var (p, q) := UpToQuote(t[1..]);
      assert t == [t[0]] + (p + q);
      ([t[0]] + p, q)
  }

  /** A run free of `'`, then a `'`: the split falls between them. */
  lemma {:induction false} UpToQuoteExact(p: string, q: string)
    requires '\'' !in p && (q == [] || q[0] == '\'')
    ensures UpToQuote(p + q) == (p, q)
    decreases |p|
  {
    if p != [] {
      assert (p + q)[1..] == p[1..] + q;
      assert p[0] in p;
      UpToQuoteExact(p[1..], q);
      assert [p[0]] + p[1..] == p;
    } else {
      assert p + q == q;
    }
  }

  /** `Fill` regrouped around the two paths. */
  lemma FillParts(lead: string, between: string, trail: string, first: string, second: string)
    ensures Fill(lead, between, trail, first, second)
         == (lead + UrlOpen) + (first + ((UrlClose + (between + UrlOpen)) + (second + (UrlClose + trail))))
  {
    var a := second + (UrlClose + trail);
    assert Url(second) + trail == UrlOpen + a;
    assert between + (Url(second) + trail) == (between + UrlOpen) + a;
    assert Url(first) + (between + (Url(second) + trail)) == UrlOpen + (first + ((UrlClose + (between + UrlOpen)) + a));
  }

  /** A prefix followed by the rest of the text. */
  lemma PrefixThenRest(p: string, s: string)
    requires p <= s
    ensures s == p + s[|p|..]
  {
  }

  /** The text after a prefix. */
  lemma AfterPrefix(p: string, x: string)
    ensures p <= p + x && (p + x)[|p|..] == x
  {
  }

  /**
   * Reads the two paths back out of a text: it must be `lead`, `between` and `trail` with a
   * quote-free path in each `url('file://...')`.
   */
  function ReadUrls(lead: string, between: string, trail: string, text: string): (r: Option<(string, string)>)
    ensures r.Some? ==> '\'' !in r.value.0 && '\'' !in r.value.1 && text == Fill(lead, between, trail, r.value.0, r.value.1)
  {
    var firstLead, secondLead := lead + UrlOpen, UrlClose + (between + UrlOpen);
    if !(firstLead <= text) then None
    else
      var (first, u) := UpToQuote(text[|firstLead|..]);
      if !(secondLead <= u) then None
      else
        var (second, v) := UpToQuote(u[|secondLead|..]);
        if v != UrlClose + trail then None
        else
          PrefixThenRest(firstLead, text);
          PrefixThenRest(secondLead, u);
          FillParts(lead, between, trail, first, second);
          Some((first, second))
  }

  lemma UrlCloseQuote()
    ensures UrlClose[0] == '\''
  {
  }

  /** Quote-free paths are read back exactly as they were filled in. */
  lemma ReadUrlsRoundTrip(lead: string, between: string, trail: string, first: string, second: string)
    requires '\'' !in first && '\'' !in second
    ensures ReadUrls(lead, between, trail, Fill(lead, between, trail, first, second)) == Some((first, second))
  {
    var secondLead, end := UrlClose + (between + UrlOpen), UrlClose + trail;
    var u := secondLead + (second + end);
    FillParts(lead, between, trail, first, second);
    UrlCloseQuote();
    AfterPrefix(lead + UrlOpen, first + u);
    UpToQuoteExact(first, u);
    AfterPrefix(secondLead, second + end);
    UpToQuoteExact(second, end);
  }

  /** Reads the two font paths back out of a stylesheet. */
  function FontUrls(css: string): (r: Option<(string, string)>)
    ensures r.Some? ==> '\'' !in r.value.0 && '\'' !in r.value.1 && css == Stylesheet(r.value.0, r.value.1)
  {
    ReadUrls(BeforeNormal, BetweenUrls, AfterItalic, css)
  }

  /** Font paths without a `'` are read back exactly as they were written. */
  lemma FontUrlsRoundTrip(normal: string, italic: string)
    requires '\'' !in normal && '\'' !in italic
    ensures FontUrls(Stylesheet(normal, italic)) == Some((normal, italic))
  {
    ReadUrlsRoundTrip(BeforeNormal, BetweenUrls, AfterItalic, normal, italic);
  }

  /** Different quote-free font paths give different stylesheets. */
  lemma StylesheetInjective(n1: string, i1: string, n2: string, i2: string)
    requires '\'' !in n1 && '\'' !in i1 && '\'' !in n2 && '\'' !in i2
    requires Stylesheet(n1, i1) == Stylesheet(n2, i2)
    ensures n1 == n2 && i1 == i2
  {
    FontUrlsRoundTrip(n1, i1);
    FontUrlsRoundTrip(n2, i2);
  }

  /** Both URLs sit in the filled text at the places `lead` and `between` leave for them. */
  lemma FillUrlsAt(lead: string, between: string, trail: string, first: string, second: string)
    ensures var t := Fill(lead, between, trail, first, second);
      var j := |lead| + |Url(first)| + |between|;
      j + |Url(second)| <= |t| && t[|lead|..|lead| + |Url(first)|] == Url(first) && t[j..j + |Url(second)|] == Url(second)
  {
    var t := Fill(lead, between, trail, first, second);
    var front := lead + Url(first) + between;
    assert t == front + (Url(second) + trail);
    assert t == lead + (Url(first) + (between + (Url(second) + trail)));
  }

  /** The normal font path appears verbatim as a `file://` URL, right after the first `src: `. */
  lemma NormalFontUrl(normal: string, italic: string)
    ensures var css := Stylesheet(normal, italic);
      var k := |BeforeNormal|;
      k + |Url(normal)| <= |css| && css[k..k + |Url(normal)|] == Url(normal)
  {
    FillUrlsAt(BeforeNormal, BetweenUrls, AfterItalic, normal, italic);
  }

  /** The italic font path appears verbatim as a `file://` URL, after the normal face. */
  lemma ItalicFontUrl(normal: string, italic: string)
    ensures var css := Stylesheet(normal, italic);
      var k := |BeforeNormal| + |Url(normal)| + |BetweenUrls|;
      k + |Url(italic)| <= |css| && css[k..k + |Url(italic)|] == Url(italic)
  {
    FillUrlsAt(BeforeNormal, BetweenUrls, AfterItalic, normal, italic);
  }

  /** The filled text ends with `trail`, whatever the paths. */
  lemma FillTrail(lead: string, between: string, trail: string, first: string, second: string, k: nat, m: nat)
    requires k + m <= |trail|
    ensures var t := Fill(lead, between, trail, first, second);
      |trail| <= |t| && t[|t| - |trail| + k..|t| - |trail| + k + m] == trail[k..k + m]
  {
    var t := Fill(lead, between, trail, first, second);
    var front := lead + Url(first) + between + Url(second);
    assert t == front + trail;
  }

  /** Where the page size sits after the italic font's URL. */
  const PageSizeAt := |FaceEnd| + |PageOpen|

  lemma PageSizeInTrail()
    ensures PageSizeAt + |PageSize| <= |AfterItalic| && AfterItalic[PageSizeAt..PageSizeAt + |PageSize|] == PageSize
  {
    PageSizeAfter(FaceEnd, PageOpen, PageSize, PageRest);
  }

  lemma PageSizeAfter(a: string, b: string, c: string, d: string)
    ensures var t := a + (b + (c + d));
      |a| + |b| + |c| <= |t| && t[|a| + |b|..|a| + |b| + |c|] == c
  {
    assert a + (b + (c + d)) == (a + b) + (c + d);
  }

  /** The page is fixed at 1080px by 810px whatever the font paths. */
  lemma PageSizeFixed(normal: string, italic: string)
    ensures var css := Stylesheet(normal, italic);
      var k := |css| - |AfterItalic| + PageSizeAt;
      |AfterItalic| <= |css| && k + |PageSize| <= |css| && css[k..k + |PageSize|] == PageSize
  {
    PageSizeInTrail();
    FillTrail(BeforeNormal, BetweenUrls, AfterItalic, normal, italic, PageSizeAt, |PageSize|);
  }
}
