/**
 * What `re.sub` does with the list-item pattern over a whole slide fragment: the matches
 * it rewrites are taken left to right, never overlap, and everything between them is
 * copied unchanged. `IsSubstitution` states this without reference to the scanner, and
 * `Normalize` is proved to produce exactly its output.
 */
module Rewriting {
  import opened Wrappers
  import opened ListItems

  /** A fragment cut into the characters re.sub copies and the matches it rewrites. */
  datatype Piece = Kept(c: char) | Replaced(item: ListItem)

  function PieceSource(p: Piece): string {
    match p
    case Kept(c) => [c]
    case Replaced(m) => Source(m)
  }

  function PieceOutput(p: Piece): string {
    match p
    case Kept(c) => [c]
    case Replaced(m) => Rewrite(m)
  }

  function Sources(ps: seq<Piece>): string {
    if ps == [] then [] else PieceSource(ps[0]) + Sources(ps[1..])
  }

  function Outputs(ps: seq<Piece>): string {
    if ps == [] then [] else PieceOutput(ps[0]) + Outputs(ps[1..])
  }

  /** The pattern cannot match at the start of `t`. */
  ghost predicate NoMatchAt(t: string) {
    forall m :: !MatchesAt(t, m)
  }

  /**
   * `ps` is re.sub's reading of `t`: at each position, the match the regex engine reports
   * there is rewritten and scanning resumes after it; where no match starts, one
   * character is kept.
   */
  ghost predicate IsSubstitution(t: string, ps: seq<Piece>)
    decreases |ps|
  {
    if ps == [] then t == []
    else
      match ps[0]
      case Kept(c) => t != [] && t[0] == c && NoMatchAt(t) && IsSubstitution(t[1..], ps[1..])
      case Replaced(m) => FirstMatch(t, m) && IsSubstitution(t[|Source(m)|..], ps[1..])
  }

  /** Some match of the pattern starts somewhere in `t`. */
  ghost predicate ContainsMatch(t: string) {
    exists k, m :: 0 <= k <= |t| && MatchesAt(t[k..], m)
  }

  /** The pieces of a substitution are consecutive and cover the input, in order. */
  lemma {:induction false} SubstitutionCoversInput(t: string, ps: seq<Piece>)
    requires IsSubstitution(t, ps)
    ensures Sources(ps) == t
  {
    if ps != [] {
      match ps[0]
      case Kept(c) =>
        SubstitutionCoversInput(t[1..], ps[1..]);
        assert t == [c] + t[1..];
      case Replaced(m) =>
        SubstitutionCoversInput(t[|Source(m)|..], ps[1..]);
        assert t == Source(m) + t[|Source(m)|..];
    }
  }

  /** Whatever substitution reads `t`, `Normalize` outputs exactly its rewritten pieces. */
  lemma {:induction false} NormalizeIsOutputOf(t: string, ps: seq<Piece>)
    requires IsSubstitution(t, ps)
    ensures Normalize(t) == Outputs(ps)
  {
    MatchCorrect(t);
    if ps != [] {
      match ps[0]
      case Kept(c) =>
        NormalizeIsOutputOf(t[1..], ps[1..]);
      case Replaced(m) =>
        var rest := Match(t).value.1;
        assert rest == t[|Source(m)|..];
        NormalizeIsOutputOf(rest, ps[1..]);
    }
  }

  /** Every fragment has a substitution, so `Normalize` is re.sub on every input. */
  lemma {:induction false} SubstitutionExists(t: string)
    ensures exists ps :: IsSubstitution(t, ps)
    decreases |t|
  {
    MatchCorrect(t);
    if t == [] {
      assert IsSubstitution(t, []);
    } else if Match(t).None? {
      SubstitutionExists(t[1..]);
      var ps :| IsSubstitution(t[1..], ps);
      assert IsSubstitution(t, [Kept(t[0])] + ps);
    } else {
      var (m, rest) := Match(t).value;
      assert rest == t[|Source(m)|..];
      SubstitutionExists(rest);
      var ps :| IsSubstitution(rest, ps);
      assert IsSubstitution(t, [Replaced(m)] + ps);
    }
  }

  /** re.sub's reading of a fragment is unique. */
  lemma {:induction false} SubstitutionUnique(t: string, ps1: seq<Piece>, ps2: seq<Piece>)
    requires IsSubstitution(t, ps1) && IsSubstitution(t, ps2)
    ensures ps1 == ps2
    decreases |ps1|
  {
    MatchCorrect(t);
    if ps1 != [] && ps2 != [] {
      match ps1[0]
      case Kept(c) =>
        assert ps2[0] == Kept(c);
        SubstitutionUnique(t[1..], ps1[1..], ps2[1..]);
      case Replaced(m) =>
        assert ps2[0] == Replaced(m);
        SubstitutionUnique(t[|Source(m)|..], ps1[1..], ps2[1..]);
    }
  }

  /** Each rewrite is shorter than the text it replaces. */
  lemma RewriteShrinks(m: ListItem)
    ensures |Rewrite(m)| + 20 <= |Source(m)|
  {
  }

  /** Normalising never lengthens a fragment, and strictly shortens one that holds a match. */
  lemma {:induction false} NormalizeLength(t: string)
    ensures |Normalize(t)| <= |t|
    ensures ContainsMatch(t) ==> |Normalize(t)| < |t|
    decreases |t|
  {
    if t != [] {
      MatchCorrect(t);
      match Match(t)
      case Some((m, rest)) =>
        NormalizeLength(rest);
        RewriteShrinks(m);
      case None =>
        NormalizeLength(t[1..]);
        if ContainsMatch(t) {
          var k, m :| 0 <= k <= |t| && MatchesAt(t[k..], m);
          assert k != 0;
          assert t[1..][k - 1..] == t[k..];
          assert ContainsMatch(t[1..]);
        }
    }
  }

  /** A fragment comes back unchanged exactly when the pattern matches nowhere in it. */
  lemma {:induction false} UnchangedIffNoMatch(t: string)
    ensures Normalize(t) == t <==> !ContainsMatch(t)
    decreases |t|
  {
    NormalizeLength(t);
    if t != [] && !ContainsMatch(t) {
      MatchCorrect(t);
      assert t[0..] == t;
      assert Match(t).None?;
      UnchangedIffNoMatch(t[1..]);
      assert t == [t[0]] + t[1..];
    }
  }

  /** In particular, a fragment without any `<li>` tag is returned unchanged. */
  lemma NoListItemTagUnchanged(t: string)
    requires forall k :: 0 <= k <= |t| ==> !("<li>" <= t[k..])
    ensures Normalize(t) == t
  {
    UnchangedIffNoMatch(t);
  }
}

/**
 * The normaliser on families of concrete fragments: a plain list item, and an item nested
 * in the body of another, which shows that normalising twice can differ from once.
 */
module RewritingExamples {
  import opened Wrappers
  import opened ListItems
  import opened Rewriting

  function PrependBody(p: string, r: Option<(string, Tail, string)>): Option<(string, Tail, string)> {
    match r
    case None => None
    case Some((c, g, rest)) => Some((p + c, g, rest))
  }

  lemma PrependTwice(x: string, y: string, r: Option<(string, Tail, string)>)
    ensures PrependBody(x, PrependBody(y, r)) == PrependBody(x + y, r)
  {
    match r
    case None =>
    case Some((c, g, rest)) => Assoc(x, y, c);
  }

  /** A closing tail starts `</s`; where it does not, none starts. */
  lemma NoTailHere(t: string)
    requires |t| < 3 || t[1] != '/' || t[2] != 's'
    ensures MatchTail(t).None?
  {
  }

  /** Where no closing tail starts, the body scan keeps one character and moves on. */
  lemma LazyBodyStep(t: string)
    requires t != [] && t[0] != '\n' && MatchTail(t).None?
    ensures LazyBody(t) == PrependBody([t[0]], LazyBody(t[1..]))
  {
  }

  /** The body scan passes over a run free of `/` (and of newlines). */
  lemma {:induction false} LazyBodySkipsRun(p: string, s: string)
    requires '\n' !in p && '/' !in p && (s != [] ==> s[0] != '/')
    ensures LazyBody(p + s) == PrependBody(p, LazyBody(s))
    decreases |p|
  {
    if p == [] {
      assert p + s == s;
      match LazyBody(s)
      case None =>
      case Some((body, g, rest)) => assert p + body == body;
    } else {
      var t := p + s;
      assert t[1..] == p[1..] + s;
      assert p[0] in p;
      if |p| >= 2 {
        assert t[1] == p[1] && p[1] in p;
      }
      NoTailHere(t);
      LazyBodyStep(t);
      LazyBodySkipsRun(p[1..], s);
      PrependTwice([p[0]], p[1..], LazyBody(s));
      assert [p[0]] + p[1..] == p;
    }
  }

  /** The body scan passes over one character where no tail starts, then over a `/`-free run. */
  lemma LazyBodySkips(c: char, q: string, s: string)
    requires c != '\n' && '\n' !in q && '/' !in q && (s != [] ==> s[0] != '/')
    requires MatchTail([c] + q + s).None?
    ensures LazyBody([c] + q + s) == PrependBody([c] + q, LazyBody(s))
  {
    var t := [c] + q + s;
    assert t[1..] == q + s;
    LazyBodyStep(t);
    LazyBodySkipsRun(q, s);
    PrependTwice([c], q, LazyBody(s));
  }

  /** A match starts with `<`. */
  lemma NoMatchHere(t: string)
    requires t == [] || t[0] != '<'
    ensures Match(t).None?
  {
  }

  /** Where no match starts, `Normalize` keeps one character and moves on. */
  lemma NormalizeKeeps(t: string)
    requires t != [] && Match(t).None?
    ensures Normalize(t) == [t[0]] + Normalize(t[1..])
  {
  }

  /** Text free of `<` is copied as is. */
  lemma {:induction false} NormalizeSkipsRun(p: string, u: string)
    requires '<' !in p
    ensures Normalize(p + u) == p + Normalize(u)
    decreases |p|
  {
    if p == [] {
      assert p + u == u;
    } else {
      var t := p + u;
      assert t[1..] == p[1..] + u;
      assert p[0] in p;
      NoMatchHere(t);
      NormalizeKeeps(t);
      NormalizeSkipsRun(p[1..], u);
      Assoc([p[0]], p[1..], Normalize(u));
      assert [p[0]] + p[1..] == p;
    }
  }

  /** A match whose body the lazy scan reaches first is the one `Match` reports. */
  lemma MatchOfBody(m: ListItem, rest: string)
    requires HeadWellFormed(m.head)
    requires LazyBody(m.content + (TailSource(m.tail) + rest)) == Some((m.content, m.tail, rest))
    ensures Match(Source(m) + rest) == Some((m, rest))
  {
    Assoc(HeadSource(m.head), m.content + TailSource(m.tail), rest);
    Assoc(m.content, TailSource(m.tail), rest);
    MatchHeadComplete(m.head, m.content + (TailSource(m.tail) + rest));
  }

  /** A match at the start of the text is rewritten and the scan carries on after it. */
  lemma NormalizeRewrites(m: ListItem, rest: string)
    requires Match(Source(m) + rest) == Some((m, rest))
    ensures Normalize(Source(m) + rest) == Rewrite(m) + Normalize(rest)
  {
  }

  /**
   * A list item whose body holds no `/` is matched in full and rewritten, and the scan
   * carries on after it.
   */
  lemma SlashFreeItem(m: ListItem, rest: string)
    requires WellFormed(m) && '/' !in m.content
    ensures Match(Source(m) + rest) == Some((m, rest))
    ensures Normalize(Source(m) + rest) == Rewrite(m) + Normalize(rest)
  {
    var s := TailSource(m.tail) + rest;
    MatchTailComplete(m.tail, rest);
    assert LazyBody(s) == Some(([], m.tail, rest));
    assert s[0] == '<';
    LazyBodySkipsRun(m.content, s);
    assert m.content + [] == m.content;
    MatchOfBody(m, rest);
    NormalizeRewrites(m, rest);
  }

  /** The head `<li><p><span style='...'>` with no whitespace between the tags. */
  function Tight(style: string): Head {
    Head("", "", '\'', style, '\'')
  }

  /** The tail `</span></p></li>` with no whitespace between the tags. */
  function TightTail(): Tail {
    Tail("", "")
  }

  lemma TightHeadSource(b: string)
    ensures HeadSource(Tight(b)) == "<li><p><span style='" + b + "'>"
  {
  }

  lemma TightTailSource()
    ensures TailSource(TightTail()) == "</span></p></li>"
  {
  }

  /** `<li><p><span style='b'>c</span></p></li>`. */
  function Inner(b: string, c: string): ListItem {
    ListItem(Tight(b), c, TightTail())
  }

  /**
   * `<li><p><span style='a'>` and `Inner(b, c)` without its closing `</li>`, then
   * `</span></p></li>`.
   */
  function Outer(a: string, b: string, c: string): ListItem {
    ListItem(Tight(a), HeadSource(Tight(b)) + (c + "</span></p>"), TightTail())
  }

  lemma InnerSource(b: string, c: string, rest: string)
    ensures Source(Inner(b, c)) + rest == "<li><p><span style='" + b + "'>" + c + "</span></p></li>" + rest
  {
    TightHeadSource(b);
    TightTailSource();
  }

  lemma InnerRewrite(b: string, c: string, rest: string)
    ensures Rewrite(Inner(b, c)) + rest == "<li style=\"" + b + "\">" + c + "</li>" + rest
  {
  }

  /** No `</span>` starts inside `p`, not even one that a `</span>` after `p` would complete. */
  predicate NoSpanClose(p: string) {
    forall k :: 0 <= k < |p| ==> !("</span>" <= p[k..] + "</span>")
  }

  /** In front of a `</span>`, whether `p` followed by it starts with `</span>` depends on `p` alone. */
  lemma SpanCloseAhead(p: string, s: string)
    requires "</span>" <= s
    ensures "</span>" <= p + s <==> "</span>" <= p + "</span>"
  {
    var x, y := p + s, p + "</span>";
    forall i | 0 <= i < 7
      ensures x[i] == y[i]
    {
      if i >= |p| {
        assert x[i] == s[i - |p|];
      }
    }
    assert x[..7] == y[..7];
  }

  /** The body scan passes over a newline-free run that holds no `</span>`, up to a `</span>`. */
  lemma {:induction false} LazyBodySkipsBody(p: string, s: string)
    requires '\n' !in p && NoSpanClose(p) && "</span>" <= s
    ensures LazyBody(p + s) == PrependBody(p, LazyBody(s))
    decreases |p|
  {
    if p == [] {
      assert p + s == s;
      match LazyBody(s)
      case None =>
      case Some((body, g, rest)) => assert p + body == body;
    } else {
      var t := p + s;
      assert t[1..] == p[1..] + s;
      assert p[0] in p && p[0..] == p;
      SpanCloseAhead(p, s);
      assert MatchTail(t).None?;
      LazyBodyStep(t);
      forall k | 0 <= k < |p[1..]|
        ensures !("</span>" <= p[1..][k..] + "</span>")
      {
        assert p[1..][k..] == p[k + 1..];
      }
      LazyBodySkipsBody(p[1..], s);
      PrependTwice([p[0]], p[1..], LazyBody(s));
      assert [p[0]] + p[1..] == p;
    }
  }

  lemma TightTailStartsSpanClose(rest: string)
    ensures "</span>" <= TailSource(TightTail()) + rest
  {
    TightTailSource();
  }

  /**
   * `<li><p><span style='S'>C</span></p></li>` becomes `<li style="S">C</li>`, for
   * instance `<li><p><span style='color:red'>Hi</span></p></li>` becomes
   * `<li style="color:red">Hi</li>`; the content may hold other tags and `/`, as long as
   * no `</span>` ends it early.
   */
  lemma TightItem(style: string, content: string, rest: string)
    requires style != [] && NoQuotes(style) && '\n' !in content && NoSpanClose(content)
    ensures Normalize("<li><p><span style='" + style + "'>" + content + "</span></p></li>" + rest)
         == "<li style=\"" + style + "\">" + content + "</li>" + Normalize(rest)
  {
    var m := Inner(style, content);
    var s := TailSource(m.tail) + rest;
    InnerSource(style, content, rest);
    LazyBodyAtTail(m.tail, rest);
    TightTailStartsSpanClose(rest);
    LazyBodySkipsBody(content, s);
    assert content + [] == content;
    MatchOfBody(m, rest);
    NormalizeRewrites(m, rest);
    InnerRewrite(style, content, Normalize(rest));
  }

  /** `</span></p></span>...` is not a closing tail: the `</li>` is missing. */
  lemma NotATail(s3: string)
    requires |s3| >= 3 && s3[0] == '<' && s3[2] == 's'
    ensures MatchTail("</span>" + ("</p>" + s3)).None?
  {
    var s2 := "</p>" + s3;
    AfterExact("</span>", s2);
    assert SplitSpaces(s2) == ([], s2) by {
      assert s2[0] == '<';
      SplitSpacesExact([], s2);
      assert [] + s2 == s2;
    }
    AfterExact("</p>", s3);
    assert SplitSpaces(s3) == ([], s3) by {
      SplitSpacesExact([], s3);
      assert [] + s3 == s3;
    }
    assert After("</li>", s3).None? by {
      assert s3[2] != "</li>"[2];
    }
  }

  /** At a closing tail the lazy body is empty. */
  lemma LazyBodyAtTail(g: Tail, rest: string)
    requires TailWellFormed(g)
    ensures LazyBody(TailSource(g) + rest) == Some(([], g, rest))
  {
    MatchTailComplete(g, rest);
  }

  /** Where no closing tail starts, the body scan keeps the first character. */
  lemma LazyBodyCons(c: char, u: string)
    requires c != '\n' && MatchTail([c] + u).None?
    ensures LazyBody([c] + u) == PrependBody([c], LazyBody(u))
  {
    assert ([c] + u)[1..] == u;
    LazyBodyStep([c] + u);
  }

  /** Before a tail, the lazy body takes in a stray `</p>`. */
  lemma ScanStrayParagraphEnd(s3: string, r: Option<(string, Tail, string)>)
    requires |s3| >= 3 && s3[0] == '<' && LazyBody(s3) == r
    ensures LazyBody("</p>" + s3) == PrependBody("</p>", r)
  {
    var u := ['/'] + "p>" + s3;
    ParagraphCloseParts();
    Assoc(['<'], ['/'] + "p>", s3);
    NoTailHere(['<'] + u);
    LazyBodyCons('<', u);
    NoTailHere(u);
    ParagraphLetters();
    LazyBodySkips('/', "p>", s3);
    PrependTwice(['<'], ['/'] + "p>", r);
  }

  /** Before a tail, the lazy body takes in `</span></p>` not followed by `</li>`. */
  lemma ScanStrayClose(s3: string, r: Option<(string, Tail, string)>)
    requires |s3| >= 3 && s3[0] == '<' && s3[2] == 's' && LazyBody(s3) == r
    ensures LazyBody("</span>" + ("</p>" + s3)) == PrependBody("</span></p>", r)
  {
    var s2 := "</p>" + s3;
    var u := ['/'] + "span>" + s2;
    SpanCloseParts();
    Assoc(['<'], ['/'] + "span>", s2);
    NotATail(s3);
    LazyBodyCons('<', u);
    NoTailHere(u);
    SpanLetters();
    LazyBodySkips('/', "span>", s2);
    ScanStrayParagraphEnd(s3, r);
    var x := PrependBody("</p>", r);
    assert LazyBody(u) == PrependBody(['/'] + "span>", x);
    PrependTwice(['<'], ['/'] + "span>", x);
    assert LazyBody("</span>" + s2) == PrependBody("</span>", x);
    PrependTwice("</span>", "</p>", r);
    SpanParagraphClose();
  }

  lemma ParagraphCloseParts()
    ensures "</p>" == ['<'] + (['/'] + "p>")
  {
  }

  lemma ParagraphLetters()
    ensures '\n' !in "p>" && '/' !in "p>"
  {
  }

  lemma SpanLetters()
    ensures '\n' !in "span>" && '/' !in "span>"
  {
  }

  lemma SpanCloseParts()
    ensures "</span>" == ['<'] + (['/'] + "span>")
  {
  }

  lemma SpanParagraphClose()
    ensures "</span>" + "</p>" == "</span></p>"
  {
  }

  /** The lazy body of `Outer` runs over the inner head and stops at the second `</span>`. */
  lemma OuterBodyScan(a: string, b: string, c: string, rest: string)
    requires '/' !in b && '\n' !in b && '/' !in c && '\n' !in c
    ensures var m := Outer(a, b, c);
      LazyBody(m.content + (TailSource(m.tail) + rest)) == Some((m.content, m.tail, rest))
  {
    var m := Outer(a, b, c);
    var s3 := TailSource(m.tail) + rest;
    var s1 := "</span>" + ("</p>" + s3);
    var r := Some(([], m.tail, rest));
    LazyBodyAtTail(m.tail, rest);
    TightTailStart(rest);
    ScanStrayClose(s3, r);
    var h := HeadSource(Tight(b));
    HeadSlashFree(b);
    var p := h + c;
    assert '/' !in p && '\n' !in p;
    LazyBodySkipsRun(p, s1);
    assert LazyBody(p + s1) == PrependBody(p, PrependBody("</span></p>", r));
    PrependTwice(p, "</span></p>", r);
    SpanParagraphClose();
    Assoc("</span>", "</p>", s3);
    assert s1 == "</span></p>" + s3;
    Assoc(h, c, "</span></p>");
    assert m.content == p + "</span></p>";
    Assoc(p, "</span></p>", s3);
    assert m.content + s3 == p + s1;
    assert m.content + [] == m.content;
  }

  /** The tight head holds no `/` and no newline beyond those of its style. */
  lemma HeadSlashFree(b: string)
    requires '/' !in b && '\n' !in b
    ensures '/' !in HeadSource(Tight(b)) && '\n' !in HeadSource(Tight(b))
  {
    TightHeadSource(b);
    HeadLetters();
  }

  lemma HeadLetters()
    ensures '/' !in "<li><p><span style='" && '\n' !in "<li><p><span style='"
    ensures '/' !in "'>" && '\n' !in "'>"
  {
  }

  /** What follows the tight tail starts `<` with `s` two further on. */
  lemma TightTailStart(rest: string)
    ensures var s3 := TailSource(TightTail()) + rest;
      |s3| >= 3 && s3[0] == '<' && s3[2] == 's'
  {
    TightTailSource();
  }

  /** A fragment whose fourth character is not `>` does not start `<li>`, so no match starts. */
  lemma NoMatchBeforeLi(t: string)
    requires |t| >= 4 && t[3] != '>'
    ensures Match(t).None?
  {
    assert !("<li>" <= t) by {
      assert "<li>"[3] == '>';
    }
  }

  /** The opening tag the replacement writes. */
  function OpenTag(a: string): string {
    "<li style=\"" + a + "\">"
  }

  lemma OpenTagShape(a: string)
    ensures |OpenTag(a)| >= 4 && OpenTag(a)[0] == '<' && OpenTag(a)[3] == ' '
    ensures OpenTag(a) == ['<'] + ("li style=\"" + (a + "\">"))
    ensures '<' !in a ==> '<' !in "li style=\"" + (a + "\">")
  {
  }

  /** A rewritten opening tag is copied as is when its style holds no `<`. */
  lemma NormalizeOpenTag(a: string, u: string)
    requires '<' !in a
    ensures Normalize(OpenTag(a) + u) == OpenTag(a) + Normalize(u)
  {
    var t := OpenTag(a) + u;
    var q := "li style=\"" + (a + "\">");
    OpenTagShape(a);
    NoMatchBeforeLi(t);
    NormalizeKeeps(t);
    Assoc(['<'], q, u);
    assert t[1..] == q + u;
    NormalizeSkipsRun(q, u);
    Assoc(['<'], q, Normalize(u));
  }

  /** Rewriting `Outer` leaves `Inner` whole, behind the new opening tag. */
  lemma OuterRewrite(a: string, b: string, c: string, t: string)
    ensures Rewrite(Outer(a, b, c)) + t == OpenTag(a) + (Source(Inner(b, c)) + t)
  {
    var h := HeadSource(Tight(b));
    TightTailSource();
    ItemCloseParts();
    Assoc(c, "</span></p>", "</li>");
    Assoc(h, c + "</span></p>", "</li>");
    assert Rewrite(Outer(a, b, c)) == OpenTag(a) + Source(Inner(b, c));
  }

  lemma ItemCloseParts()
    ensures "</span></p>" + "</li>" == "</span></p></li>"
  {
  }

  /**
   * Normalising is not idempotent: an item whose body holds a complete inner head is
   * rewritten into a fragment that holds a new match.
   */
  lemma NotIdempotent(a: string, b: string, c: string, rest: string)
    requires a != [] && NoQuotes(a) && '<' !in a
    requires b != [] && NoQuotes(b) && '/' !in b && '\n' !in b
    requires '/' !in c && '\n' !in c
    ensures var x := Source(Outer(a, b, c)) + rest;
      Normalize(Normalize(x)) != Normalize(x)
  {
    var x := Source(Outer(a, b, c)) + rest;
    var n := Normalize(rest);
    OuterBodyScan(a, b, c, rest);
    MatchOfBody(Outer(a, b, c), rest);
    NormalizeRewrites(Outer(a, b, c), rest);
    OuterRewrite(a, b, c, n);
    assert Normalize(x) == OpenTag(a) + (Source(Inner(b, c)) + n);
    NormalizeOpenTag(a, Source(Inner(b, c)) + n);
    SlashFreeItem(Inner(b, c), n);
    assert Normalize(Normalize(x)) == OpenTag(a) + (Rewrite(Inner(b, c)) + Normalize(n));
    RewriteShrinks(Inner(b, c));
    NormalizeLength(n);
  }
}
