/**
 * The list-item normaliser of the slide compiler: one `re.sub` with the fixed pattern
 *
 *   <li>\s*<p>\s*<span style=['"]([^'"]+)['"]>(.*?)</span>\s*</p>\s*</li>
 *
 * and the replacement `<li style="\1">\2</li>`, modelled as a hand-written scanner.
 * `Match(t)` tries the pattern at the start of `t`; `Normalize(t)` scans left to right.
 * The declarative side (`Source`, `MatchesAt`, `FirstMatch`, `IsSubstitution`) states the
 * language of the pattern and re.sub's choice of matches, independently of the scanner.
 */
module ListItems {
  import opened Wrappers

  /** Python's `\s` on str patterns: the characters for which str.isspace() holds. */
  predicate IsSpace(c: char) {
    var n := c as int;
    (9 <= n <= 13) || (0x1C <= n <= 0x20) || n == 0x85 || n == 0xA0 || n == 0x1680
    || (0x2000 <= n <= 0x200A) || n == 0x2028 || n == 0x2029 || n == 0x202F
    || n == 0x205F || n == 0x3000
  }

  /** The character class `['"]`. */
  predicate IsQuote(c: char) {
    c == '\'' || c == '"'
  }

  predicate AllSpaces(w: string) {
    w == [] || (IsSpace(w[0]) && AllSpaces(w[1..]))
  }

  predicate NoQuotes(v: string) {
    v == [] || (!IsQuote(v[0]) && NoQuotes(v[1..]))
  }

  /**
   * The part of the pattern before the body: the gaps matched by the first two `\s*`,
   * the two quote characters and group 1 (`style`).
   */
  datatype Head = Head(gap1: string, gap2: string, open: char, style: string, close: char)

  /** The gaps matched by the last two `\s*`, after `</span>` and after `</p>`. */
  datatype Tail = Tail(gap3: string, gap4: string)

  /** One occurrence of the pattern; `content` is group 2. */
  datatype ListItem = ListItem(head: Head, content: string, tail: Tail)

  predicate HeadWellFormed(h: Head) {
    && AllSpaces(h.gap1) && AllSpaces(h.gap2)
    && IsQuote(h.open) && h.style != [] && NoQuotes(h.style) && IsQuote(h.close)
  }

  predicate TailWellFormed(g: Tail) {
    AllSpaces(g.gap3) && AllSpaces(g.gap4)
  }

  /** The pieces fit their parts of the pattern (`.` does not match a newline). */
  predicate WellFormed(m: ListItem) {
    HeadWellFormed(m.head) && '\n' !in m.content && TailWellFormed(m.tail)
  }

  function HeadSource(h: Head): string {
    "<li>" + (h.gap1 + ("<p>" + (h.gap2 + ("<span style=" + ([h.open] + (h.style + ([h.close] + ">")))))))
  }

  function TailSource(g: Tail): string {
    "</span>" + (g.gap3 + ("</p>" + (g.gap4 + "</li>")))
  }

  /** The text that the pattern matches for the given pieces. */
  function Source(m: ListItem): string {
    HeadSource(m.head) + (m.content + TailSource(m.tail))
  }

  /** The replacement `<li style="\1">\2</li>`. */
  function Rewrite(m: ListItem): string {
    "<li style=\"" + m.head.style + "\">" + m.content + "</li>"
  }

  /** The pattern, with the pieces of `m`, matches a prefix of `t`. */
  ghost predicate MatchesAt(t: string, m: ListItem) {
    WellFormed(m) && Source(m) <= t
  }

  /**
   * The match the regex engine reports at the start of `t`: every other way of matching
   * there has a body at least as long (`(.*?)` is lazy).
   */
  ghost predicate FirstMatch(t: string, m: ListItem) {
    MatchesAt(t, m) && forall m' :: MatchesAt(t, m') ==> |m.content| <= |m'.content|
  }

  // ---------------------------------------------------------------------------
  // The scanner

  /** The text after the literal `lit`, when `t` starts with it. */
  function After(lit: string, t: string): (r: Option<string>)
    ensures r.Some? <==> lit <= t
    ensures r.Some? ==> t == lit + r.value
  {
    if lit <= t then Some(t[|lit|..]) else None
  }

  /** A greedy `\s*`: the longest run of whitespace at the start of `t`, and the text after it. */
  function SplitSpaces(t: string): (r: (string, string))
    ensures t == r.0 + r.1 && AllSpaces(r.0) && (r.1 != [] ==> !IsSpace(r.1[0]))
  {
    if t != [] && IsSpace(t[0]) then
      var (gap, rest) := SplitSpaces(t[1..]);
      assert ([t[0]] + gap)[1..] == gap;
      Assoc([t[0]], gap, rest);
      ([t[0]] + gap, rest)
    else ([], t)
  }

  /** A greedy `[^'"]*`: the longest quote-free run at the start of `t`, and the text after it. */
  function SplitUnquoted(t: string): (r: (string, string))
    ensures t == r.0 + r.1 && NoQuotes(r.0) && (r.1 != [] ==> IsQuote(r.1[0]))
  {
    if t != [] && !IsQuote(t[0]) then
      var (run, rest) := SplitUnquoted(t[1..]);
      assert ([t[0]] + run)[1..] == run;
      Assoc([t[0]], run, rest);
      ([t[0]] + run, rest)
    else ([], t)
  }

  /** `<li>\s*<p>\s*<span style=['"]([^'"]+)['"]>` at the start of `t`, and the text after it. */
  function MatchHead(t: string): (r: Option<(Head, string)>)
    ensures r.Some? ==> HeadWellFormed(r.value.0) && t == HeadSource(r.value.0) + r.value.1
  {
    match After("<li>", t)
    case None => None
    case Some(t1) =>
      var (gap1, t2) := SplitSpaces(t1);
      match After("<p>", t2)
      case None => None
      case Some(t3) =>
        var (gap2, t4) := SplitSpaces(t3);
        match After("<span style=", t4)
        case None => None
        case Some(t5) =>
          if t5 == [] || !IsQuote(t5[0]) then None
          else
            var (style, t6) := SplitUnquoted(t5[1..]);
            if style == [] || t6 == [] then None
            else
              match After(">", t6[1..])
              case None => None
              case Some(rest) =>
                var h := Head(gap1, gap2, t5[0], style, t6[0]);
                assert t5 == [t5[0]] + t5[1..] && t6 == [t6[0]] + t6[1..];
                HeadSourceSplit(h, t, t1, t2, t3, t4, t5, t5[1..], t6, t6[1..], rest);
                Some((h, rest))
  }

  /** `</span>\s*</p>\s*</li>` at the start of `t`, and the text after it. */
  function MatchTail(t: string): Option<(Tail, string)> {
    match After("</span>", t)
    case None => None
    case Some(u) =>
      var (gap3, v) := SplitSpaces(u);
      match After("</p>", v)
      case None => None
      case Some(w) =>
        var (gap4, x) := SplitSpaces(w);
        match After("</li>", x)
        case None => None
        case Some(rest) => Some((Tail(gap3, gap4), rest))
  }

  /** A tail found by `MatchTail` is one, and the text after it is what remains. */
  lemma MatchTailSound(t: string)
    ensures MatchTail(t).Some? ==>
      TailWellFormed(MatchTail(t).value.0) && t == TailSource(MatchTail(t).value.0) + MatchTail(t).value.1
  {
    if MatchTail(t).Some? {
      var (g, rest) := MatchTail(t).value;
      Assoc(g.gap4, "</li>", rest);
      Assoc("</p>", g.gap4 + "</li>", rest);
      Assoc(g.gap3, "</p>" + (g.gap4 + "</li>"), rest);
      Assoc("</span>", g.gap3 + ("</p>" + (g.gap4 + "</li>")), rest);
    }
  }

  /**
   * The lazy body `(.*?)` followed by the tail: the shortest newline-free run at the start
   * of `t` that the tail follows, the tail, and the text after it.
   */
  function LazyBody(t: string): Option<(string, Tail, string)> {
    match MatchTail(t)
    case Some((g, rest)) => Some(([], g, rest))
    case None =>
      if t != [] && t[0] != '\n' then
        match LazyBody(t[1..])
        case None => None
        case Some((content, g, rest)) => Some(([t[0]] + content, g, rest))
      else None
  }

  /** A body found by `LazyBody` is newline-free and followed by a tail. */
  lemma {:induction false} LazyBodySound(t: string)
    ensures LazyBody(t).Some? ==>
      var (content, g, rest) := LazyBody(t).value;
      '\n' !in content && TailWellFormed(g) && t == content + (TailSource(g) + rest)
    decreases |t|
  {
    MatchTailSound(t);
    if MatchTail(t).Some? {
    } else if t != [] && t[0] != '\n' {
      LazyBodySound(t[1..]);
      if LazyBody(t[1..]).Some? {
        var (content, g, rest) := LazyBody(t[1..]).value;
        Assoc([t[0]], content, TailSource(g) + rest);
        assert t == [t[0]] + t[1..];
      }
    }
  }

  /** The whole pattern tried at the start of `t`: the match and the text after it. */
  function Match(t: string): (r: Option<(ListItem, string)>)
    ensures r.Some? ==> WellFormed(r.value.0) && t == Source(r.value.0) + r.value.1
  {
    match MatchHead(t)
    case None => None
    case Some((h, t1)) =>
      LazyBodySound(t1);
      match LazyBody(t1)
      case None => None
      case Some((content, g, rest)) =>
        var m := ListItem(h, content, g);
        Assoc(content, TailSource(g), rest);
        Assoc(HeadSource(h), content + TailSource(g), rest);
        Some((m, rest))
  }

  /** re.sub over `t`: the match at the current position is rewritten, otherwise one character is kept. */
  function Normalize(t: string): string
    decreases |t|
  {
    if t == [] then []
    else
      match Match(t)
      case Some((m, rest)) => Rewrite(m) + Normalize(rest)
      case None => [t[0]] + Normalize(t[1..])
  }

  // ---------------------------------------------------------------------------
  // Correctness of the scanner against the pattern

  lemma Assoc(x: string, y: string, z: string)
    ensures (x + y) + z == x + (y + z)
  {
  }

  /** The steps of `MatchHead`, glued back into the text of the head. */
  lemma HeadSourceSplit(h: Head, t: string, t1: string, t2: string, t3: string, t4: string,
                        t5: string, u5: string, t6: string, u6: string, rest: string)
    requires t == "<li>" + t1 && t1 == h.gap1 + t2 && t2 == "<p>" + t3 && t3 == h.gap2 + t4
    requires t4 == "<span style=" + t5 && t5 == [h.open] + u5 && u5 == h.style + t6
    requires t6 == [h.close] + u6 && u6 == ">" + rest
    ensures t == HeadSource(h) + rest
  {
    var x6 := [h.close] + ">";
    Assoc([h.close], ">", rest);
    var x5 := h.style + x6;
    Assoc(h.style, x6, rest);
    var x4 := [h.open] + x5;
    Assoc([h.open], x5, rest);
    var x3 := "<span style=" + x4;
    Assoc("<span style=", x4, rest);
    var x2 := h.gap2 + x3;
    Assoc(h.gap2, x3, rest);
    var x1 := "<p>" + x2;
    Assoc("<p>", x2, rest);
    Assoc(h.gap1, x1, rest);
    Assoc("<li>", h.gap1 + x1, rest);
  }

  lemma {:induction false} SplitSpacesExact(w: string, u: string)
    requires AllSpaces(w) && (u != [] ==> !IsSpace(u[0]))
    ensures SplitSpaces(w + u) == (w, u)
  {
    if w == [] {
      assert w + u == u;
    } else {
      assert (w + u)[1..] == w[1..] + u;
      SplitSpacesExact(w[1..], u);
      assert [w[0]] + w[1..] == w;
    }
  }

  lemma {:induction false} SplitUnquotedExact(v: string, u: string)
    requires NoQuotes(v) && u != [] && IsQuote(u[0])
    ensures SplitUnquoted(v + u) == (v, u)
  {
    if v == [] {
      assert v + u == u;
    } else {
      assert (v + u)[1..] == v[1..] + u;
      SplitUnquotedExact(v[1..], u);
      assert [v[0]] + v[1..] == v;
    }
  }

  lemma AfterExact(lit: string, u: string)
    ensures After(lit, lit + u) == Some(u)
  {
    assert (lit + u)[|lit|..] == u;
  }

  /** The head is matched in exactly one way. */
  lemma MatchHeadComplete(h: Head, rest: string)
    requires HeadWellFormed(h)
    ensures MatchHead(HeadSource(h) + rest) == Some((h, rest))
  {
    var x6 := [h.close] + ">";
    var x5 := h.style + x6;
    var x4 := [h.open] + x5;
    var x3 := "<span style=" + x4;
    var x2 := h.gap2 + x3;
    var x1 := "<p>" + x2;
    HeadSourceSplit(h, HeadSource(h) + rest, h.gap1 + (x1 + rest), x1 + rest, x2 + rest,
      x3 + rest, x4 + rest, x5 + rest, x6 + rest, ">" + rest, rest);
    AfterExact("<li>", h.gap1 + (x1 + rest));
    SplitSpacesExact(h.gap1, x1 + rest);
    AfterExact("<p>", x2 + rest);
    SplitSpacesExact(h.gap2, x3 + rest);
    AfterExact("<span style=", x4 + rest);
    assert (x4 + rest)[1..] == x5 + rest;
    SplitUnquotedExact(h.style, x6 + rest);
    assert (x6 + rest)[1..] == ">" + rest;
    AfterExact(">", rest);
  }

  /** The tail is matched in exactly one way. */
  lemma MatchTailComplete(g: Tail, rest: string)
    requires TailWellFormed(g)
    ensures MatchTail(TailSource(g) + rest) == Some((g, rest))
  {
    Assoc(g.gap4, "</li>", rest);
    Assoc("</p>", g.gap4 + "</li>", rest);
    Assoc(g.gap3, "</p>" + (g.gap4 + "</li>"), rest);
    Assoc("</span>", g.gap3 + ("</p>" + (g.gap4 + "</li>")), rest);
    AfterExact("</span>", g.gap3 + ("</p>" + (g.gap4 + "</li>")) + rest);
    SplitSpacesExact(g.gap3, "</p>" + (g.gap4 + "</li>") + rest);
    AfterExact("</p>", g.gap4 + "</li>" + rest);
    SplitSpacesExact(g.gap4, "</li>" + rest);
    AfterExact("</li>", rest);
  }

  /** `LazyBody` finds a body whenever one exists, and never a longer one. */
  lemma {:induction false} LazyBodyComplete(t: string, c: string, g: Tail, rest: string)
    requires '\n' !in c && TailWellFormed(g) && t == c + (TailSource(g) + rest)
    ensures LazyBody(t).Some? && LazyBody(t).value.0 <= c
    ensures |LazyBody(t).value.0| == |c| ==> LazyBody(t).value == (c, g, rest)
  {
    if c == [] {
      assert t == TailSource(g) + rest;
      MatchTailComplete(g, rest);
    } else if MatchTail(t).None? {
      assert t[0] == c[0] && t[1..] == c[1..] + (TailSource(g) + rest);
      LazyBodyComplete(t[1..], c[1..], g, rest);
      assert [c[0]] + c[1..] == c;
    }
  }

  /**
   * Whenever the pattern can match at the start of `t`, the scanner reports a match: with
   * the same head, and a body that is a prefix of every other candidate's body.
   */
  lemma MatchComplete(t: string, m: ListItem)
    requires MatchesAt(t, m)
    ensures Match(t).Some? && Match(t).value.0.head == m.head
    ensures Match(t).value.0.content <= m.content
    ensures |Match(t).value.0.content| == |m.content| ==> Match(t).value.0 == m
  {
    var rest := t[|Source(m)|..];
    assert t == Source(m) + rest;
    Assoc(HeadSource(m.head), m.content + TailSource(m.tail), rest);
    MatchHeadComplete(m.head, (m.content + TailSource(m.tail)) + rest);
    Assoc(m.content, TailSource(m.tail), rest);
    LazyBodyComplete((m.content + TailSource(m.tail)) + rest, m.content, m.tail, rest);
  }

  /**
   * The scanner agrees with the pattern: it fails exactly when no match exists, and
   * otherwise returns the one match with the shortest body.
   */
  lemma MatchCorrect(t: string)
    ensures Match(t).None? <==> forall m :: !MatchesAt(t, m)
    ensures forall m :: FirstMatch(t, m) <==> Match(t).Some? && Match(t).value.0 == m
  {
    if Match(t).Some? {
      var (m, rest) := Match(t).value;
      assert Source(m) <= t;
      assert MatchesAt(t, m);
    }
    forall m | MatchesAt(t, m)
      ensures Match(t).Some? && |Match(t).value.0.content| <= |m.content|
    {
      MatchComplete(t, m);
    }
    forall m | FirstMatch(t, m)
      ensures Match(t).Some? && Match(t).value.0 == m
    {
      MatchComplete(t, m);
    }
  }
}
