// The slide assembler: each slide is normalised, wrapped in a slide container and
// appended to the page header; the document is closed with `</body></html>`.

module Slides {
  import opened ListItems
  import opened Rewriting

  /** The slides with every list item normalised, one output slide per input slide. */
  function NormalizeAll(slides: seq<string>): (r: seq<string>)
    ensures |r| == |slides|
  {
    if slides == [] then []
    else [Normalize(slides[0])] + NormalizeAll(slides[1..])
  }

  /** Output slide `i` is input slide `i`, normalised: order is kept. */
  lemma {:induction false} NormalizeAllAt(slides: seq<string>, i: nat)
    requires i < |slides|
    ensures NormalizeAll(slides)[i] == Normalize(slides[i])
  {
    if i > 0 {
      NormalizeAllAt(slides[1..], i - 1);
    }
  }

  /** Normalising a list of slides works slide by slide, so it distributes over `+`. */
  lemma {:induction false} NormalizeAllAppend(s: seq<string>, t: seq<string>)
    ensures NormalizeAll(s + t) == NormalizeAll(s) + NormalizeAll(t)
    decreases |s|
  {
    if s == [] {
      assert s + t == t;
    } else {
      assert (s + t)[1..] == s[1..] + t;
      NormalizeAllAppend(s[1..], t);
    }
  }

  /** Slides that hold no list item to rewrite come through unchanged, and only those. */
  lemma NormalizeAllUnchanged(slides: seq<string>)
    ensures NormalizeAll(slides) == slides <==> forall i :: 0 <= i < |slides| ==> !ContainsMatch(slides[i])
  {
    if NormalizeAll(slides) == slides {
      forall i | 0 <= i < |slides|
        ensures !ContainsMatch(slides[i])
      {
        NormalizeAllAt(slides, i);
        UnchangedIffNoMatch(slides[i]);
      }
    } else {
      var i :| 0 <= i < |slides| && NormalizeAll(slides)[i] != slides[i];
      NormalizeAllAt(slides, i);
      UnchangedIffNoMatch(slides[i]);
    }
  }

  const ContainerOpen := "<div class=\"slide\">"
  const ContainerClose := "</div>"
  const DocumentClose := "</body></html>"

  /** One slide inside its container. */
  function Container(slide: string): string {
    ContainerOpen + slide + ContainerClose
  }

  /** The containers of the slides, in order. */
  function Containers(slides: seq<string>): string {
    if slides == [] then []
    else Containers(slides[..|slides| - 1]) + Container(slides[|slides| - 1])
  }

  /** The document handed to the renderer: header, one container per slide, closing tags. */
  function Document(header: string, slides: seq<string>): string {
    header + Containers(slides) + DocumentClose
  }

  /**
   * Builds the document by appending one container per slide to the header, then the
   * closing tags.
   */
  method AssembleDocument(header: string, slides: seq<string>) returns (html: string)
    ensures html == Document(header, slides)
  {
    html := header;
    var i := 0;
    while i < |slides|
      invariant 0 <= i <= |slides|
      invariant html == header + Containers(slides[..i])
    {
      assert slides[..i + 1][..i] == slides[..i];
      html := html + Container(slides[i]);
      i := i + 1;
    }
    assert slides[..i] == slides;
    html := html + DocumentClose;
  }

  /** The containers of two runs of slides, one after the other. */
  lemma {:induction false} ContainersAppend(s: seq<string>, t: seq<string>)
    ensures Containers(s + t) == Containers(s) + Containers(t)
    decreases |t|
  {
    if t == [] {
      assert s + t == s;
    } else {
      var t' := t[..|t| - 1];
      assert (s + t)[..|s + t| - 1] == s + t';
      assert (s + t)[|s + t| - 1] == t[|t| - 1];
      ContainersAppend(s, t');
      var last := Container(t[|t| - 1]);
      assert Containers(s + t) == Containers(s + t') + last;
      assert Containers(t) == Containers(t') + last;
      assert Containers(s) + Containers(t') + last == Containers(s) + (Containers(t') + last);
    }
  }

  lemma ContainerLength(slide: string)
    ensures |Container(slide)| == |slide| + 25
  {
  }

  /** The total length of the slides. */
  function TotalLength(slides: seq<string>): nat {
    if slides == [] then 0 else TotalLength(slides[..|slides| - 1]) + |slides[|slides| - 1]|
  }

  /** Each container adds 25 characters of markup to its slide. */
  lemma {:induction false} ContainersLength(slides: seq<string>)
    ensures |Containers(slides)| == TotalLength(slides) + 25 * |slides|
  {
    if slides != [] {
      ContainersLength(slides[..|slides| - 1]);
      ContainerLength(slides[|slides| - 1]);
    }
  }

  /** Where the container of slide `i` starts in the containers of all slides. */
  function Offset(slides: seq<string>, i: nat): nat
    requires i <= |slides|
  {
    |Containers(slides[..i])|
  }

  /**
   * Slide `i` sits, inside its own container, right after the containers of the slides
   * before it; so there is one container per slide, in input order.
   */
  lemma ContainerAt(slides: seq<string>, i: nat)
    requires i < |slides|
    ensures var k := Offset(slides, i);
      k + |Container(slides[i])| <= |Containers(slides)| &&
      Containers(slides)[k..k + |Container(slides[i])|] == Container(slides[i])
  {
    var before, after := slides[..i], slides[i + 1..];
    assert slides == before + [slides[i]] + after;
    ContainersAppend(before + [slides[i]], after);
    ContainersAppend(before, [slides[i]]);
    assert Containers([slides[i]]) == Container(slides[i]) by {
      assert [slides[i]][..0] == [];
    }
  }

  /** A slice of the middle part of a concatenation. */
  lemma SliceOfMiddle(h: string, x: string, t: string, k: nat, m: nat)
    requires k + m <= |x|
    ensures |h| + k + m <= |h + x + t| && (h + x + t)[|h| + k..|h| + k + m] == x[k..k + m]
  {
  }

  /** In the document, slide `i` sits in its container right after the header and the containers before it. */
  lemma DocumentContainerAt(header: string, slides: seq<string>, i: nat)
    requires i < |slides|
    ensures var html := Document(header, slides);
      var c := Container(slides[i]);
      var k := |header| + Offset(slides, i);
      header <= html && k + |c| <= |html| && html[k..k + |c|] == c
  {
    ContainerAt(slides, i);
    SliceOfMiddle(header, Containers(slides), DocumentClose, Offset(slides, i), |Container(slides[i])|);
  }

  /** The document starts with the header and ends with the closing tags. */
  lemma DocumentFrame(header: string, slides: seq<string>)
    ensures header <= Document(header, slides)
    ensures |Document(header, slides)| == |header| + TotalLength(slides) + 25 * |slides| + 14
    ensures Document(header, slides)[|Document(header, slides)| - 14..] == DocumentClose
  {
    ContainersLength(slides);
  }
}
