// The slide-to-PDF compiler behind the download endpoint: reject an empty slide list,
// normalise and assemble the slides, find the fonts, and compose the stylesheet. What it
// hands to the renderer is the document and the stylesheet.

module Handler {
  import opened Wrappers
  import opened ListItems
  import opened Rewriting
  import opened Slides
  import opened Fonts
  import opened PrintStyle
  import opened Errors

  /** The document and the stylesheet handed to the renderer. */
  datatype RenderJob = RenderJob(html: string, css: string)

  datatype Outcome = Render(job: RenderJob) | Fail(failure: Failure)

  /** What the compiler produces for the request, in one expression. */
  function Compile(header: string, slides: seq<string>, appDir: string, fileExists: string -> bool): Outcome {
    if slides == [] then Fail(NoSlides)
    else
      match ResolveFonts(appDir, fileExists)
      case FontsMissing => Fail(FontsNotFound)
      case FontsFound(normal, italic) =>
        Render(RenderJob(Document(header, NormalizeAll(slides)), Stylesheet(normal, italic)))
  }

  /**
   * The compiler, step by step in the handler's order; `probed` lists the paths whose
   * existence was looked up, in order.
   */
  method DownloadSlidesPdf(header: string, slides: seq<string>, appDir: string, fileExists: string -> bool)
    returns (r: Outcome, probed: seq<string>)
    ensures r == Compile(header, slides, appDir, fileExists)
    ensures probed == (if slides == [] then [] else Probes(appDir, fileExists))
  {
    probed := [];
    if slides == [] {
      return Fail(NoSlides), probed;
    }
    var processed := NormalizeAll(slides);
    var html := AssembleDocument(header, processed);
    var normal := NormalFontPath(appDir);
    var italic := ItalicFontPath(appDir);
    probed := probed + [normal];
    if !fileExists(normal) {
      return Fail(FontsNotFound), probed;
    }
    probed := probed + [italic];
    if !fileExists(italic) {
      return Fail(FontsNotFound), probed;
    }
    var css := Stylesheet(normal, italic);
    r := Render(RenderJob(html, css));
  }

  /** An empty slide list is rejected whatever the fonts, and before any font is looked up. */
  lemma EmptyRejectedFirst(header: string, appDir: string, fileExists: string -> bool)
    ensures Compile(header, [], appDir, fileExists) == Fail(NoSlides)
    ensures Compile(header, [], appDir, fileExists) == Compile(header, [], appDir, _ => true)
  {
  }

  /** With slides, compiling fails exactly when a font file is missing, and then for that reason. */
  lemma MissingFontFails(header: string, slides: seq<string>, appDir: string, fileExists: string -> bool)
    requires slides != []
    ensures Compile(header, slides, appDir, fileExists).Fail? <==>
      !fileExists(NormalFontPath(appDir)) || !fileExists(ItalicFontPath(appDir))
    ensures Compile(header, slides, appDir, fileExists).Fail? ==>
      Compile(header, slides, appDir, fileExists).failure == FontsNotFound
  {
  }

  /** A successful compilation renders the normalised slides' document with the stylesheet for both fonts. */
  lemma CompiledJob(header: string, slides: seq<string>, appDir: string, fileExists: string -> bool)
    requires Compile(header, slides, appDir, fileExists).Render?
    ensures slides != [] && fileExists(NormalFontPath(appDir)) && fileExists(ItalicFontPath(appDir))
    ensures Compile(header, slides, appDir, fileExists).job
         == RenderJob(Document(header, NormalizeAll(slides)), Stylesheet(NormalFontPath(appDir), ItalicFontPath(appDir)))
  {
  }

  /**
   * When compiling succeeds, the stylesheet is the one for the two font paths; the paths
   * can be read back out of it exactly when the application directory holds no `'`.
   */
  lemma CompiledStylesheet(header: string, slides: seq<string>, appDir: string, fileExists: string -> bool)
    requires Compile(header, slides, appDir, fileExists).Render?
    ensures var css := Compile(header, slides, appDir, fileExists).job.css;
      css == Stylesheet(NormalFontPath(appDir), ItalicFontPath(appDir)) &&
      (FontUrls(css) == Some((NormalFontPath(appDir), ItalicFontPath(appDir))) <==> '\'' !in appDir)
  {
    CompiledJob(header, slides, appDir, fileExists);
    FontPathsReadBack(appDir);
  }

  /** The font paths can be read back out of their stylesheet exactly when the application directory holds no `'`. */
  lemma FontPathsReadBack(appDir: string)
    ensures var normal, italic := NormalFontPath(appDir), ItalicFontPath(appDir);
      FontUrls(Stylesheet(normal, italic)) == Some((normal, italic)) <==> '\'' !in appDir
  {
    if '\'' !in appDir {
      FixedNamesQuoteFree();
      FontPathChars(appDir, '\'');
      FontUrlsRoundTrip(NormalFontPath(appDir), ItalicFontPath(appDir));
    } else {
      QuoteBlocksReadBack(appDir);
    }
  }

  /** A `'` in the application directory is copied into the normal font path, where it cuts the URL short. */
  lemma QuoteBlocksReadBack(appDir: string)
    requires '\'' in appDir
    ensures FontUrls(Stylesheet(NormalFontPath(appDir), ItalicFontPath(appDir)))
         != Some((NormalFontPath(appDir), ItalicFontPath(appDir)))
  {
    var normal := NormalFontPath(appDir);
    var c :| 0 <= c < |appDir| && appDir[c] == '\'';
    FontPathsExtendAppDir(appDir);
    assert normal[c] == '\'' && '\'' in normal;
  }

  lemma FixedNamesQuoteFree()
    ensures '\'' !in FontsDirName && '\'' !in NormalFontName && '\'' !in ItalicFontName
  {
  }

  /** The document holds one container per slide: its length counts 25 characters of markup per slide. */
  lemma CompiledLength(header: string, slides: seq<string>, appDir: string, fileExists: string -> bool)
    requires Compile(header, slides, appDir, fileExists).Render?
    ensures |Compile(header, slides, appDir, fileExists).job.html|
         == |header| + TotalLength(NormalizeAll(slides)) + 25 * |slides| + 14
  {
    DocumentFrame(header, NormalizeAll(slides));
  }

  /** The HTTP error the client receives for a failed compilation, as the handler is written. */
  function ErrorOfAsWritten(o: Outcome): (r: Option<HttpError>)
    ensures r.Some? <==> o.Fail?
    ensures r.Some? ==> r.value.status == 500 && "Unexpected error: " <= r.value.detail
  {
    match o
    case Render(_) => None
    case Fail(f) => ErrorResponseAlways500(f); Some(ErrorResponse(f))
  }

  /** The HTTP error the client receives for a failed compilation, with the intended handling. */
  function ErrorOf(o: Outcome): (r: Option<HttpError>)
    ensures r.Some? <==> o.Fail?
  {
    match o
    case Render(_) => None
    case Fail(f) => Some(ErrorResponseIntended(f))
  }

  /**
   * With the intended handling, an empty slide list is answered 400 whatever the fonts,
   * and a missing font is answered 500 "Font files not found".
   */
  lemma IntendedAnswers(header: string, slides: seq<string>, appDir: string, fileExists: string -> bool)
    ensures slides == [] ==> ErrorOf(Compile(header, slides, appDir, fileExists)) == Some(HttpError(400, "No slides provided"))
    ensures slides != [] && !(fileExists(NormalFontPath(appDir)) && fileExists(ItalicFontPath(appDir))) ==>
      ErrorOf(Compile(header, slides, appDir, fileExists)) == Some(HttpError(500, "Font files not found"))
    ensures ErrorOf(Compile(header, slides, appDir, fileExists)).None? <==>
      slides != [] && fileExists(NormalFontPath(appDir)) && fileExists(ItalicFontPath(appDir))
  {
  }

  /**
   * As written, an empty slide list reaches the client as a 500; and the written handling
   * agrees with the intended one only on a successful compilation.
   */
  lemma AsWrittenAnswers(header: string, slides: seq<string>, appDir: string, fileExists: string -> bool)
    ensures slides == [] ==> ErrorOfAsWritten(Compile(header, slides, appDir, fileExists)) == Some(ErrorResponse(NoSlides))
    ensures ErrorOfAsWritten(Compile(header, slides, appDir, fileExists)) == ErrorOf(Compile(header, slides, appDir, fileExists)) <==>
      Compile(header, slides, appDir, fileExists).Render?
  {
    var o := Compile(header, slides, appDir, fileExists);
    if o.Fail? {
      IntendedDiffers(o.failure);
    }
  }
}
