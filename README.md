# Slide-to-PDF compiler, modelled in Dafny

This project models the core of the `download_ai_slides_pdf` endpoint in `app.py`. The endpoint compiles a
list of HTML slides into the two strings it hands to the PDF renderer: the HTML document and the print
stylesheet. The compiler does four things:

- **List-item normaliser** (`process_list_items`). This is one `re.sub` with the pattern
  `<li>\s*<p>\s*<span style=['"]([^'"]+)['"]>(.*?)</span>\s*</p>\s*</li>` and the replacement
  `<li style="\1">\2</li>`. It is modelled as a left-to-right scanner, `ListItems.Normalize`, on top of a
  matcher for this one pattern, `ListItems.Match`.
  - The pattern's language is stated declaratively by `ListItems.Source`, `MatchesAt` and `FirstMatch`.
  - re.sub's choice of matches is stated by `Rewriting.IsSubstitution`.
  - The scanner is proved to agree with both.
- **Slide assembler**. Each slide is normalised. It is then appended inside `<div class="slide">…</div>` to
  the page header, and `</body></html>` closes the document. The assembly loop is the method
  `Slides.AssembleDocument`, proved against the function `Slides.Document`.
- **Font resolution**. The fonts directory is joined onto the application directory, and the two Inter
  font files are joined onto that. Both files must exist.
- **Print stylesheet**. The f-string is kept character for character. It embeds both font paths as
  `file://` URLs and fixes the page at `1080px 810px`.

`Handler.DownloadSlidesPdf` runs these steps in the handler's order. It first rejects an empty slide list,
then normalises and assembles the slides, then probes the fonts, then composes the stylesheet. It is proved
equal to the one-expression specification `Handler.Compile`. `Errors` models how failures become HTTP
errors, as written and as evidently intended (see Findings).

Files, one module each:

- `wrappers.dfy`: `Wrappers` (the `Option` type).
- `list_items.dfy`: `ListItems`.
- `rewriting.dfy`: `Rewriting`, plus `RewritingExamples` (concrete families of fragments).
- `slides.dfy`: `Slides`.
- `fonts.dfy`: `Fonts`.
- `print_style.dfy`: `PrintStyle`.
- `errors.dfy`: `Errors`.
- `handler.dfy`: `Handler`.

## Behaviour worth knowing

- **Normalising is not idempotent.** A second pass can rewrite what the first pass left.
  - Take an item whose body holds a complete inner head, `<li><p><span style='a'><li><p><span style='b'>c</span></p></span></p></li>`.
  - The lazy body of the outer match ends at the first `</span></p>` that is followed by `</li>`.
  - Rewriting the outer match therefore exposes the inner item `<li><p><span style='b'>c</span></p></li>`, which a second pass rewrites.
  - `RewritingExamples.NotIdempotent` proves `Normalize(Normalize(x)) != Normalize(x)` for every such item with a non-empty, quote-free, `<`-free outer style `a`, a non-empty, quote-free inner style `b`, and `/`-free, newline-free `b` and `c`.
- **Error reporting.** The handler raises a 400 "No slides provided" for an empty deck and a 500 "Font files not found" for a missing font.
  - The font error's detail names no path; only the log line names both paths.
  - Either font missing gives the same failure (`Fonts.ResolveFonts`).
  - Both errors are then re-wrapped by the enclosing `except Exception` clauses (`Errors.ErrorResponse`, see Findings).
- **Empty input.** The empty-input check belongs to the handler, not to the assembler. The assembly loop accepts an empty list and yields the header plus `</body></html>`.

## Model

| member | source | states |
|---|---|---|
| ListItems.Rewrite | app.py:39 | no contract; the replacement `<li style="\1">\2</li>` with the style and the content; stated by `Rewriting.RewriteShrinks` and `RewritingExamples.TightItem` |
| ListItems.MatchTail | app.py:36 | no contract; the tail `</span>\s*</p>\s*</li>`; stated by `ListItems.MatchTailSound` and `ListItems.MatchTailComplete` |
| ListItems.LazyBody | app.py:36 | no contract; the lazy `(.*?)` followed by the tail; stated by `ListItems.LazyBodySound` and `ListItems.LazyBodyComplete` |
| ListItems.Normalize | app.py:33-41 | no contract; `process_list_items`, a left-to-right scan that rewrites each match and keeps every other character; stated by `Rewriting.NormalizeIsOutputOf`, `Rewriting.SubstitutionExists`, `Rewriting.SubstitutionUnique`, `Rewriting.NormalizeLength` and `Rewriting.UnchangedIffNoMatch` |
| ListItems.SplitSpaces | app.py:36 | a greedy `\s*`: the text is split into a whitespace run and a rest that does not start with whitespace |
| ListItems.SplitUnquoted | app.py:36 | a greedy `[^'"]*`: the text is split into a quote-free run and a rest that starts with a quote or is empty |
| ListItems.MatchHead | app.py:36 | a head found by the matcher has whitespace gaps, two quote characters (each `'` or `"`, independently) and a non-empty quote-free style, and it renders back to a prefix of the text |
| ListItems.MatchTailSound | app.py:36 | a tail found by the matcher has whitespace gaps and renders back to a prefix of the text |
| ListItems.LazyBodySound | app.py:36 | a body found by the lazy scan holds no newline and is followed by a well-formed tail, so the pieces render back to the text |
| ListItems.Match | app.py:36 | a match reported at the start of the text is well formed, and its rendering plus the rest is the text |
| ListItems.MatchHeadComplete | app.py:36 | every well-formed head is matched back in exactly one way, so the regex has no choice before the body |
| ListItems.MatchTailComplete | app.py:36 | every well-formed tail is matched back in exactly one way |
| ListItems.LazyBodyComplete | app.py:36 | whenever some body and tail fit, the lazy scan finds a body that is a prefix of that one; with equal lengths it finds that very body |
| ListItems.MatchComplete | app.py:36 | whenever the pattern can match at the start, the matcher reports a match with the same head and a body no longer than the candidate's |
| ListItems.MatchCorrect | app.py:36 | the matcher fails exactly when the pattern matches nowhere at the start; otherwise it returns exactly the match with the shortest body, which is the regex's choice for `(.*?)` |
| Rewriting.IsSubstitution | app.py:41 | no contract; re.sub's reading of a fragment, stated declaratively: at each position the regex's first match is rewritten, otherwise one character is kept; stated by `Rewriting.SubstitutionExists`, `Rewriting.SubstitutionUnique` and `Rewriting.SubstitutionCoversInput` |
| Rewriting.SubstitutionCoversInput | app.py:41 | re.sub's reading of a fragment cuts it into consecutive, non-overlapping pieces that cover it in order |
| Rewriting.NormalizeIsOutputOf | app.py:39-41 | the normaliser outputs exactly re.sub's output: matches replaced by `<li style="S">C</li>`, all other characters copied in order |
| Rewriting.SubstitutionExists | app.py:41 | every fragment has a re.sub reading, so the normaliser is defined like re.sub on every input |
| Rewriting.SubstitutionUnique | app.py:41 | the re.sub reading of a fragment is unique |
| Rewriting.RewriteShrinks | app.py:36-39 | each replacement is at least 20 characters shorter than the text it replaces |
| Rewriting.NormalizeLength | app.py:41 | normalising never lengthens a fragment, and strictly shortens one that contains a match |
| Rewriting.UnchangedIffNoMatch | app.py:36-41 | a fragment comes back unchanged if and only if the pattern matches nowhere in it |
| Rewriting.NoListItemTagUnchanged | app.py:36-41 | a fragment with no `<li>` substring comes back unchanged |
| RewritingExamples.NormalizeSkipsRun | app.py:41 | text free of `<` is copied to the output as it is |
| RewritingExamples.SlashFreeItem | app.py:36-41 | an item whose body holds no `/` is matched whole, and the scan resumes right after it |
| RewritingExamples.TightItem | app.py:36-41 | `<li><p><span style='S'>C</span></p></li>` becomes exactly `<li style="S">C</li>` for every newline-free content C in which no `</span>` starts (other tags and `/` allowed): style and content verbatim, double quotes, gaps dropped |
| RewritingExamples.OuterBodyScan | app.py:36 | for the nested item `Outer(a, b, c)` with `/`-free, newline-free b and c, the lazy body runs past the inner `</span></p>`, which `</span>` follows instead of `</li>`, and ends at the real tail |
| RewritingExamples.NotIdempotent | app.py:36-41 | for `Outer(a, b, c)` followed by any text, with a non-empty, quote-free, `<`-free style a, a non-empty quote-free b, and `/`-free, newline-free b and c, normalising twice gives a different result from normalising once |
| Slides.NormalizeAll | app.py:44 | normalising the slide list keeps its length |
| Slides.NormalizeAllAt | app.py:44 | output slide i is input slide i normalised, so order is kept |
| Slides.NormalizeAllAppend | app.py:44 | normalising works slide by slide: it distributes over concatenation of slide lists |
| Slides.NormalizeAllUnchanged | app.py:44 | the slide list comes back unchanged if and only if no slide contains a match |
| Slides.Containers | app.py:289-290 | no contract; one `<div class="slide">` container per slide, in order; stated by `Slides.ContainersAppend`, `Slides.ContainersLength` and `Slides.ContainerAt` |
| Slides.Document | app.py:289-292 | no contract; the header, the containers, then `</body></html>`; stated by `Slides.AssembleDocument`, `Slides.DocumentContainerAt` and `Slides.DocumentFrame` |
| Slides.AssembleDocument | app.py:289-292 | the loop builds exactly the header, then one container per slide in order, then `</body></html>` |
| Slides.ContainersAppend | app.py:289-290 | the containers of two runs of slides are the containers of the first run followed by those of the second |
| Slides.ContainersLength | app.py:289-290 | the containers add exactly 25 characters of markup per slide |
| Slides.ContainerAt | app.py:289-290 | slide i sits inside its own container, right after the containers of slides 0..i-1 |
| Slides.DocumentContainerAt | app.py:289-292 | in the document, slide i's container sits right after the header and the containers before it |
| Slides.DocumentFrame | app.py:289-292 | the document starts with the header, ends with `</body></html>`, and its length is header + slides + 25 per slide + 14 |
| Fonts.Join | app.py:312 | `os.path.join` on POSIX: an absolute second part replaces the first; otherwise the result starts with the first part, ends with the second, and has one `/` inserted only when needed |
| Fonts.BasenameOfJoin | app.py:315-316 | joining a `/`-free file name gives a path whose last component is that name |
| Fonts.FontPaths | app.py:311-316 | the fonts directory is the application directory followed by `fonts`, each font path is that directory followed by `/` and the font's file name, and the two paths differ |
| Fonts.FontPathsExtendAppDir | app.py:312-316 | both font paths start with the application directory |
| Fonts.FontsDir | app.py:312 | no contract; `os.path.join(app_dir, "fonts")`; stated by `Fonts.FontPaths` and `Fonts.FontPathsExtendAppDir` |
| Fonts.NormalFontPath | app.py:315 | no contract; the fonts directory joined with `Inter-VariableFont_opsz,wght.ttf`; stated by `Fonts.FontPaths` and `Fonts.BasenameOfJoin` |
| Fonts.ItalicFontPath | app.py:316 | no contract; the fonts directory joined with `Inter-Italic-VariableFont_opsz,wght.ttf`; stated by `Fonts.FontPaths` and `Fonts.BasenameOfJoin` |
| Fonts.FontPathChars | app.py:312-316 | a character other than `/`, absent from the application directory and the fixed names, is absent from both font paths |
| Fonts.ResolveFonts | app.py:319-321 | the fonts are found exactly when both files exist, and then the found paths are the two font paths |
| Fonts.Probes | app.py:319 | the normal font is always probed first; the italic font is probed, second, exactly when the normal one exists (the `or` short-circuits) |
| Fonts.ResolveMatchesProbes | app.py:319-321 | the fonts are found exactly when every probed path exists |
| PrintStyle.Stylesheet | app.py:326-350 | no contract; the f-string, kept character for character with both paths filled in; stated by `PrintStyle.FontUrlsRoundTrip`, `PrintStyle.StylesheetInjective`, `PrintStyle.NormalFontUrl`, `PrintStyle.ItalicFontUrl` and `PrintStyle.PageSizeFixed` |
| PrintStyle.UpToQuote | app.py:331 | splits a text at its first `'` into a quote-free run and the rest |
| PrintStyle.ReadUrls | app.py:326-350 | a text read as two paths is exactly the template filled with those quote-free paths |
| PrintStyle.ReadUrlsRoundTrip | app.py:331-337 | quote-free paths filled into the template are read back exactly |
| PrintStyle.FontUrls | app.py:326-350 | a stylesheet read as two font paths is exactly the stylesheet for those paths |
| PrintStyle.FontUrlsRoundTrip | app.py:326-350 | quote-free font paths are read back exactly from their stylesheet |
| PrintStyle.StylesheetInjective | app.py:326-350 | different quote-free font paths give different stylesheets |
| PrintStyle.NormalFontUrl | app.py:331 | the normal font path appears verbatim as `url('file://PATH')` at its place in the stylesheet |
| PrintStyle.ItalicFontUrl | app.py:337 | the italic font path appears verbatim as `url('file://PATH')` at its place in the stylesheet |
| PrintStyle.PageSizeFixed | app.py:340 | whatever the font paths, the stylesheet holds `size: 1080px 810px` at a fixed distance from its end |
| Errors.ErrorResponse | app.py:365-371 | no contract; the answer as written, wrapped by the enclosing `except Exception` clauses; stated by `Errors.ErrorResponseAlways500`, `Errors.EmptyListAnswers500` and `Errors.MissingFontAnswer` |
| Errors.ErrorResponseIntended | app.py:30-31 | no contract; the answer the raised errors evidently intend, with the handler's own errors passed through; stated by `Errors.IntendedResponses` and `Errors.IntendedDiffers` |
| Errors.DigitsValue | app.py:371 | the decimal text of a status code reads back as that code |
| Errors.ErrorResponseAlways500 | app.py:369-371 | as written, every failure is answered 500 with a detail that starts with "Unexpected error: ", never with the error the handler raised |
| Errors.EmptyListAnswers500 | app.py:30-31 | as written, an empty slide list is answered 500 "Unexpected error: 400: No slides provided" |
| Errors.MissingFontAnswer | app.py:365-367 | as written, a missing font is answered 500 "Unexpected error: 500: Error generating PDF: 500: Font files not found" |
| Errors.IntendedResponses | app.py:31 | with the intended handling, the answer is 400 exactly for an empty slide list, and an error the handler raises reaches the client unchanged |
| Errors.IntendedDiffers | app.py:369-371 | for every failure, the as-written answer differs from the intended one |
| Handler.Compile | app.py:26-350 | no contract; the compiler's outcome in one expression: the guard, the normalised and assembled slides, the font check and the stylesheet; stated by `Handler.DownloadSlidesPdf`, `Handler.EmptyRejectedFirst`, `Handler.MissingFontFails`, `Handler.CompiledJob` and `Handler.CompiledStylesheet` |
| Handler.DownloadSlidesPdf | app.py:30-350 | the handler's steps produce exactly `Compile`'s outcome; they probe no font for an empty list, and otherwise probe the paths `Probes` lists |
| Handler.EmptyRejectedFirst | app.py:30-31 | an empty slide list is rejected, with the same outcome whatever the file system holds |
| Handler.MissingFontFails | app.py:319-321 | with slides, compiling fails if and only if a font file is missing, and then because of the fonts |
| Handler.CompiledJob | app.py:325-326 | a successful compilation had slides and both fonts, and hands the renderer the document of the normalised slides and the stylesheet for the two font paths |
| Handler.CompiledStylesheet | app.py:326-337 | the compiled stylesheet is the one for the two font paths, which read back from it if and only if the application directory holds no `'` |
| Handler.FontPathsReadBack | app.py:312-337 | the two font paths are read back exactly out of their stylesheet if and only if the application directory holds no `'` |
| Handler.CompiledLength | app.py:289-292 | the compiled document's length counts one 25-character container per slide |
| Handler.ErrorOfAsWritten | app.py:365-371 | as written, a compilation yields an HTTP error exactly when it fails, and that error is always a 500 whose detail starts "Unexpected error: " |
| Handler.ErrorOf | app.py:30-31 | with the intended handling, a compilation yields an HTTP error exactly when it fails |
| Handler.AsWrittenAnswers | app.py:369-371 | as written, an empty slide list is answered with the wrapped 500; the written and the intended answers agree exactly when compiling succeeds |
| Handler.IntendedAnswers | app.py:30-31 | with the intended handling, an empty list is answered 400 "No slides provided" and a missing font 500 "Font files not found"; no error exactly when there are slides and both fonts |

## Left out

- The routes `read_root` and `read_item`, `request.json()`, and the `Response` with its headers. These are HTTP plumbing. The slides arrive as a `seq<string>`.
- Request bodies other than a JSON object with a list of strings under `slides`. The model takes the slides as a `seq<string>`; in the source:
  - a body that is not JSON fails at `await request.json()` (app.py:27), and JSON that is not an object fails at `data.get` (app.py:28); both are answered 500 "Unexpected error";
  - a missing or falsy `slides` value (`null`, `0`, `false`, `""`, `[]`, `{}`) meets the guard at app.py:30, so it is answered like an empty list;
  - a non-empty string is iterated one character at a time by the comprehension at app.py:44, so each character becomes a slide and a PDF is rendered;
  - a non-empty JSON object is iterated by its keys, one slide per key, and a PDF is rendered;
  - a truthy value that cannot be iterated (`5`, `true`) fails in the comprehension at app.py:44 and is answered 500 "Unexpected error";
  - a list holding a non-string makes `re.sub` (app.py:41) raise, and is answered 500 "Unexpected error".
- The WeasyPrint calls `HTML`, `CSS`, `FontConfiguration` and `write_pdf`. This is a foreign renderer. The model stops at the (document, stylesheet) pair, `Handler.RenderJob`.
  - A renderer failure appears only as `Errors.RenderFailed(message)`.
  - The compiler itself never produces one.
- The meaning of the CSS in the page header and in the stylesheet. Both are kept as text.
- The page header (app.py:47-287) is the parameter `header`.
- `os.path.abspath` and `os.path.dirname` are replaced by the parameter `appDir`. `os.path.exists` becomes the parameter `fileExists`.
- The `logging` calls have no effect on the result.
- `test_html` (app.py:294-307) is never used.
- A general regex engine. Only the one fixed pattern is modelled.
  - `\s` is the set of code points for which `str.isspace()` holds.
  - Characters are Dafny `char`s, not Python code points.
- Errors.Describe: the text of an `HTTPException` is taken to be `"<status>: <detail>"`. That is the exception's `__str__` in Starlette, which is not part of this model.
- PrintStyle.FontUrlsRoundTrip: stated only for paths without `'`. The source does not escape the path, so a `'` in it ends the CSS string early.
- Handler.CompiledStylesheet: the read-back holds only for an application directory without `'`, for the same reason; the contract also proves the converse, that a `'` in the directory makes the read-back fail.

## Findings

| source | as written | input that shows it | evidently intended | confidence | as-written member | corrected member |
|---|---|---|---|---|---|---|
| app.py:369-371 | the 400 raised at app.py:31 is inside the outer `try`, so `except Exception` re-raises it as 500 "Unexpected error: 400: No slides provided" | a request with `"slides": []` | the client gets 400 "No slides provided" | high; not executed | Errors.EmptyListAnswers500 | Errors.IntendedResponses |
| app.py:365-367 | the 500 "Font files not found" raised at app.py:321 is inside the rendering `try`, so it is wrapped twice: 500 "Unexpected error: 500: Error generating PDF: 500: Font files not found" | slides present, italic font file absent | the client gets 500 "Font files not found" | medium; not executed | Errors.MissingFontAnswer | Errors.IntendedResponses |
