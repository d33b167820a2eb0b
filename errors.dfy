// How a failure of the compiler reaches the client. The handler raises HTTP errors and
// wraps everything it catches: the rendering block turns any exception into a 500
// "Error generating PDF", and the whole handler turns any exception into a 500
// "Unexpected error" -- including the HTTP errors it raised itself.

module Errors {

  /** Why compiling the slides stopped. */
  datatype Failure =
    | NoSlides                    // empty slide list
    | FontsNotFound               // a font file is missing
    | RenderFailed(message: string)  // the renderer raised, with this message

  /** An HTTP error response: status code and detail text. */
  datatype HttpError = HttpError(status: nat, detail: string)

  /** The decimal digits of `n`. */
  function Digits(n: nat): (r: string)
    ensures r != [] && forall k :: 0 <= k < |r| ==> '0' <= r[k] <= '9'
  {
    if n < 10 then [Digit(n)] else Digits(n / 10) + [Digit(n % 10)]
  }

  function Digit(d: nat): char
    requires d < 10
  {
    ['0', '1', '2', '3', '4', '5', '6', '7', '8', '9'][d]
  }

  /** The value of a string of decimal digits. */
  function Value(s: string): nat
    requires forall k :: 0 <= k < |s| ==> '0' <= s[k] <= '9'
  {
    if s == [] then 0 else Value(s[..|s| - 1]) * 10 + (s[|s| - 1] - '0') as nat
  }

  /** The digits read back give the number. */
  lemma {:induction false} DigitsValue(n: nat)
    ensures Value(Digits(n)) == n
  {
    var r := Digits(n);
    if n >= 10 {
      DigitsValue(n / 10);
      assert r[..|r| - 1] == Digits(n / 10);
    }
  }

  /** The text of an HTTP error raised as an exception: `<status>: <detail>`. */
  function Describe(e: HttpError): string {
    Digits(e.status) + ": " + e.detail
  }

  /** The HTTP errors the handler raises on purpose. */
  const NoSlidesError := HttpError(400, "No slides provided")
  const FontsNotFoundError := HttpError(500, "Font files not found")

  /** The text of the exception a failure raises. */
  function Message(f: Failure): string {
    match f
    case NoSlides => Describe(NoSlidesError)
    case FontsNotFound => Describe(FontsNotFoundError)
    case RenderFailed(m) => m
  }

  /** The rendering block's handler. */
  function RenderWrap(message: string): HttpError {
    HttpError(500, "Error generating PDF: " + message)
  }

  /** The whole handler's handler. */
  function OuterWrap(message: string): HttpError {
    HttpError(500, "Unexpected error: " + message)
  }

  /**
   * The response as written: a failure inside the rendering block is wrapped twice, the
   * empty-list check (outside that block) once.
   */
  function ErrorResponse(f: Failure): HttpError {
    if f.NoSlides? then OuterWrap(Message(f))
    else OuterWrap(Describe(RenderWrap(Message(f))))
  }

  /** As written, every failure answers 500 "Unexpected error: ...", whatever was raised. */
  lemma ErrorResponseAlways500(f: Failure)
    ensures ErrorResponse(f).status == 500
    ensures "Unexpected error: " <= ErrorResponse(f).detail
    ensures ErrorResponse(f) != NoSlidesError && ErrorResponse(f) != FontsNotFoundError
  {
    assert NoSlidesError.detail[0] != ErrorResponse(f).detail[0];
  }

  lemma DigitsOf400And500()
    ensures Digits(400) == "400" && Digits(500) == "500"
  {
  }

  /** An empty slide list is answered with a 500, not the 400 the handler raises. */
  lemma EmptyListAnswers500()
    ensures ErrorResponse(NoSlides) == HttpError(500, "Unexpected error: " + "400" + ": " + "No slides provided")
  {
    DigitsOf400And500();
    assert Describe(NoSlidesError) == "400" + ": " + "No slides provided";
  }

  /** A missing font is answered with its message wrapped twice. */
  lemma MissingFontAnswer()
    ensures ErrorResponse(FontsNotFound)
         == HttpError(500, "Unexpected error: " + "500" + ": " + ("Error generating PDF: " + ("500" + ": " + "Font files not found")))
  {
    DigitsOf400And500();
    var m := Describe(FontsNotFoundError);
    assert m == "500" + ": " + "Font files not found";
    assert Describe(RenderWrap(m)) == "500" + ": " + ("Error generating PDF: " + m);
  }

  /**
   * The response the raised errors evidently intend: an HTTP error raised by the handler
   * goes out unchanged, and only an unexpected exception from the renderer is wrapped.
   */
  function ErrorResponseIntended(f: Failure): HttpError {
    match f
    case NoSlides => NoSlidesError
    case FontsNotFound => FontsNotFoundError
    case RenderFailed(m) => RenderWrap(m)
  }

  /**
   * With the intended handling, the client is at fault (400) exactly when it sent no
   * slides, and an error the handler raises is the error the client sees.
   */
  lemma IntendedResponses(f: Failure)
    ensures ErrorResponseIntended(f).status == 400 <==> f == NoSlides
    ensures !f.RenderFailed? ==> Describe(ErrorResponseIntended(f)) == Message(f)
    ensures f.RenderFailed? ==> ErrorResponseIntended(f) == RenderWrap(f.message)
  {
  }

  /** The two handlings agree on nothing: every as-written answer differs from the intended one. */
  lemma IntendedDiffers(f: Failure)
    ensures ErrorResponse(f) != ErrorResponseIntended(f)
  {
    ErrorResponseAlways500(f);
    if f.RenderFailed? {
      assert ErrorResponse(f).detail[0] != ErrorResponseIntended(f).detail[0];
    }
  }
}
