/** `POST /api/generate`: check the model key, read the form, require a
    PDF or pasted text, check the PDF's type and size, and ask the model
    for the analysis of the PDF (which wins over any pasted text) or of the
    text. */
module Generate {
  import opened Common
  import opened JsText
  import opened Http
  import opened Prompt
  import opened Reply

  /** `MAX_PDF_SIZE`: 20 MiB. */
  const MaxPdfSize := 20 * 1024 * 1024
  const PdfMimeType := "application/pdf"

  const BadBodyMessage := "Invalid request body \U{2014} expected FormData."
  const NoContentMessage := "Please provide a PDF file or paste paper text."
  const NotPdfMessage := "Only PDF files are accepted."
  const TooLargeMessage := "PDF must be under 20 MB."
  const GeneratePrefix := "Failed to generate insights: "
  const UnknownModelError := "Unknown error calling Gemini"

  /** A `File`: its name, its declared MIME type and its bytes (`size` is
      their number). */
  datatype Upload = Upload(name: string, mimeType: string, bytes: seq<bv8>)

  /** The form fields the handler reads, each possibly absent. */
  datatype Form = Form(file: Option<Upload>, text: Option<string>, title: Option<string>)

  /** `text?.trim() || ""`: the pasted text, trimmed; blank counts as none. */
  function PastedText(text: Option<string>): (r: string)
    ensures NoEdgeSpace(r)
    ensures r == "" <==> text.None? || forall i :: 0 <= i < |text.value| ==> IsSpace(text.value[i])
    ensures r != "" ==> text.Some? && r == Trim(text.value)
  {
    if text.None? then "" else
      var r := Trim(text.value);
      if forall i :: 0 <= i < |text.value| ==> IsSpace(text.value[i]) then
        TrimAllSpace(text.value);
        r
      else
        TrimNotBlank(text.value);
        r
  }

  /** Text with a non-space character does not trim to nothing. */
  lemma TrimNotBlank(s: string)
    requires exists k :: 0 <= k < |s| && !IsSpace(s[k])
    ensures Trim(s) != ""
  {
    var k :| 0 <= k < |s| && !IsSpace(s[k]);
    assert LeadingSpaces(s) <= k;
  }

  /** `title?.trim() || undefined`: a blank title is no title. */
  function TitleOf(title: Option<string>): (r: Option<string>)
    ensures r.None? <==> title.None? || Trim(title.value) == ""
    ensures r.Some? ==> r.value != "" && NoEdgeSpace(r.value) && r.value == Trim(title.value)
  {
    if title.None? || Trim(title.value) == "" then None else Some(Trim(title.value))
  }

  /** The checks on an uploaded file, in the order the handler makes them:
      the type, then the size. */
  function UploadError(f: Upload): (e: Option<string>)
    ensures e.None? <==> f.mimeType == PdfMimeType && |f.bytes| <= MaxPdfSize
    ensures f.mimeType != PdfMimeType ==> e == Some(NotPdfMessage)
    ensures f.mimeType == PdfMimeType && |f.bytes| > MaxPdfSize ==> e == Some(TooLargeMessage)
  {
    if f.mimeType != PdfMimeType then Some(NotPdfMessage)
    else if |f.bytes| > MaxPdfSize then Some(TooLargeMessage)
    else None
  }

  /** A form the handler passes on to the model: a valid PDF, or no file
      and some non-blank text. */
  predicate Admissible(form: Form) {
    if form.file.Some? then UploadError(form.file.value).None? else PastedText(form.text) != ""
  }

  /** What the model is asked: the PDF with the pdf prompt when a file was
      sent, otherwise the text prompt followed by a blank line and the
      trimmed text. */
  function RequestFor(form: Form): ModelRequest {
    if form.file.Some? then PdfPrompt(form.file.value.bytes, BuildPrompt(Pdf, TitleOf(form.title)))
    else TextPrompt(BuildPrompt(Text, TitleOf(form.title)) + "\n\n" + PastedText(form.text))
  }

  /** The whole handler. `body` is `None` when `req.formData()` throws. */
  function Post(apiKey: Option<string>, body: Option<Form>,
                model: ModelRequest -> ModelReply,
                parse: string -> Result<Json, string>): (o: Outcome)
    ensures o.response.status in {200, 400, 500, 502}
    ensures !KeyPresent(apiKey) ==> o.response == Fail(500, MissingKeyMessage) && o.calls == []
    ensures KeyPresent(apiKey) && body.None? ==> o.response == Fail(400, BadBodyMessage) && o.calls == []
    ensures o.calls != [] <==> KeyPresent(apiKey) && body.Some? && Admissible(body.value)
    ensures o.calls != [] ==> o.calls == [AskModel(RequestFor(body.value))]
    ensures o.calls != [] ==>
      o.response == Conclude(model(RequestFor(body.value)), parse, GeneratePrefix, UnknownModelError)
    ensures o.response.status == 400 <==> KeyPresent(apiKey) && (body.None? || !Admissible(body.value))
    ensures o.response.status == 200 ==> o.calls != [] && o.response.body.DataBody?
  {
    if !KeyPresent(apiKey) then Outcome(Fail(500, MissingKeyMessage), [])
    else if body.None? then Outcome(Fail(400, BadBodyMessage), [])
    else
      var form := body.value;
      if form.file.None? && PastedText(form.text) == "" then Outcome(Fail(400, NoContentMessage), [])
      else if form.file.Some? && UploadError(form.file.value).Some? then
        Outcome(Fail(400, UploadError(form.file.value).value), [])
      else
        var request := RequestFor(form);
        Outcome(Conclude(model(request), parse, GeneratePrefix, UnknownModelError), [AskModel(request)])
  }

  // ---------------------------------------------------------------------
  // Properties

  /** Without a file and with blank or missing text the answer is 400 with
      the no-content message, and the model is not asked. */
  lemma NoContentRejected(apiKey: Option<string>, text: Option<string>, title: Option<string>,
                          model: ModelRequest -> ModelReply, parse: string -> Result<Json, string>)
    requires KeyPresent(apiKey)
    requires text.Some? ==> forall i :: 0 <= i < |text.value| ==> IsSpace(text.value[i])
    ensures Post(apiKey, Some(Form(None, text, title)), model, parse) == Outcome(Fail(400, NoContentMessage), [])
  {
  }

  /** A file that is not a PDF is refused for its type whatever its size,
      and the model is not asked. */
  lemma TypeCheckedFirst(apiKey: Option<string>, f: Upload, text: Option<string>, title: Option<string>,
                         model: ModelRequest -> ModelReply, parse: string -> Result<Json, string>)
    requires KeyPresent(apiKey) && f.mimeType != PdfMimeType
    ensures Post(apiKey, Some(Form(Some(f), text, title)), model, parse) == Outcome(Fail(400, NotPdfMessage), [])
  {
  }

  /** A PDF of exactly 20 MiB is accepted; one byte more is refused. */
  lemma SizeLimitInclusive(f: Upload)
    requires f.mimeType == PdfMimeType
    ensures |f.bytes| == MaxPdfSize ==> UploadError(f).None?
    ensures |f.bytes| == MaxPdfSize + 1 ==> UploadError(f) == Some(TooLargeMessage)
  {
  }

  /** Once the form is admitted the model is asked exactly once; the
      answer is 200 exactly when the model completed and its cleaned reply
      parsed, and 502 with the generation prefix otherwise. */
  lemma ModelStageOutcome(apiKey: Option<string>, form: Form,
                          model: ModelRequest -> ModelReply, parse: string -> Result<Json, string>)
    requires KeyPresent(apiKey) && Admissible(form)
    ensures var o := Post(apiKey, Some(form), model, parse);
      var reply := model(RequestFor(form));
      && o.calls == [AskModel(RequestFor(form))]
      && (o.response.status == 200 <==> reply.Completed? && parse(CleanReply(reply.text)).Ok?)
      && (o.response.status != 200 ==> o.response.status == 502 && StartsWith(o.response.body.error, GeneratePrefix))
      && (reply.Failed? ==> o.response.body.error == GeneratePrefix + MessageOr(reply.error, UnknownModelError))
  {
  }

  /** With a file present the pasted text plays no part: two forms that
      differ only in their text get the same outcome. */
  lemma FileBeatsText(apiKey: Option<string>, f: Upload, text1: Option<string>, text2: Option<string>,
                      title: Option<string>, model: ModelRequest -> ModelReply,
                      parse: string -> Result<Json, string>)
    ensures Post(apiKey, Some(Form(Some(f), text1, title)), model, parse)
         == Post(apiKey, Some(Form(Some(f), text2, title)), model, parse)
  {
  }

  /** The text branch asks with the titled text prompt, a blank line and
      the trimmed text; a blank title gives the untitled prompt. */
  lemma TextRequest(text: string, title: Option<string>)
    requires Trim(text) != ""
    ensures RequestFor(Form(None, Some(text), title))
         == TextPrompt(BuildPrompt(Text, TitleOf(title)) + "\n\n" + Trim(text))
    ensures title.Some? && Trim(title.value) == "" ==>
      RequestFor(Form(None, Some(text), title)) == RequestFor(Form(None, Some(text), None))
  {
  }
}
