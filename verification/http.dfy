/** What the route handlers exchange with the outside world. A request is a
    record of the fields a handler reads. A response is a status and a JSON
    body. Every outgoing call (to the E-utilities service or to the language
    model) is answered by an oracle function given as a parameter and is
    recorded, so that a proof can say which calls a request caused. */
module Http {
  import opened Common

  /** A JSON value as `JSON.parse` returns it; the routes never look inside. */
  datatype Json =
    | JNull
    | JBool(b: bool)
    | JNumber(n: int)
    | JString(s: string)
    | JArray(items: seq<Json>)
    | JObject(members: seq<(string, Json)>)

  /** A value a `catch` clause receives: an `Error` object with its
      `message`, or anything else that was thrown. */
  datatype Thrown = ErrorObject(message: string) | OtherValue

  /** `err instanceof Error ? err.message : fallback`. */
  function MessageOr(err: Thrown, fallback: string): (m: string)
    ensures err.ErrorObject? ==> m == err.message
    ensures err.OtherValue? ==> m == fallback
  {
    match err
    case ErrorObject(msg) => msg
    case OtherValue => fallback
  }

  /** The result of `fetch(url)` followed by reading its body: the request
      rejected or the body could not be read (`Threw`), the response was
      not `ok`, or the body arrived. */
  datatype Fetched<T> = Threw(error: Thrown) | NotOk | Delivered(value: T)

  /** One entry of the PMC search result list. */
  datatype Paper = Paper(pmcid: string, title: string, authors: string, journal: string, date: string)

  datatype Body =
    | ErrorBody(error: string)
    | DataBody(data: Json)
    | PapersBody(papers: seq<Paper>)

  /** `NextResponse.json(body, { status })`; the default status is 200. */
  datatype Response = Response(status: int, body: Body)

  /** `NextResponse.json({ error: message }, { status })`. */
  function Fail(status: int, message: string): Response {
    Response(status, ErrorBody(message))
  }

  /** `process.env.GEMINI_API_KEY` is set and not empty (`!apiKey` is false). */
  predicate KeyPresent(apiKey: Option<string>) {
    apiKey.Some? && apiKey.value != ""
  }

  /** The answer both analysis routes give when the key is missing. */
  const MissingKeyMessage := "Server misconfiguration: missing GEMINI_API_KEY"

  /** What is sent to the language model: a text prompt, or a PDF (its
      bytes, sent base64-encoded as `application/pdf`) with a prompt. */
  datatype ModelRequest = TextPrompt(prompt: string) | PdfPrompt(pdf: seq<bv8>, prompt: string)

  /** The model's answer: the text of its response, or the error thrown
      while generating or reading it. */
  datatype ModelReply = Completed(text: string) | Failed(error: Thrown)

  /** An outgoing call, in the order a handler makes them. */
  datatype Call =
    | FetchFullText(id: string)
    | AskModel(request: ModelRequest)
    | SearchIds(term: string)
    | FetchSummaries(ids: seq<string>)

  /** A handler's response together with the calls it made on the way. */
  datatype Outcome = Outcome(response: Response, calls: seq<Call>)

  predicate IsModelCall(c: Call) {
    c.AskModel?
  }

  /** No call in the trace went to the language model. */
  predicate NoModelCall(calls: seq<Call>) {
    forall i :: 0 <= i < |calls| ==> !IsModelCall(calls[i])
  }
}
