/** `GET /api/fetch-pmc?pmcid=…`: check the PMC identifier and the model
    key, fetch the article's full-text XML, extract its text, refuse texts
    that are too short, truncate very long ones, and ask the model for the
    analysis. */
module FetchPmc {
  import opened Common
  import opened JsText
  import opened Http
  import opened XmlText
  import opened Prompt
  import opened Reply

  const MinTextLength := 100
  const MaxTextLength := 100000
  const TruncationMarker := "\n\n[Text truncated]"

  const BadPmcidMessage := "Provide a valid PMCID (e.g. PMC1234567)."
  const FetchFailedMessage := "Failed to fetch paper from PMC."
  const ShortTextMessage := "Could not extract enough text from this paper. It may not be available as open-access full text."
  const AnalyzePrefix := "Failed to analyze paper: "
  const UnknownError := "Unknown error"

  /** `/^PMC\d+$/`: `PMC` followed by one or more ASCII digits and nothing else. */
  predicate IsValidPmcid(s: string) {
    |s| > 3 && s[..3] == "PMC" && AllDigits(s[3..])
  }

  /** `pmcid.replace("PMC", "")`: only the first `PMC` is removed. */
  function NumericId(pmcid: string): (id: string)
    ensures IsValidPmcid(pmcid) ==> id == pmcid[3..] && |id| > 0 && AllDigits(id)
  {
    ReplaceFirst(pmcid, "PMC", "")
  }

  /** `!pmcid || !/^PMC\d+$/.test(pmcid)` is false. */
  predicate PmcidAccepted(pmcid: Option<string>) {
    pmcid.Some? && IsValidPmcid(pmcid.value)
  }

  /** The text forwarded to the model: the first 100000 characters and a
      marker when the text is longer, the text itself otherwise. */
  function Truncate(text: string): (r: string)
    ensures |r| <= MaxTextLength + |TruncationMarker|
    ensures |text| <= MaxTextLength ==> r == text
    ensures |text| > MaxTextLength ==>
      |r| == MaxTextLength + |TruncationMarker| && r[..MaxTextLength] == text[..MaxTextLength] && EndsWith(r, TruncationMarker)
  {
    if |text| > MaxTextLength then
      var r := text[..MaxTextLength] + TruncationMarker;
      assert r[..MaxTextLength] == text[..MaxTextLength];
      assert r[|r| - |TruncationMarker|..] == TruncationMarker;
      r
    else text
  }

  /** `buildPrompt("text") + "\n\n"`: the untitled text prompt and a
      blank line, which the article text follows. */
  function PromptHead(): string {
    BuildPrompt(Text, None) + "\n\n"
  }

  /** The prompt sent for an extracted text, after the given head. */
  function PaperPrompt(head: string, text: string): (p: string)
    ensures StartsWith(p, head)
    ensures |p| <= |head| + MaxTextLength + |TruncationMarker|
    ensures |text| <= MaxTextLength ==> p == head + text
    ensures |text| > MaxTextLength ==> p == head + text[..MaxTextLength] + TruncationMarker
  {
    var p := head + Truncate(text);
    assert p[..|head|] == head;
    p
  }

  /** Everything after the checks: the fetch of the numeric id `id`, whose
      result is `fetched`, the length gate, and the model stage, whose
      prompt starts with `head`. */
  function Analyze(id: string, fetched: Fetched<string>, head: string,
                   model: ModelRequest -> ModelReply,
                   parse: string -> Result<Json, string>): (o: Outcome)
    ensures o.response.status in {200, 422, 502}
    ensures 1 <= |o.calls| <= 2 && o.calls[0] == FetchFullText(id)
    ensures o.response.status == 422 <==> fetched.Delivered? && |ExtractText(fetched.value)| < MinTextLength
    ensures |o.calls| == 2 <==> fetched.Delivered? && |ExtractText(fetched.value)| >= MinTextLength
    ensures |o.calls| == 2 ==>
      && o.calls[1] == AskModel(TextPrompt(PaperPrompt(head, ExtractText(fetched.value))))
      && o.response == Conclude(model(o.calls[1].request), parse, AnalyzePrefix, UnknownError)
    ensures o.response.status != 200 ==> o.response.body.ErrorBody?
  {
    var fetchedCall := [FetchFullText(id)];
    match fetched
    case Threw(e) => Outcome(Fail(502, AnalyzePrefix + MessageOr(e, UnknownError)), fetchedCall)
    case NotOk => Outcome(Fail(502, FetchFailedMessage), fetchedCall)
    case Delivered(xml) =>
      var text := ExtractText(xml);
      if |text| < MinTextLength then Outcome(Fail(422, ShortTextMessage), fetchedCall)
      else
        var request := TextPrompt(PaperPrompt(head, text));
        Outcome(Conclude(model(request), parse, AnalyzePrefix, UnknownError), fetchedCall + [AskModel(request)])
  }

  /** The whole handler. `fetchXml` answers the E-utilities `efetch`
      request for a numeric id; `model` answers a generation request;
      `parse` is `JSON.parse`, failing with its error message. */
  function Get(pmcid: Option<string>, apiKey: Option<string>,
               fetchXml: string -> Fetched<string>,
               model: ModelRequest -> ModelReply,
               parse: string -> Result<Json, string>): (o: Outcome)
    ensures o.response.status in {200, 400, 422, 500, 502}
    ensures !PmcidAccepted(pmcid) ==> o.response == Fail(400, BadPmcidMessage) && o.calls == []
    ensures PmcidAccepted(pmcid) && !KeyPresent(apiKey) ==> o.response == Fail(500, MissingKeyMessage) && o.calls == []
    ensures PmcidAccepted(pmcid) && KeyPresent(apiKey) ==>
      o == Analyze(pmcid.value[3..], fetchXml(pmcid.value[3..]), PromptHead(), model, parse)
    ensures o.response.status == 200 ==> PmcidAccepted(pmcid) && KeyPresent(apiKey) && |o.calls| == 2
  {
    if !PmcidAccepted(pmcid) then Outcome(Fail(400, BadPmcidMessage), [])
    else if !KeyPresent(apiKey) then Outcome(Fail(500, MissingKeyMessage), [])
    else
      var id := NumericId(pmcid.value);
      Analyze(id, fetchXml(id), PromptHead(), model, parse)
  }

  // ---------------------------------------------------------------------
  // Properties

  /** Every `PMC` + decimal number is accepted, and its numeric id is the
      number's digits. */
  lemma PmcidRoundTrip(n: nat)
    ensures IsValidPmcid("PMC" + NatToString(n))
    ensures NumericId("PMC" + NatToString(n)) == NatToString(n)
  {
    var s := "PMC" + NatToString(n);
    assert s[..3] == "PMC";
    assert s[3..] == NatToString(n);
  }

  /** An identifier is accepted exactly when putting `PMC` back in front
      of its numeric id gives it back and that id is a non-empty run of
      digits. */
  lemma PmcidShape(s: string)
    ensures IsValidPmcid(s) <==> (|NumericId(s)| > 0 && AllDigits(NumericId(s)) && s == "PMC" + NumericId(s))
  {
    if |NumericId(s)| > 0 && AllDigits(NumericId(s)) && s == "PMC" + NumericId(s) {
      assert s[..3] == "PMC";
      assert s[3..] == NumericId(s);
    }
    if IsValidPmcid(s) {
      assert s == s[..3] + s[3..];
    }
  }

  /** The head of every article prompt is the untitled text prompt
      followed by a blank line. */
  lemma PromptHeadShape()
    ensures StartsWith(PromptHead(), BuildPrompt(Text, None)) && EndsWith(PromptHead(), "\n\n")
    ensures |PromptHead()| == |BuildPrompt(Text, None)| + 2
  {
    var b := BuildPrompt(Text, None);
    assert (b + "\n\n")[..|b|] == b;
    assert (b + "\n\n")[|b|..] == "\n\n";
  }

  /** A document whose extracted text has exactly 100 characters is not
      refused: the gate is strictly below 100. */
  lemma HundredCharactersPass(id: string, xml: string, head: string,
                              model: ModelRequest -> ModelReply,
                              parse: string -> Result<Json, string>)
    requires |ExtractText(xml)| == MinTextLength
    ensures Analyze(id, Delivered(xml), head, model, parse).response.status != 422
    ensures |Analyze(id, Delivered(xml), head, model, parse).calls| == 2
  {
  }

  /** The status of the model stage: 200 exactly when the model answered
      and its cleaned answer parsed, 502 with the analysis prefix
      otherwise. */
  lemma ModelStageStatus(id: string, xml: string, head: string,
                         model: ModelRequest -> ModelReply,
                         parse: string -> Result<Json, string>)
    requires |ExtractText(xml)| >= MinTextLength
    ensures var o := Analyze(id, Delivered(xml), head, model, parse);
      var reply := model(TextPrompt(PaperPrompt(head, ExtractText(xml))));
      && (o.response.status == 200 <==> reply.Completed? && parse(CleanReply(reply.text)).Ok?)
      && (o.response.status != 200 ==> o.response.status == 502 && StartsWith(o.response.body.error, AnalyzePrefix))
  {
  }

  /** A failed fetch (not `ok`, or thrown) ends the request with 502
      before the model is asked. */
  lemma FetchFailureStops(id: string, fetched: Fetched<string>, head: string,
                          model: ModelRequest -> ModelReply,
                          parse: string -> Result<Json, string>)
    requires !fetched.Delivered?
    ensures var o := Analyze(id, fetched, head, model, parse);
      && o.response.status == 502
      && o.calls == [FetchFullText(id)]
      && (fetched.NotOk? ==> o.response.body.error == FetchFailedMessage)
      && (fetched.Threw? ==> o.response.body.error == AnalyzePrefix + MessageOr(fetched.error, UnknownError))
  {
  }
}
