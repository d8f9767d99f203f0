/** The handling of the language model's answer shared by the two analysis
    routes: strip one Markdown code fence the model may have added despite
    the instructions, trim, parse as JSON, and answer 200 with the parsed
    value or 502 with the error message. */
module Reply {
  import opened Common
  import opened JsText
  import opened Http

  const Fence := "```"

  /** `.replace(/^```(?:json)?\s*\/i, "")`: a fence at the very start,
      then `json` in any ASCII case if present, then any whitespace. */
  function StripLeadingFence(s: string): (r: string)
    ensures |r| <= |s|
    ensures !StartsWith(s, Fence) ==> r == s
    ensures StartsWith(s, Fence) ==> EndsWith(s, r) && (|r| > 0 ==> !IsSpace(r[0]))
  {
    if StartsWith(s, Fence) then
      var rest := s[|Fence|..];
      var afterTag := if MatchesAtIgnoreCase(rest, 0, "json") then rest[4..] else rest;
      var r := afterTag[LeadingSpaces(afterTag)..];
      assert s[|s| - |r|..] == r;
      r
    else s
  }

  /** `.replace(/\s*```$/i, "")`: when `s` ends with a fence, the leftmost
      match starts where the whitespace run before that fence starts. */
  function StripTrailingFence(s: string): (r: string)
    ensures |r| <= |s|
    ensures !EndsWith(s, Fence) ==> r == s
    ensures EndsWith(s, Fence) ==> StartsWith(s, r) && (|r| > 0 ==> !IsSpace(r[|r| - 1]))
  {
    if EndsWith(s, Fence) then
      var t := s[..|s| - |Fence|];
      var r := t[..|t| - TrailingSpaces(t)];
      assert s[..|r|] == r;
      r
    else s
  }

  /** The cleaned reply that is handed to `JSON.parse`. */
  function CleanReply(raw: string): (r: string)
    ensures |r| <= |raw|
    ensures NoEdgeSpace(r)
  {
    Trim(StripTrailingFence(StripLeadingFence(raw)))
  }

  /** A reply without a fence at either end is only trimmed. */
  lemma UnfencedIsTrimmed(raw: string)
    requires !StartsWith(raw, Fence) && !EndsWith(raw, Fence)
    ensures CleanReply(raw) == Trim(raw)
  {
  }

  /** The tag a fence may carry: none, or `json` in any ASCII case. */
  predicate FenceTag(tag: string) {
    tag == "" || (|tag| == 4 && MatchesAtIgnoreCase(tag, 0, "json"))
  }

  predicate AllSpace(s: string) {
    forall i :: 0 <= i < |s| ==> IsSpace(s[i])
  }

  /** The leading pattern on a fenced text: the fence and the tag go, and
      so does the whitespace run after them. */
  lemma StripLeadingOf(tag: string, x: string)
    requires FenceTag(tag)
    requires tag == "" ==> !MatchesAtIgnoreCase(x, 0, "json")
    ensures StripLeadingFence(Fence + tag + x) == x[LeadingSpaces(x)..]
  {
    var raw := Fence + tag + x;
    var rest := raw[|Fence|..];
    assert rest == tag + x;
    if tag == "" {
      assert rest == x;
    } else {
      assert MatchesAtIgnoreCase(rest, 0, "json") by {
        forall j | 0 <= j < 4 ensures SameLetterAt(rest, 0, "json", j) {
          assert SameLetterAt(tag, 0, "json", j);
          assert rest[j] == tag[j];
        }
      }
      assert rest[4..] == x;
    }
  }

  /** The trailing pattern on a text ending in a fence: the fence goes,
      and so does the whitespace run before it. */
  lemma StripTrailingOf(y: string)
    ensures StripTrailingFence(y + Fence) == y[..|y| - TrailingSpaces(y)]
  {
    assert (y + Fence)[..|y|] == y;
  }

  /** Whitespace followed by a non-space: the leading run is the whitespace. */
  lemma LeadingSpacesOf(a: string, b: string)
    requires AllSpace(a) && |b| > 0 && !IsSpace(b[0])
    ensures LeadingSpaces(a + b) == |a|
  {
    assert forall k :: 0 <= k < |a| ==> (a + b)[k] == a[k];
    assert (a + b)[|a|] == b[0];
  }

  /** A non-space followed by whitespace: the trailing run is the whitespace. */
  lemma TrailingSpacesOf(a: string, b: string)
    requires AllSpace(b) && |a| > 0 && !IsSpace(a[|a| - 1])
    ensures TrailingSpaces(a + b) == |b|
  {
    assert forall k :: |a| <= k < |a + b| ==> (a + b)[k] == b[k - |a|];
    assert (a + b)[|a| - 1] == a[|a| - 1];
  }

  lemma Assoc(a: string, b: string, c: string)
    ensures a + b + c == a + (b + c)
  {
  }

  /** Wrapping a trimmed payload in a fence, with any tag and any
      whitespace around the payload, is undone exactly. Without a tag the
      text after the fence must not begin with `json`, which the pattern
      would take for the tag. */
  lemma FencedRoundTrip(tag: string, before: string, s: string, after: string)
    requires FenceTag(tag) && AllSpace(before) && AllSpace(after) && NoEdgeSpace(s)
    requires tag == "" ==> !MatchesAtIgnoreCase(before + s + after + Fence, 0, "json")
    ensures CleanReply(Fence + tag + (before + s + after + Fence)) == s
  {
    var x := before + s + after + Fence;
    var raw := Fence + tag + x;
    assert StripLeadingFence(raw) == x[LeadingSpaces(x)..] by {
      StripLeadingOf(tag, x);
    }
    if s == "" {
      assert StripLeadingFence(raw) == Fence by {
        var ws := before + after;
        assert before + s == before;
        assert AllSpace(ws) by {
          forall i | 0 <= i < |ws| ensures IsSpace(ws[i]) {
            if i < |before| {
              assert ws[i] == before[i];
            } else {
              assert ws[i] == after[i - |before|];
            }
          }
        }
        LeadingSpacesOf(ws, Fence);
        assert x[|ws|..] == Fence;
      }
      assert StripTrailingFence(Fence) == "" by {
        StripTrailingOf("");
      }
    } else {
      var y := s + after;
      assert StripLeadingFence(raw) == y + Fence by {
        Assoc(before, s, after);
        Assoc(before, y, Fence);
        LeadingSpacesOf(before, y + Fence);
        assert x[|before|..] == y + Fence;
      }
      assert StripTrailingFence(y + Fence) == s by {
        StripTrailingOf(y);
        TrailingSpacesOf(s, after);
        assert y[..|s|] == s;
      }
    }
  }

  /** The common case: `"```json\n" + s + "\n```"` cleans to `s`. */
  lemma JsonFenceRoundTrip(s: string)
    requires NoEdgeSpace(s)
    ensures CleanReply(Fence + "json" + ("\n" + s + "\n" + Fence)) == s
  {
    FencedRoundTrip("json", "\n", s, "\n");
  }

  /** The end of both analysis routes: a model failure or a cleaned reply
      that does not parse gives 502 with `prefix` and the error message;
      a reply that parses is returned as it is with 200. */
  function Conclude(reply: ModelReply, parse: string -> Result<Json, string>, prefix: string, fallback: string): (r: Response)
    ensures r.status == 200 <==> reply.Completed? && parse(CleanReply(reply.text)).Ok?
    ensures r.status == 200 ==> r.body == DataBody(parse(CleanReply(reply.text)).value)
    ensures r.status != 200 ==> r.status == 502 && r.body.ErrorBody? && StartsWith(r.body.error, prefix)
    ensures reply.Failed? ==> r.body == ErrorBody(prefix + MessageOr(reply.error, fallback))
    ensures reply.Completed? && parse(CleanReply(reply.text)).Err? ==>
      r.body == ErrorBody(prefix + parse(CleanReply(reply.text)).error)
  {
    match reply
    case Failed(e) => Fail(502, prefix + MessageOr(e, fallback))
    case Completed(text) =>
      match parse(CleanReply(text))
      case Ok(data) => Response(200, DataBody(data))
      case Err(msg) => Fail(502, prefix + msg)
  }
}
