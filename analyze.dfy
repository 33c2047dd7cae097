/**
 * The `/analyze` handler from the moment the model's reply text is in hand:
 * clean the text, try to parse it, fall back to `{ raw: cleanedText }`, and
 * answer with a fixed message beside the feedback.
 */
module Analyze {
  import opened Wrappers
  import opened Json
  import opened Whitespace
  import opened Subsequence
  import opened Fences

  const SuccessMessage := "Image analyzed successfully"

  /** `feedbackDetails`: the value JSON.parse returned, whatever kind of JSON
      value it is, or the fallback that carries the cleaned text. */
  datatype Feedback = Parsed(value: JsonValue) | Raw(text: string)

  /** The payload handed to `res.json`. */
  datatype Reply = Reply(message: string, feedbackDetails: Feedback)

  /** Handles the reply text `rawText`. `parse` stands for JSON.parse: it
      gives `Some(v)` where JSON.parse returns `v` and `None` where it throws.
      A parse failure is absorbed: every reply text yields a reply. */
  function HandleReply(rawText: string, parse: string -> Option<JsonValue>): (r: Reply)
    ensures r.message == SuccessMessage
    ensures r.feedbackDetails.Parsed? <==> parse(Clean(rawText)).Some?
    ensures match r.feedbackDetails
      case Parsed(v) => parse(Clean(rawText)) == Some(v)
      case Raw(t) => t == Clean(rawText) && parse(t) == None
  {
    var cleanedText := Clean(rawText);
    var feedback :=
      match parse(cleanedText)
      case Some(v) => Parsed(v)
      case None => Raw(cleanedText);
    Reply(SuccessMessage, feedback)
  }

  /** `feedbackDetails` as the value handed to `res.json`: the parsed value
      itself, or the fallback object `{ raw: cleanedText }`. */
  function FeedbackJson(f: Feedback): (v: JsonValue)
    ensures f.Parsed? ==> v == f.value
    ensures f.Raw? ==> v.Object? && |v.members| == 1 && Lookup(v.members, "raw") == Some(Str(f.text))
  {
    match f
    case Parsed(v) => v
    case Raw(t) => Object([("raw", Str(t))])
  }

  /** The value handed to `res.json`: an object with a `message` member and
      a `feedbackDetails` member and no other. */
  function ReplyJson(r: Reply): (body: JsonValue)
    ensures body.Object? && |body.members| == 2
    ensures Lookup(body.members, "message") == Some(Str(r.message))
    ensures Lookup(body.members, "feedbackDetails") == Some(FeedbackJson(r.feedbackDetails))
  {
    assert |"message"| != |"feedbackDetails"|;
    Object([("message", Str(r.message)), ("feedbackDetails", FeedbackJson(r.feedbackDetails))])
  }

  /** Whatever the model said, the body is an object whose `message` is the
      success message and whose `feedbackDetails` member is the parsed value
      when parsing succeeds and `{ raw: cleanedText }` when it fails. */
  lemma ReplyBodyShape(rawText: string, parse: string -> Option<JsonValue>)
    ensures var body := ReplyJson(HandleReply(rawText, parse));
      && body.Object? && |body.members| == 2
      && Lookup(body.members, "message") == Some(Str(SuccessMessage))
      && (forall v :: parse(Clean(rawText)) == Some(v) ==>
            Lookup(body.members, "feedbackDetails") == Some(v))
      && (parse(Clean(rawText)).None? ==>
            Lookup(body.members, "feedbackDetails") == Some(Object([("raw", Str(Clean(rawText)))])))
  {
  }

  /** The fallback text is the reply with deletions only, holds no "```" and
      has no white space at either end. */
  lemma FallbackTextIsCleaned(rawText: string, parse: string -> Option<JsonValue>)
    requires HandleReply(rawText, parse).feedbackDetails.Raw?
    ensures var t := HandleReply(rawText, parse).feedbackDetails.text;
      IsSubseq(t, rawText) && !HasFence(t) && IsTrimmed(t)
  {
    CleanResult(rawText);
  }

  /** Sending the fallback text through the handler again gives the same reply. */
  lemma FallbackIsStable(rawText: string, parse: string -> Option<JsonValue>)
    requires HandleReply(rawText, parse).feedbackDetails.Raw?
    ensures var t := HandleReply(rawText, parse).feedbackDetails.text;
      HandleReply(t, parse) == HandleReply(rawText, parse)
  {
    CleanIdempotent(rawText);
  }

  /** Text that is already clean JSON goes to JSON.parse unchanged. */
  lemma CleanJsonPassesThrough(text: string, parse: string -> Option<JsonValue>, v: JsonValue)
    requires !HasFence(text) && IsTrimmed(text) && parse(text) == Some(v)
    ensures HandleReply(text, parse).feedbackDetails == Parsed(v)
  {
    CleanFixpoint(text);
  }

  /** A reply fenced as "```json" (any letter case) hands JSON.parse the
      trimmed body and nothing else. */
  lemma FencedReplyParsesBody(lead: string, tag: string, gap: string, body: string, trail: string,
                              parse: string -> Option<JsonValue>)
    requires AllWs(lead) && IsJsonTag(tag) && AllWs(gap) && NoTicks(body) && AllWs(trail)
    ensures var r := HandleReply(lead + "```" + tag + gap + body + "```" + trail, parse);
      r.feedbackDetails == match parse(Trim(body))
        case Some(v) => Parsed(v)
        case None => Raw(Trim(body))
  {
    CleanFencedReply(lead, tag, gap, body, trail);
  }

  /** Prose without backticks or surrounding white space that JSON.parse
      rejects comes back verbatim under `raw`. */
  lemma ProseReplyFallsBack(text: string, parse: string -> Option<JsonValue>)
    requires NoTicks(text) && IsTrimmed(text) && parse(text).None?
    ensures HandleReply(text, parse).feedbackDetails == Raw(text)
  {
    assert !HasFence(text) by {
      forall i ensures !IsTripleTick(text, i) {
        if 0 <= i < |text| {
          assert text[i] != '`';
        }
      }
    }
    CleanFixpoint(text);
  }

  /** The caller cannot tell the fallback from a model reply that is itself
      the object `{ "raw": t }`. */
  lemma FallbackIsAmbiguous(t: string)
    ensures FeedbackJson(Raw(t)) == FeedbackJson(Parsed(Object([("raw", Str(t))])))
  {
  }
}
