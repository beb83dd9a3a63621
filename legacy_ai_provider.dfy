/** The earlier variant of the intent classifier (the `src` tree): the same
    keyword heuristic, but the external service is sent a one-line prompt
    and its whole reply body, when not blank, is passed on verbatim as the
    query, without being mapped to a canonical query. */
module LegacyAiProvider {
  import opened Wrappers
  import opened Text
  import AiProvider

  /** The fixed text in front of the question in the request payload. */
  const PromptPrefix: string := "Transforma esta pregunta en una consulta legible: "

  /** The `prompt` field of the payload: the question follows the fixed text
      verbatim. */
  function LegacyPrompt(question: string): (r: string)
    ensures StartsWith(r, PromptPrefix)
    ensures r[|PromptPrefix|..] == question
  {
    var r := PromptPrefix + question;
    assert r[..|PromptPrefix|] == PromptPrefix;
    r
  }

  /** The request the variant sends: the URL as configured (no key in it),
      the key as a bearer token, and the prompt. */
  datatype LegacyRequest = LegacyRequest(url: string, bearerToken: string, prompt: string)

  datatype LegacyOutcome = LegacyOutcome(request: Option<LegacyRequest>, query: string)

  /** `BuildSqlLikeQueryAsync` of the variant. `reply.text` is the body read
      as a string. */
  function BuildSqlLikeQuery(question: string, config: AiProvider.Configuration, reply: AiProvider.HttpReply)
    : (r: Result<LegacyOutcome, AiProvider.Fault>)
    ensures !AiProvider.IsConfigured(config) ==>
      r == Success(LegacyOutcome(None, AiProvider.BasicHeuristics(question)))
    ensures AiProvider.IsConfigured(config) ==> (r.Failure? <==> reply.Thrown?)
    ensures AiProvider.IsConfigured(config) && r.Success? ==>
      r.value.request == Some(LegacyRequest(config.apiUrl.value, config.apiKey.value, LegacyPrompt(question)))
    ensures r.Success? ==>
      (r.value.query ==
         if AiProvider.UsesClassifier(config, reply) then reply.text else AiProvider.BasicHeuristics(question))
  {
    if !AiProvider.IsConfigured(config) then
      Success(LegacyOutcome(None, AiProvider.BasicHeuristics(question)))
    else
      var request := LegacyRequest(config.apiUrl.value, config.apiKey.value, LegacyPrompt(question));
      match reply
      case Thrown => Failure(AiProvider.TransportFailure)
      case Replied(success, text) =>
        if !success || IsBlank(text) then Success(LegacyOutcome(Some(request), AiProvider.BasicHeuristics(question)))
        else Success(LegacyOutcome(Some(request), text))
  }

  /** Given the same outcome of the call, both variants fall back to the same
      heuristic; only what they make of a usable reply differs. The reply's
      text stands for different things, though: the text extracted from the
      JSON body for the later variant, the raw body for this one, so a body
      that is not blank can still fall back in the later variant. */
  lemma FallbackAgrees(question: string, config: AiProvider.Configuration, reply: AiProvider.HttpReply)
    requires !AiProvider.UsesClassifier(config, reply)
    ensures BuildSqlLikeQuery(question, config, reply).Success?
        == AiProvider.BuildSqlLikeQuery(question, config, reply).Success?
    ensures BuildSqlLikeQuery(question, config, reply).Success? ==>
      BuildSqlLikeQuery(question, config, reply).value.query
        == AiProvider.BuildSqlLikeQuery(question, config, reply).value.query
        == AiProvider.BasicHeuristics(question)
  {
  }

  /** "TODO" is not the canonical query of any intent. */
  lemma TodoIsNotCanonical(t: string)
    requires t == "TODO"
    ensures !AiProvider.IsCanonical(t)
  {
    forall i: AiProvider.Intent ensures AiProvider.Render(i) != t {
      assert StartsWith(AiProvider.Render(i), "contar ");
    }
  }

  /** Unlike the later variant, this one can hand the resolver a query that is
      not canonical: the reply "TODO" is passed on as it is. */
  lemma PassesRawReply(question: string, config: AiProvider.Configuration)
    requires AiProvider.IsConfigured(config)
    ensures var r := BuildSqlLikeQuery(question, config, AiProvider.Replied(true, "TODO"));
      r.Success? && r.value.query == "TODO" && !AiProvider.IsCanonical(r.value.query)
    ensures var r := AiProvider.BuildSqlLikeQuery(question, config, AiProvider.Replied(true, "TODO"));
      r.Success? && r.value.query == AiProvider.TotalQuery
  {
    PassesTodo(question, config);
    AiProvider.TagRoundTrip(AiProvider.AllEmployees);
  }

  lemma PassesTodo(question: string, config: AiProvider.Configuration)
    requires AiProvider.IsConfigured(config)
    ensures var r := BuildSqlLikeQuery(question, config, AiProvider.Replied(true, "TODO"));
      r.Success? && r.value.query == "TODO" && !AiProvider.IsCanonical(r.value.query)
  {
    var t := "TODO";
    assert !IsWhiteSpace(t[0]);
    TodoIsNotCanonical(t);
  }
}
