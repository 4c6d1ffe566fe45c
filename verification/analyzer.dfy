/** `TrumpAnalyzer.analyze_tweet`: ask the agent, strip the fences, parse,
    and fall back to a fixed error record when anything raises. */
module Analyzer {
  import opened Results
  import opened Text
  import opened Values
  import opened Fences

  const ErrorPrefix := "분석 오류: "

  /** The six keys the agent is told to answer with. */
  function AnalysisKeys(): set<string> {
    {"impact_on_market", "sentiment_score", "market_impact_score", "keywords", "sector", "reason"}
  }

  /** The shape of the error record. */
  predicate IsErrorRecord(d: Record) {
    && d.Keys == AnalysisKeys()
    && d["impact_on_market"] == Str("Error")
    && d["sentiment_score"] == Num(0.0)
    && d["market_impact_score"] == Num(0.0)
    && d["keywords"] == List([])
    && d["sector"] == List([])
    && d["reason"].Str? && StartsWith(d["reason"].s, ErrorPrefix)
  }

  /** The record returned from the `except` branch for an exception whose
      text is `msg`. */
  function ErrorRecord(msg: string): (d: Record)
    ensures IsErrorRecord(d)
    ensures d["reason"] == Str(ErrorPrefix + msg)
  {
    map["impact_on_market" := Str("Error"),
        "sentiment_score" := Num(0.0),
        "market_impact_score" := Num(0.0),
        "keywords" := List([]),
        "sector" := List([]),
        "reason" := Str(ErrorPrefix + msg)]
  }

  /** `analyze_tweet(tweet)`. `run` stands for `Runner.run(...).final_output`
      and `parse` for `json.loads`; both may raise. A parsed value that is
      not a dict raises at the first `.get` and so also ends in the error
      record. The result is a record, never an exception. */
  function Analyze(run: string -> Result<string>, parse: string -> Result<Value>, tweet: string): (d: Record)
    ensures IsErrorRecord(d) || (run(tweet).Ok? && parse(Payload(run(tweet).value)) == Ok(Dict(d)))
  {
    match run(tweet)
    case Err(m) => ErrorRecord(m)
    case Ok(response) =>
      match parse(Payload(response))
      case Err(m) => ErrorRecord(m)
      case Ok(v) =>
        if v.Dict? then v.entries
        else ErrorRecord("'" + TypeName(v) + "' object has no attribute 'get'")
  }

  /** Every way the call can fail ends in the error record, carrying the
      exception's text after the prefix. */
  lemma FailureGivesErrorRecord(run: string -> Result<string>, parse: string -> Result<Value>, tweet: string)
    ensures run(tweet).Err? ==> Analyze(run, parse, tweet) == ErrorRecord(run(tweet).msg)
    ensures run(tweet).Ok? && parse(Payload(run(tweet).value)).Err? ==>
              Analyze(run, parse, tweet) == ErrorRecord(parse(Payload(run(tweet).value)).msg)
    ensures run(tweet).Ok? && parse(Payload(run(tweet).value)).Ok? && !parse(Payload(run(tweet).value)).value.Dict? ==>
              IsErrorRecord(Analyze(run, parse, tweet))
  {
  }

  /** An answer wrapped in a "```json" fence is parsed from its stripped
      body, and a dict it parses to is returned as it is. */
  lemma FencedAnswerIsParsed(run: string -> Result<string>, parse: string -> Result<Value>, tweet: string,
                             pre: string, body: string, post: string, answer: Record)
    requires run(tweet) == Ok(pre + JsonFence + body + Fence + post)
    requires !Contains(pre, JsonFence) && (post == [] || post[0] != '`')
    requires !Contains(body, Fence) && (body == [] || body[|body| - 1] != '`')
    requires parse(Strip(body)) == Ok(Dict(answer))
    ensures Analyze(run, parse, tweet) == answer
  {
    JsonFenceRoundTrip(pre, body, post);
    ParsedDictIsReturned(run, parse, tweet, Strip(body), answer);
  }

  /** A response whose payload parses to a dict yields that dict. */
  lemma ParsedDictIsReturned(run: string -> Result<string>, parse: string -> Result<Value>, tweet: string,
                             payload: string, answer: Record)
    requires run(tweet).Ok? && Payload(run(tweet).value) == payload
    requires parse(payload) == Ok(Dict(answer))
    ensures Analyze(run, parse, tweet) == answer
  {
  }
}
