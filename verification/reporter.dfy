/** `TrumpReporter.generate_report`: turn an analysis into a report whose
    `model` field is always the analysis score times ten, with a fixed
    fallback report when the agent's answer cannot be used. */
module Reporter {
  import opened Results
  import opened Text
  import opened Values
  import opened Fences

  const FailedTitle := "리포트 생성 실패"
  const FailedSentence := "리포트 생성 중 오류가 발생했습니다."
  /** The fallback forecast: one sentence, three times, separated by spaces. */
  const FailedForecast := FailedSentence + " " + FailedSentence + " " + FailedSentence
  const PostsPrefix := "트윗 분석 중 오류 발생: "

  /** `analysis_result.get('market_impact_score', 0.0) * 10`. */
  function ModelScore(analysis: Record): (r: Result<Value>)
    ensures "market_impact_score" !in analysis ==> r == Ok(Num(0.0))
    ensures r.Err? <==> "market_impact_score" in analysis && (analysis["market_impact_score"].Null? || analysis["market_impact_score"].Dict?)
  {
    Times10(Get(analysis, "market_impact_score", Num(0.0)))
  }

  /** The five report keys. */
  function ReportKeys(): set<string> { {"title", "forecast", "posts", "model", "stock"} }

  predicate IsFallback(d: Record) {
    && d.Keys == ReportKeys()
    && d["title"] == Str(FailedTitle)
    && d["forecast"] == Str(FailedForecast)
    && d["posts"].Str? && StartsWith(d["posts"].s, PostsPrefix)
    && d["stock"] == Str("")
  }

  /** The report of the `except` branch, for an exception with text `msg`. */
  function Fallback(score: Value, msg: string): (d: Record)
    ensures IsFallback(d) && d["model"] == score
    ensures d["posts"] == Str(PostsPrefix + msg)
  {
    map["title" := Str(FailedTitle),
        "forecast" := Str(FailedForecast),
        "posts" := Str(PostsPrefix + msg),
        "model" := score,
        "stock" := Str("")]
  }

  /** `report['model'] = ...` raises for anything but a dict; the text is
      the one CPython gives. */
  function AssignError(v: Value): string {
    if v.List? then "list indices must be integers or slices, not str"
    else "'" + TypeName(v) + "' object does not support item assignment"
  }

  /** `report.get('title')[:30]` succeeds only on a string or a list. */
  predicate TitleSliceable(report: Record) {
    "title" in report && (report["title"].Str? || report["title"].List?)
  }

  function TitleError(report: Record): string {
    var t := Get(report, "title", Null);
    if t.Dict? then "unhashable type: 'slice'" else "'" + TypeName(t) + "' object is not subscriptable"
  }

  /** `generate_report(analysis_result, tweet_content)`. `run` stands for
      formatting the prompt from the analysis, the tweet and the model
      score, and `Runner.run(...).final_output`; `parse` for `json.loads`.
      The `except` branch recomputes the score, so when the score itself
      raises, the exception escapes: that is the `Err` result. */
  function GenerateReport(run: (Record, string, Value) -> Result<string>, parse: string -> Result<Value>,
                          analysis: Record, tweet: string): (r: Result<Record>)
    ensures r.Err? <==> ModelScore(analysis).Err?
    ensures r.Ok? ==> "model" in r.value && r.value["model"] == ModelScore(analysis).value
    ensures r.Ok? ==> IsFallback(r.value) || TitleSliceable(r.value)
  {
    match ModelScore(analysis)
    case Err(m) => Err(m)
    case Ok(score) =>
      match run(analysis, tweet, score)
      case Err(m) => Ok(Fallback(score, m))
      case Ok(response) =>
        match parse(Payload(response))
        case Err(m) => Ok(Fallback(score, m))
        case Ok(v) =>
          if !v.Dict? then Ok(Fallback(score, AssignError(v)))
          else
            var report := v.entries["model" := score];
            if TitleSliceable(report) then Ok(report)
            else Ok(Fallback(score, TitleError(report)))
  }

  /** A missing score counts as zero, so the report's `model` is zero. */
  lemma MissingScoreGivesZero(run: (Record, string, Value) -> Result<string>, parse: string -> Result<Value>,
                              analysis: Record, tweet: string)
    requires "market_impact_score" !in analysis
    ensures GenerateReport(run, parse, analysis, tweet).Ok?
    ensures GenerateReport(run, parse, analysis, tweet).value["model"] == Num(0.0)
  {
  }

  /** A usable answer is returned as parsed with only `model` replaced:
      every other key keeps the agent's value, and no key is added but `model`. */
  lemma OnlyModelIsOverwritten(run: (Record, string, Value) -> Result<string>, parse: string -> Result<Value>,
                               analysis: Record, tweet: string, answer: Record)
    requires ModelScore(analysis).Ok? && run(analysis, tweet, ModelScore(analysis).value).Ok?
    requires parse(Payload(run(analysis, tweet, ModelScore(analysis).value).value)) == Ok(Dict(answer))
    requires "title" in answer && (answer["title"].Str? || answer["title"].List?)
    ensures var r := GenerateReport(run, parse, analysis, tweet);
            && r.Ok?
            && r.value.Keys == answer.Keys + {"model"}
            && (forall k :: k in answer && k != "model" ==> r.value[k] == answer[k])
            && r.value["model"] == ModelScore(analysis).value
  {
  }

  /** An answer without a title fails at the slice and yields the fallback. */
  lemma MissingTitleFallsBack(run: (Record, string, Value) -> Result<string>, parse: string -> Result<Value>,
                              analysis: Record, tweet: string, answer: Record)
    requires ModelScore(analysis).Ok? && run(analysis, tweet, ModelScore(analysis).value).Ok?
    requires parse(Payload(run(analysis, tweet, ModelScore(analysis).value).value)) == Ok(Dict(answer))
    requires "title" !in answer
    ensures GenerateReport(run, parse, analysis, tweet)
            == Ok(Fallback(ModelScore(analysis).value, "'" + "NoneType" + "' object is not subscriptable"))
  {
    var report := answer["model" := ModelScore(analysis).value];
    assert Get(report, "title", Null) == Null;
  }
}
