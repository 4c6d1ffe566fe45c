/** `main.py`: one polling cycle. Read the known URLs from the raw backup,
    scan the feed, and when something new turns up, save it, notify, build
    one result row per post from the analysis and save the results. */
module Pipeline {
  import opened Results
  import opened Text
  import opened Values
  import Scraper
  import Analyzer
  import Storage

  /** `collect_new_posts(driver, existing_urls, max_count=10)`. */
  const MaxCount := 10

  /** The foreign parts of a cycle: the time conversion, the analysis agent,
      `json.loads`, `str()` of numbers and containers, and whether a
      Supabase client could be created. */
  datatype Env = Env(
    convert: string -> Option<string>,
    run: string -> Result<string>,
    parse: string -> Result<Value>,
    show: Value -> string,
    hasClient: bool)

  /** The `keywords` / `sector` cell: a list is joined with ", " (and
      raises on a non-string item); anything else goes through `str`, with
      a missing key giving "". */
  function ListField(analysis: Record, key: string, show: Value -> string): (r: Result<string>)
    ensures key !in analysis ==> r == Ok("")
    ensures key in analysis && analysis[key].Str? ==> r == Ok(analysis[key].s)
    ensures key in analysis && analysis[key].List? && AllStr(analysis[key].items) ==>
              r == Ok(Join(", ", Texts(analysis[key].items)))
    ensures r.Err? <==> key in analysis && analysis[key].List? && !AllStr(analysis[key].items)
  {
    var v := Get(analysis, key, Null);
    if v.List? then JoinItems(", ", v.items)
    else Ok(PyStr(Get(analysis, key, Str("")), show))
  }

  /** The `result_data` dict of one post. */
  function ResultRowOf(post: Scraper.Post, analysis: Record, show: Value -> string): (r: Result<Storage.ResultRow>)
    ensures r.Ok? <==> ListField(analysis, "keywords", show).Ok? && ListField(analysis, "sector", show).Ok?
    ensures r.Ok? ==> var row := r.value;
              && row.time == post.time && row.postedTime == post.kstTime
              && row.tweetContent == post.content && row.tweetUrl == post.url
              && row.impactOnMarket == Get(analysis, "impact_on_market", Str("Unknown"))
              && row.sentimentScore == Get(analysis, "sentiment_score", Num(0.0))
              && row.marketImpactScore == Get(analysis, "market_impact_score", Num(0.0))
              && row.reason == Get(analysis, "reason", Str(""))
              && row.keywords == ListField(analysis, "keywords", show).value
              && row.sector == ListField(analysis, "sector", show).value
  {
    var keywords :- ListField(analysis, "keywords", show);
    var sector :- ListField(analysis, "sector", show);
    Ok(Storage.ResultRow(
      post.time, post.kstTime, post.content, post.url,
      Get(analysis, "impact_on_market", Str("Unknown")),
      Get(analysis, "sentiment_score", Num(0.0)),
      Get(analysis, "market_impact_score", Num(0.0)),
      keywords, sector,
      Get(analysis, "reason", Str(""))))
  }

  function AnalysisOf(env: Env, post: Scraper.Post): Record {
    Analyzer.Analyze(env.run, env.parse, post.content)
  }

  /** The loop of `process_new_posts`: the raw content of each post is
      analysed and turned into a row, in order. A `TypeError` from a join
      ends the loop and escapes; it is the first post's that fails. */
  function ProcessNewPosts(env: Env, posts: seq<Scraper.Post>): (r: Result<seq<Storage.ResultRow>>)
    ensures r.Ok? <==> forall i :: 0 <= i < |posts| ==> ResultRowOf(posts[i], AnalysisOf(env, posts[i]), env.show).Ok?
    ensures r.Ok? ==>
              (|r.value| == |posts|
               && forall i :: 0 <= i < |posts| ==> r.value[i] == ResultRowOf(posts[i], AnalysisOf(env, posts[i]), env.show).value)
    ensures r.Err? ==>
              exists i :: 0 <= i < |posts| && ResultRowOf(posts[i], AnalysisOf(env, posts[i]), env.show) == Err(r.msg)
                && forall j :: 0 <= j < i ==> ResultRowOf(posts[j], AnalysisOf(env, posts[j]), env.show).Ok?
  {
    Traverse(posts, (p: Scraper.Post) => ResultRowOf(p, AnalysisOf(env, p), env.show))
  }

  /** What one cycle did: the posts it collected, both backups afterwards,
      the rows sent to Supabase, the count it notified, and the exception
      that escaped, if any. */
  datatype Cycle = Cycle(
    posts: seq<Scraper.Post>,
    raw: Storage.Workbook<Record>,
    results: Storage.Workbook<Record>,
    upserted: Option<seq<Record>>,
    notified: Option<nat>,
    failure: Option<string>)

  /** `main_async()` over the given feed snapshots. */
  function MainCycle(env: Env, raw: Storage.Workbook<Record>, results: Storage.Workbook<Record>,
                     pages: seq<Scraper.Page>): (c: Cycle)
    ensures c.posts == Scraper.Collect(Storage.ExistingUrls(raw, env.show), MaxCount, env.convert, pages)
    ensures |c.posts| <= MaxCount
    ensures c.posts == [] ==>
              c.raw == raw && c.results == results && c.upserted.None? && c.notified.None? && c.failure.None?
    ensures c.posts != [] ==> c.raw == Storage.SaveRawPosts(raw, c.posts) && c.notified == Some(|c.posts|)
    ensures c.posts != [] && ProcessNewPosts(env, c.posts).Err? ==>
              c.results == results && c.upserted.None? && c.failure == Some(ProcessNewPosts(env, c.posts).msg)
    ensures c.posts != [] && ProcessNewPosts(env, c.posts).Ok? ==>
              var saved := Storage.SaveResults(env.hasClient, results, ProcessNewPosts(env, c.posts).value);
              c.results == saved.results && c.upserted == saved.upserted && c.failure.None?
    ensures c.upserted.Some? ==> |c.upserted.value| == |c.posts|
  {
    var existing := Storage.ExistingUrls(raw, env.show);
    var posts := Scraper.Collect(existing, MaxCount, env.convert, pages);
    if posts == [] then Cycle([], raw, results, None, None, None)
    else
      var raw' := Storage.SaveRawPosts(raw, posts);
      match ProcessNewPosts(env, posts)
      case Err(m) => Cycle(posts, raw', results, None, Some(|posts|), Some(m))
      case Ok(rows) =>
        var saved := Storage.SaveResults(env.hasClient, results, rows);
        Cycle(posts, raw', saved.results, saved.upserted, Some(|posts|), None)
  }

  /** Saving raw posts never loses a URL that was already known. */
  lemma ExistingUrlsGrow(book: Storage.Workbook<Record>, posts: seq<Scraper.Post>, show: Value -> string)
    requires !book.Unreadable?
    ensures Storage.ExistingUrls(book, show) <= Storage.ExistingUrls(Storage.SaveRawPosts(book, posts), show)
  {
    if posts != [] && book.Sheet? {
      var batch := Storage.PostRecords(posts);
      var merged := Storage.SaveRawPosts(book, posts).rows;
      assert Storage.UrlKey(batch[0]) in Storage.KeysOf(batch, Storage.UrlKey);
      var j :| 0 <= j < |merged| && Storage.UrlKey(merged[j]) == Storage.UrlKey(batch[0]);
      assert "url" in merged[j];
      UrlsCovered(book.rows, merged, show, j);
    }
  }

  /** A sheet with a `url` column whose URL keys include those of another
      sheet reads back at least the other sheet's URLs. */
  lemma UrlsCovered(rows: seq<Record>, merged: seq<Record>, show: Value -> string, j: nat)
    requires Storage.KeysOf(rows, Storage.UrlKey) <= Storage.KeysOf(merged, Storage.UrlKey)
    requires j < |merged| && "url" in merged[j]
    ensures Storage.ExistingUrls(Storage.Sheet(rows), show) <= Storage.ExistingUrls(Storage.Sheet(merged), show)
  {
    forall u | u in Storage.ExistingUrls(Storage.Sheet(rows), show)
      ensures u in Storage.ExistingUrls(Storage.Sheet(merged), show)
    {
      var i :| 0 <= i < |rows| && PyStr(Storage.Cell(rows[i], "url"), show) == u;
      assert Storage.UrlKey(rows[i]) in Storage.KeysOf(rows, Storage.UrlKey);
      var k :| 0 <= k < |merged| && Storage.UrlKey(merged[k]) == Storage.UrlKey(rows[i]);
      assert PyStr(Storage.Cell(merged[k], "url"), show) == u;
    }
  }

  /** The point of the raw backup: when it can be read, a second cycle over
      an unchanged feed finds nothing new, so nothing is analysed twice. */
  lemma SecondCycleFindsNothing(env: Env, raw: Storage.Workbook<Record>, results: Storage.Workbook<Record>,
                                pages: seq<Scraper.Page>)
    requires !raw.Unreadable?
    ensures var c := MainCycle(env, raw, results, pages);
            MainCycle(env, c.raw, c.results, pages).posts == []
  {
    var c := MainCycle(env, raw, results, pages);
    if c.posts != [] {
      var existing := Storage.ExistingUrls(raw, env.show);
      var known := Storage.ExistingUrls(c.raw, env.show);
      assert c.posts == Scraper.Collect(existing, MaxCount, env.convert, pages);
      ExistingUrlsGrow(raw, c.posts, env.show);
      Storage.SavedUrlsAreKnown(raw, c.posts, env.show);
      Scraper.RecollectFindsNothing(existing, known, MaxCount, env.convert, pages);
    }
  }

  /** A cycle whose processing raises has already backed its posts up
      before analysing them. Its rows reach neither workbook nor Supabase,
      every one of its URLs is now known, and so the next cycle over the same
      feed collects none of them again: the posts are lost. */
  lemma FailedCycleLosesPosts(env: Env, raw: Storage.Workbook<Record>, results: Storage.Workbook<Record>,
                              pages: seq<Scraper.Page>)
    requires !raw.Unreadable?
    requires MainCycle(env, raw, results, pages).failure.Some?
    ensures var c := MainCycle(env, raw, results, pages);
            && c.posts != [] && c.results == results && c.upserted.None?
            && (forall i :: 0 <= i < |c.posts| ==> c.posts[i].url in Storage.ExistingUrls(c.raw, env.show))
            && MainCycle(env, c.raw, c.results, pages).posts == []
  {
    var c := MainCycle(env, raw, results, pages);
    Storage.SavedUrlsAreKnown(raw, c.posts, env.show);
    SecondCycleFindsNothing(env, raw, results, pages);
  }
}
