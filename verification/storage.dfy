/** `Storage`: the two Excel backups (raw posts and analysis results), the
    URL set read back from the raw backup, and the Supabase row mapping.
    A workbook is modelled by its rows; reading, writing and the Supabase
    client are left to the caller. */
module Storage {
  import opened Results
  import opened Text
  import opened Values
  import Scraper

  /** A backup file: absent, present but unreadable, or its rows. */
  datatype Workbook<R> = Missing | Unreadable | Sheet(rows: seq<R>)

  function KeysOf<R, K>(rows: seq<R>, key: R -> K): set<K> {
    set i | 0 <= i < |rows| :: key(rows[i])
  }

  predicate UniqueKeys<R, K(==)>(rows: seq<R>, key: R -> K) {
    forall i, j :: 0 <= i < j < |rows| ==> key(rows[i]) != key(rows[j])
  }

  /** `a` is `b` with some elements left out, the rest in their order. */
  predicate Subseq<R(==)>(a: seq<R>, b: seq<R>)
    decreases |b|
  {
    if a == [] then true
    else if b == [] then false
    else (a[0] == b[0] && Subseq(a[1..], b[1..])) || Subseq(a, b[1..])
  }

  /** The first row with key `k`, if any. */
  function FirstWith<R, K(==)>(rows: seq<R>, key: R -> K, k: K): (r: Option<R>)
    ensures r.Some? <==> k in KeysOf(rows, key)
    ensures r.Some? ==> key(r.value) == k
    decreases |rows|
  {
    if rows == [] then None
    else if key(rows[0]) == k then Some(rows[0])
    else
      KeysOfHead(rows, key);
      FirstWith(rows[1..], key, k)
  }

  /** `drop_duplicates(keep='first')` with the keys in `seen` already taken. */
  function KeepFirst<R(==), K(==)>(rows: seq<R>, key: R -> K, seen: set<K>): (r: seq<R>)
    ensures UniqueKeys(r, key)
    ensures forall i :: 0 <= i < |r| ==> key(r[i]) !in seen
    ensures KeysOf(r, key) == KeysOf(rows, key) - seen
    ensures forall i :: 0 <= i < |r| ==> FirstWith(rows, key, key(r[i])) == Some(r[i])
    ensures Subseq(r, rows)
    decreases |rows|
  {
    if rows == [] then []
    else
      var x := rows[0];
      KeysOfHead(rows, key);
      if key(x) in seen then
        KeepFirst(rows[1..], key, seen)
      else
        var rest := KeepFirst(rows[1..], key, seen + {key(x)});
        var r := [x] + rest;
        KeysOfHead(r, key);
        assert r[1..] == rest;
        assert forall i :: 1 <= i < |r| ==> r[i] == rest[i - 1];
        assert forall i :: 1 <= i < |r| ==> key(r[i]) != key(x);
        r
  }

  /** The keys of a non-empty sequence: the head's and the tail's. */
  lemma KeysOfHead<R, K>(rows: seq<R>, key: R -> K)
    requires rows != []
    ensures KeysOf(rows, key) == {key(rows[0])} + KeysOf(rows[1..], key)
  {
    assert forall i :: 1 <= i < |rows| ==> rows[i] == rows[1..][i - 1];
    forall k | k in KeysOf(rows[1..], key) ensures k in KeysOf(rows, key) {
      var i :| 0 <= i < |rows[1..]| && key(rows[1..][i]) == k;
      assert key(rows[i + 1]) == k;
    }
  }

  /** `drop_duplicates(subset=[key], keep='first')`: one row per key, the
      first one, in the original order. */
  function DropDuplicates<R(==), K(==)>(rows: seq<R>, key: R -> K): (r: seq<R>)
    ensures UniqueKeys(r, key)
    ensures KeysOf(r, key) == KeysOf(rows, key)
    ensures forall i :: 0 <= i < |r| ==> FirstWith(rows, key, key(r[i])) == Some(r[i])
    ensures Subseq(r, rows)
  {
    KeepFirst(rows, key, {})
  }

  /** De-duplicating a concatenation: the first part de-duplicated, then
      what survives of the second part once the first part's keys are taken. */
  lemma {:induction false} KeepFirstAppend<R, K>(a: seq<R>, b: seq<R>, key: R -> K, seen: set<K>)
    ensures KeepFirst(a + b, key, seen) == KeepFirst(a, key, seen) + KeepFirst(b, key, seen + KeysOf(a, key))
    decreases |a|
  {
    if a == [] {
      assert a + b == b;
      assert KeysOf(a, key) == {};
      assert seen + KeysOf(a, key) == seen;
    } else {
      var x := a[0];
      assert (a + b)[0] == x && (a + b)[1..] == a[1..] + b;
      KeysOfHead(a, key);
      if key(x) in seen {
        KeepFirstAppend(a[1..], b, key, seen);
        assert seen + KeysOf(a[1..], key) == seen + KeysOf(a, key);
      } else {
        KeepFirstAppend(a[1..], b, key, seen + {key(x)});
        assert seen + {key(x)} + KeysOf(a[1..], key) == seen + KeysOf(a, key);
      }
    }
  }

  lemma {:induction false} FirstWithAppend<R, K>(a: seq<R>, b: seq<R>, key: R -> K, k: K)
    ensures FirstWith(a + b, key, k) == if k in KeysOf(a, key) then FirstWith(a, key, k) else FirstWith(b, key, k)
    decreases |a|
  {
    if a == [] {
      assert a + b == b;
    } else {
      assert (a + b)[0] == a[0] && (a + b)[1..] == a[1..] + b;
      KeysOfHead(a, key);
      if key(a[0]) != k {
        FirstWithAppend(a[1..], b, key, k);
      }
    }
  }

  /** The backup merge of `_save_to_excel` and `save_raw_posts`. An empty
      batch writes nothing; a missing file gets the batch as it is; an
      unreadable one is left alone (the read raises and the error is
      printed); otherwise the batch goes before the existing rows and the
      first row per key is kept. */
  function Merge<R(==), K(==)>(book: Workbook<R>, batch: seq<R>, key: R -> K): (r: Workbook<R>)
    ensures batch == [] ==> r == book
    ensures book.Unreadable? ==> r == book
    ensures batch != [] && book.Missing? ==> r == Sheet(batch)
    ensures batch != [] && book.Sheet? ==>
              (r.Sheet? && UniqueKeys(r.rows, key) && KeysOf(r.rows, key) == KeysOf(batch, key) + KeysOf(book.rows, key))
  {
    if batch == [] then book
    else match book
      case Missing => Sheet(batch)
      case Unreadable => Unreadable
      case Sheet(rows) =>
        assert KeysOf(batch + rows, key) == KeysOf(batch, key) + KeysOf(rows, key) by {
          assert forall i :: 0 <= i < |batch| ==> (batch + rows)[i] == batch[i];
          assert forall i :: 0 <= i < |rows| ==> (batch + rows)[|batch| + i] == rows[i];
        }
        Sheet(DropDuplicates(batch + rows, key))
  }

  /** New rows win: the merged sheet holds, for each key of the batch, the
      batch's first row with that key, and for any other key the first
      existing row; the de-duplicated batch comes first, then the surviving
      existing rows, each in their original order. */
  lemma NewRowsWin<R, K>(rows: seq<R>, batch: seq<R>, key: R -> K)
    requires batch != []
    ensures var merged := Merge(Sheet(rows), batch, key).rows;
            && merged == DropDuplicates(batch, key) + KeepFirst(rows, key, KeysOf(batch, key))
            && (forall i :: 0 <= i < |merged| && key(merged[i]) in KeysOf(batch, key) ==>
                  FirstWith(batch, key, key(merged[i])) == Some(merged[i]))
            && (forall i :: 0 <= i < |merged| && key(merged[i]) !in KeysOf(batch, key) ==>
                  FirstWith(rows, key, key(merged[i])) == Some(merged[i]))
  {
    var merged := Merge(Sheet(rows), batch, key).rows;
    KeepFirstAppend(batch, rows, key, {});
    assert {} + KeysOf(batch, key) == KeysOf(batch, key);
    forall i | 0 <= i < |merged|
      ensures key(merged[i]) in KeysOf(batch, key) ==> FirstWith(batch, key, key(merged[i])) == Some(merged[i])
      ensures key(merged[i]) !in KeysOf(batch, key) ==> FirstWith(rows, key, key(merged[i])) == Some(merged[i])
    {
      FirstWithAppend(batch, rows, key, key(merged[i]));
    }
  }

  /** The cell a row holds under `column`; an absent cell reads as `NaN`. */
  function Cell(row: Record, column: string): Value {
    Get(row, column, NaN)
  }

  /** `get_existing_urls`: the `url` column as strings. A missing file, an
      unreadable one, or a sheet without a `url` column gives the empty set
      (the bare `except` swallows the `KeyError`). */
  function ExistingUrls(book: Workbook<Record>, show: Value -> string): (urls: set<string>)
    ensures !book.Sheet? ==> urls == {}
    ensures book.Sheet? ==> forall i :: 0 <= i < |book.rows| && "url" in book.rows[i] && book.rows[i]["url"].Str? ==>
              book.rows[i]["url"].s in urls
  {
    match book
    case Sheet(rows) =>
      if forall i :: 0 <= i < |rows| ==> "url" !in rows[i] then {}
      else set i | 0 <= i < |rows| :: PyStr(Cell(rows[i], "url"), show)
    case _ => {}
  }

  /** A raw post as the row `pd.DataFrame(posts)` gives it. */
  function PostRecord(p: Scraper.Post): Record {
    map["time" := Str(p.time), "kst_time" := Str(p.kstTime), "content" := Str(p.content), "url" := Str(p.url)]
  }

  function PostRecords(posts: seq<Scraper.Post>): (rs: seq<Record>)
    ensures |rs| == |posts|
    ensures forall i :: 0 <= i < |posts| ==> rs[i] == PostRecord(posts[i])
  {
    seq(|posts|, i requires 0 <= i < |posts| => PostRecord(posts[i]))
  }

  function UrlKey(row: Record): Value { Cell(row, "url") }

  /** `save_raw_posts(posts)`: nothing is written for an empty batch or an
      unreadable file; a missing file gets the batch; otherwise the new posts
      and the old rows are merged with one row per URL. */
  function SaveRawPosts(book: Workbook<Record>, posts: seq<Scraper.Post>): (r: Workbook<Record>)
    ensures posts == [] || book.Unreadable? ==> r == book
    ensures posts != [] && book.Missing? ==> r == Sheet(PostRecords(posts))
    ensures posts != [] && book.Sheet? ==>
              && r.Sheet? && UniqueKeys(r.rows, UrlKey)
              && KeysOf(r.rows, UrlKey) == KeysOf(PostRecords(posts), UrlKey) + KeysOf(book.rows, UrlKey)
  {
    Merge(book, PostRecords(posts), UrlKey)
  }

  /** After a batch of posts is saved to a writable backup, every one of
      their URLs is among the URLs read back from it. */
  lemma SavedUrlsAreKnown(book: Workbook<Record>, posts: seq<Scraper.Post>, show: Value -> string)
    requires !book.Unreadable?
    ensures forall i :: 0 <= i < |posts| ==> posts[i].url in ExistingUrls(SaveRawPosts(book, posts), show)
  {
    var batch := PostRecords(posts);
    var saved := SaveRawPosts(book, posts);
    if posts != [] {
      forall i | 0 <= i < |posts|
        ensures posts[i].url in ExistingUrls(saved, show)
      {
        assert UrlKey(batch[i]) == Str(posts[i].url);
        assert Str(posts[i].url) in KeysOf(batch, UrlKey);
        var rows := saved.rows;
        var j :| 0 <= j < |rows| && UrlKey(rows[j]) == Str(posts[i].url);
        assert "url" in rows[j];
        assert PyStr(Cell(rows[j], "url"), show) == posts[i].url;
      }
    }
  }

  /** One row of the results list built by `process_new_posts`. */
  datatype ResultRow = ResultRow(
    time: string,
    postedTime: string,
    tweetContent: string,
    tweetUrl: string,
    impactOnMarket: Value,
    sentimentScore: Value,
    marketImpactScore: Value,
    keywords: string,
    sector: string,
    reason: Value)

  /** The result row as a dict with the keys `process_new_posts` uses. */
  function ResultRecord(row: ResultRow): Record {
    map["time" := Str(row.time),
        "posted_time" := Str(row.postedTime),
        "tweet_content" := Str(row.tweetContent),
        "tweet_url" := Str(row.tweetUrl),
        "impact_on_market" := row.impactOnMarket,
        "sentiment_score" := row.sentimentScore,
        "market_impact_score" := row.marketImpactScore,
        "keywords" := Str(row.keywords),
        "sector" := Str(row.sector),
        "reason" := row.reason]
  }

  function ResultRecords(rows: seq<ResultRow>): (rs: seq<Record>)
    ensures |rs| == |rows|
    ensures forall i :: 0 <= i < |rows| ==> rs[i] == ResultRecord(rows[i])
  {
    seq(|rows|, i requires 0 <= i < |rows| => ResultRecord(rows[i]))
  }

  /** The columns of the Supabase `posts` table. */
  function PostsColumns(): set<string> {
    {"time_str", "time", "content", "url", "impact_on_market", "sentiment_score", "market_impact_score",
     "keywords", "sector", "reason"}
  }

  /** A row of the Supabase `posts` table. */
  function PostsRow(url: Value, content: Value, timeStr: Value, time: Value, impactOnMarket: Value,
                    sentiment: Value, impact: Value, keywords: Value, sector: Value, reason: Value): (d: Record)
    ensures d.Keys == PostsColumns()
    ensures d["url"] == url && d["content"] == content && d["time_str"] == timeStr && d["time"] == time
    ensures d["impact_on_market"] == impactOnMarket && d["sentiment_score"] == sentiment
    ensures d["market_impact_score"] == impact && d["keywords"] == keywords && d["sector"] == sector
    ensures d["reason"] == reason
  {
    map["url" := url,
        "content" := content,
        "time_str" := timeStr,
        "time" := time,
        "impact_on_market" := impactOnMarket,
        "sentiment_score" := sentiment,
        "market_impact_score" := impact,
        "keywords" := keywords,
        "sector" := sector,
        "reason" := reason]
  }

  /** The Supabase `posts` row built from a result dict with `.get`: every
      column of the table is filled, a missing key giving `None`, and the
      upsert key `url` is the result's `tweet_url`. */
  function SupabaseRow(item: Record): (r: Record)
    ensures r.Keys == PostsColumns()
    ensures r["url"] == Get(item, "tweet_url", Null)
    ensures r["content"] == Get(item, "tweet_content", Null) && r["time_str"] == Get(item, "posted_time", Null)
    ensures r["time"] == Get(item, "time", Null) && r["impact_on_market"] == Get(item, "impact_on_market", Null)
    ensures r["sentiment_score"] == Get(item, "sentiment_score", Null)
    ensures r["market_impact_score"] == Get(item, "market_impact_score", Null)
    ensures r["keywords"] == Get(item, "keywords", Null) && r["sector"] == Get(item, "sector", Null)
    ensures r["reason"] == Get(item, "reason", Null)
  {
    PostsRow(Get(item, "tweet_url", Null), Get(item, "tweet_content", Null), Get(item, "posted_time", Null),
             Get(item, "time", Null), Get(item, "impact_on_market", Null), Get(item, "sentiment_score", Null),
             Get(item, "market_impact_score", Null), Get(item, "keywords", Null), Get(item, "sector", Null),
             Get(item, "reason", Null))
  }

  /** Reads a result row back out of a Supabase row: the inverse of the mapping. */
  function ResultOfSupabase(d: Record): Option<ResultRow> {
    var names := ["url", "content", "time_str", "time", "keywords", "sector"];
    if forall n :: n in names ==> n in d && d[n].Str? then
      if "impact_on_market" in d && "sentiment_score" in d && "market_impact_score" in d && "reason" in d then
        Some(ResultRow(d["time"].s, d["time_str"].s, d["content"].s, d["url"].s,
                       d["impact_on_market"], d["sentiment_score"], d["market_impact_score"],
                       d["keywords"].s, d["sector"].s, d["reason"]))
      else None
    else None
  }

  /** The Supabase mapping loses nothing: `tweet_url`, `tweet_content` and
      `posted_time` land in `url`, `content` and `time_str`, the rest under
      their own names, and the row can be read back whole. */
  lemma SupabaseRowRoundTrip(row: ResultRow)
    ensures var d := SupabaseRow(ResultRecord(row));
            && d["url"] == Str(row.tweetUrl)
            && d["content"] == Str(row.tweetContent)
            && d["time_str"] == Str(row.postedTime)
            && d["time"] == Str(row.time)
            && ResultOfSupabase(d) == Some(row)
  {
  }

  function TweetUrlKey(row: Record): Value { Cell(row, "tweet_url") }

  /** What `save_results` does: the rows upserted to Supabase, if any, and
      the results backup afterwards. */
  datatype Saved = Saved(upserted: Option<seq<Record>>, results: Workbook<Record>)

  /** `save_results(new_posts, analysis_results)`: the upsert happens only
      with a client and a non-empty list; the Excel mirror is always attempted. */
  function SaveResults(hasClient: bool, book: Workbook<Record>, results: seq<ResultRow>): (s: Saved)
    ensures s.upserted.Some? <==> hasClient && results != []
    ensures s.upserted.Some? ==>
              (|s.upserted.value| == |results|
               && forall i :: 0 <= i < |results| ==> s.upserted.value[i] == SupabaseRow(ResultRecord(results[i])))
    ensures s.results == Merge(book, ResultRecords(results), TweetUrlKey)
  {
    var records := ResultRecords(results);
    var upserted := if hasClient && records != [] then
      Some(seq(|records|, i requires 0 <= i < |records| => SupabaseRow(records[i])))
    else None;
    Saved(upserted, Merge(book, records, TweetUrlKey))
  }
}
