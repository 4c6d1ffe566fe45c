/** `migrate_data.py`: map each row of the merged workbook onto the
    Supabase `posts` schema, drop rows without a URL, and upload the rest
    in consecutive batches of 100. */
module Migration {
  import opened Results
  import opened Text
  import opened Values
  import Storage

  const BatchSize := 100

  /** The keywords / sector cleanup: a string that starts with `[` and
      parses (`ast.literal_eval`, here `literalEval`) to a list of strings
      becomes those strings joined with ", "; anything else, including a
      failed parse or a non-string item, goes through `str`. */
  function CleanList(raw: Value, literalEval: string -> Result<seq<Value>>, show: Value -> string): (r: string)
    ensures !(raw.Str? && StartsWith(raw.s, "[")) ==> r == PyStr(raw, show)
    ensures raw.Str? && StartsWith(raw.s, "[") && literalEval(raw.s).Ok? && AllStr(literalEval(raw.s).value) ==>
              r == Join(", ", Texts(literalEval(raw.s).value))
    ensures raw.Str? && (literalEval(raw.s).Err? || !AllStr(literalEval(raw.s).value)) ==> r == raw.s
  {
    if raw.Str? && StartsWith(raw.s, "[") then
      match literalEval(raw.s)
      case Err(_) => PyStr(raw, show)
      case Ok(items) =>
        match JoinItems(", ", items)
        case Ok(joined) => joined
        case Err(_) => PyStr(raw, show)
    else PyStr(raw, show)
  }

  /** `float(v)`; `parseFloat` stands for `float` on a string. */
  function ToFloat(v: Value, parseFloat: string -> Result<Value>): (r: Result<Value>)
    ensures v.Num? || v.NaN? ==> r == Ok(v)
    ensures v.Str? ==> r == parseFloat(v.s)
    ensures v.Null? || v.List? || v.Dict? ==> r.Err?
  {
    match v
    case Num(_) => Ok(v)
    case NaN => Ok(v)
    case Bool(b) => Ok(Num(if b then 1.0 else 0.0))
    case Str(s) => parseFloat(s)
    case _ => Err("float() argument must be a string or a real number, not '" + TypeName(v) + "'")
  }

  /** What the loop body does with one row. */
  datatype Outcome = Mapped(item: Record) | Skipped | Failed(msg: string)

  /** `str(row.get(column, ''))`. */
  function CellText(row: Record, column: string, show: Value -> string): string {
    PyStr(Get(row, column, Str("")), show)
  }

  /** An item the upload accepts: the ten columns, and a URL that is
      neither empty nor `nan`. */
  predicate Uploadable(item: Record) {
    item.Keys == Storage.PostsColumns() && item["url"].Str? && item["url"].s != "" && item["url"].s != "nan"
  }

  /** One iteration of the `for index, row in df.iterrows()` loop. */
  function MapRow(row: Record, literalEval: string -> Result<seq<Value>>, parseFloat: string -> Result<Value>,
                  show: Value -> string): (o: Outcome)
    ensures o.Mapped? ==> Uploadable(o.item)
    ensures o.Mapped? ==> o.item["url"] == Str(CellText(row, "url", show))
    ensures o.Mapped? ==>
              o.item["impact_on_market"] == Str(PyStr(Get(row, "act_on_market", Get(row, "impact_on_market", Str(""))), show))
    ensures o.Skipped? <==> (ToFloat(Get(row, "sentiment_score", Num(0.0)), parseFloat).Ok?
                             && ToFloat(Get(row, "market_impact_score", Num(0.0)), parseFloat).Ok?
                             && CellText(row, "url", show) in {"", "nan"})
    ensures var sentiment := ToFloat(Get(row, "sentiment_score", Num(0.0)), parseFloat);
            var impact := ToFloat(Get(row, "market_impact_score", Num(0.0)), parseFloat);
            && (o.Failed? <==> sentiment.Err? || impact.Err?)
            && (o.Failed? ==> o.msg == (if sentiment.Err? then sentiment.msg else impact.msg))
            && (o.Mapped? ==> o.item["sentiment_score"] == sentiment.value && o.item["market_impact_score"] == impact.value)
    ensures o.Mapped? ==>
              && o.item["keywords"] == Str(CleanList(Get(row, "keywords", Str("")), literalEval, show))
              && o.item["sector"] == Str(CleanList(Get(row, "sector", Str("")), literalEval, show))
              && o.item["time_str"] == Str(CellText(row, "time_str", show))
              && o.item["time"] == Str(CellText(row, "time", show))
              && o.item["content"] == Str(CellText(row, "content", show))
              && o.item["reason"] == Str(CellText(row, "reason", show))
  {
    var keywords := CleanList(Get(row, "keywords", Str("")), literalEval, show);
    var sector := CleanList(Get(row, "sector", Str("")), literalEval, show);
    match ToFloat(Get(row, "sentiment_score", Num(0.0)), parseFloat)
    case Err(m) => Failed(m)
    case Ok(sentiment) =>
      match ToFloat(Get(row, "market_impact_score", Num(0.0)), parseFloat)
      case Err(m) => Failed(m)
      case Ok(impact) =>
        var url := CellText(row, "url", show);
        if url == "" || url == "nan" then Skipped
        else Mapped(Storage.PostsRow(
          Str(url), Str(CellText(row, "content", show)), Str(CellText(row, "time_str", show)),
          Str(CellText(row, "time", show)),
          Str(PyStr(Get(row, "act_on_market", Get(row, "impact_on_market", Str(""))), show)),
          sentiment, impact, Str(keywords), Str(sector), Str(CellText(row, "reason", show))))
  }

  /** The items of the rows that `f` maps, in order; a skipped or failed
      row leaves nothing behind. */
  function MappedItems(rows: seq<Record>, f: Record -> Outcome): (items: seq<Record>)
    ensures |items| <= |rows|
    ensures forall i :: 0 <= i < |items| ==> exists j :: 0 <= j < |rows| && f(rows[j]) == Mapped(items[i])
    decreases |rows|
  {
    if rows == [] then []
    else
      var rest := MappedItems(rows[1..], f);
      assert forall j :: 1 <= j < |rows| ==> rows[j] == rows[1..][j - 1];
      if f(rows[0]).Mapped? then
        var items := [f(rows[0]).item] + rest;
        assert forall i :: 1 <= i < |items| ==> items[i] == rest[i - 1];
        items
      else rest
  }

  /** Mapping a concatenation is concatenating the mappings. */
  lemma {:induction false} MappedItemsAppend(a: seq<Record>, b: seq<Record>, f: Record -> Outcome)
    ensures MappedItems(a + b, f) == MappedItems(a, f) + MappedItems(b, f)
    decreases |a|
  {
    if a == [] {
      assert a + b == b;
    } else {
      assert (a + b)[0] == a[0] && (a + b)[1..] == a[1..] + b;
      MappedItemsAppend(a[1..], b, f);
    }
  }

  function RowMapper(literalEval: string -> Result<seq<Value>>, parseFloat: string -> Result<Value>,
                     show: Value -> string): Record -> Outcome
  {
    row => MapRow(row, literalEval, parseFloat, show)
  }

  /** `mapped_data`: the mapped rows, in order, each of them uploadable. */
  function MapRows(rows: seq<Record>, literalEval: string -> Result<seq<Value>>, parseFloat: string -> Result<Value>,
                   show: Value -> string): (items: seq<Record>)
    ensures |items| <= |rows|
    ensures forall i :: 0 <= i < |items| ==>
              exists j :: 0 <= j < |rows| && MapRow(rows[j], literalEval, parseFloat, show) == Mapped(items[i])
    ensures forall i :: 0 <= i < |items| ==> Uploadable(items[i])
  {
    var f := RowMapper(literalEval, parseFloat, show);
    var items := MappedItems(rows, f);
    MappedUploadable(rows, literalEval, parseFloat, show);
    items
  }

  lemma MappedUploadable(rows: seq<Record>, literalEval: string -> Result<seq<Value>>,
                         parseFloat: string -> Result<Value>, show: Value -> string)
    ensures var items := MappedItems(rows, RowMapper(literalEval, parseFloat, show));
            forall i :: 0 <= i < |items| ==> Uploadable(items[i])
  {
    var f := RowMapper(literalEval, parseFloat, show);
    var items := MappedItems(rows, f);
    forall i | 0 <= i < |items| ensures Uploadable(items[i]) {
      var j :| 0 <= j < |rows| && f(rows[j]) == Mapped(items[i]);
      assert MapRow(rows[j], literalEval, parseFloat, show) == Mapped(items[i]);
    }
  }

  /** A row that fails or is skipped does not disturb the others: mapping
      a concatenation is concatenating the mappings. */
  lemma MapRowsAppend(a: seq<Record>, b: seq<Record>, literalEval: string -> Result<seq<Value>>,
                      parseFloat: string -> Result<Value>, show: Value -> string)
    ensures MapRows(a + b, literalEval, parseFloat, show)
            == MapRows(a, literalEval, parseFloat, show) + MapRows(b, literalEval, parseFloat, show)
  {
    MappedItemsAppend(a, b, RowMapper(literalEval, parseFloat, show));
  }

  /** A single row contributes its item when it maps, and nothing otherwise. */
  lemma MapRowsSingle(row: Record, literalEval: string -> Result<seq<Value>>, parseFloat: string -> Result<Value>,
                      show: Value -> string)
    ensures var o := MapRow(row, literalEval, parseFloat, show);
            MapRows([row], literalEval, parseFloat, show) == if o.Mapped? then [o.item] else []
  {
    assert [row][1..] == [];
  }

  function Flatten<T>(bs: seq<seq<T>>): seq<T>
    decreases |bs|
  {
    if bs == [] then [] else Flatten(bs[..|bs| - 1]) + bs[|bs| - 1]
  }

  function Min(a: int, b: int): int { if a < b then a else b }

  /** The upload loop `for i in range(0, len(mapped_data), batch_size)`:
      each batch is the next slice of at most 100 rows, and every batch is
      attempted whatever happened to the ones before; `upsert` says whether
      the upload of a batch went through. */
  method UploadInBatches<T>(xs: seq<T>, upsert: seq<T> -> bool) returns (batches: seq<seq<T>>, stored: seq<bool>)
    ensures Flatten(batches) == xs
    ensures forall k :: 0 <= k < |batches| ==> k * BatchSize < |xs| && batches[k] == xs[k * BatchSize..Min(k * BatchSize + BatchSize, |xs|)]
    ensures forall k :: 0 <= k < |batches| ==> 0 < |batches[k]| <= BatchSize
    ensures |stored| == |batches|
    ensures forall k :: 0 <= k < |batches| ==> stored[k] == upsert(batches[k])
  {
    batches, stored := [], [];
    var i := 0;
    while i < |xs|
      invariant i == |batches| * BatchSize
      invariant i <= |xs| + BatchSize - 1
      invariant Flatten(batches) == xs[..Min(i, |xs|)]
      invariant forall k :: 0 <= k < |batches| ==> k * BatchSize < |xs| && batches[k] == xs[k * BatchSize..Min(k * BatchSize + BatchSize, |xs|)]
      invariant forall k :: 0 <= k < |batches| ==> 0 < |batches[k]| <= BatchSize
      invariant |stored| == |batches|
      invariant forall k :: 0 <= k < |batches| ==> stored[k] == upsert(batches[k])
      decreases |xs| - i
    {
      var batch := xs[i..Min(i + BatchSize, |xs|)];
      var ok := upsert(batch);
      assert Flatten(batches + [batch]) == Flatten(batches) + batch;
      assert xs[..Min(i, |xs|)] + batch == xs[..Min(i + BatchSize, |xs|)];
      batches := batches + [batch];
      stored := stored + [ok];
      i := i + BatchSize;
    }
    assert xs[..Min(i, |xs|)] == xs;
  }
}
