# Trump post monitor: a Dafny model of its decision logic

The system polls Donald Trump's Truth Social feed once a minute. Each cycle:

- It scans the rendered feed for posts it has not stored yet.
- It backs the new posts up to an Excel workbook and sends a desktop notification.
- It asks an LLM agent to rate each post's market impact.
- It writes one result row per post to Supabase and to a second workbook.

A separate migration script uploads an older merged workbook to the same Supabase table in batches. A tweet normaliser and a report generator sit next to the live path.

This project models the parts of that glue that make decisions. Every operation is a pure function over immutable values.

| Dafny module | models | file |
|---|---|---|
| `Results` | `Option`, `Result`, and `Traverse` (a loop that stops at the first exception) | `results.dfy` |
| `Text` | character classes, `str.lower`, `str.strip`, `in`, `split(...)[0]`/`[1]`, `join` | `text.dfy` |
| `Values` | the dynamically typed values of JSON and pandas cells; `str()`, `", ".join`, `* 10` | `values.dfy` |
| `Preprocessor` | `preprocess_tweet` and `is_valid_tweet` | `preprocessor.dfy` |
| `Scraper` | `collect_new_posts` as a fold over abstract page snapshots; href prefixing; post text; the `N/A` time | `scraper.dfy` |
| `Fences` | the code-fence stripping shared by the analyzer and the reporter | `fences.dfy` |
| `Analyzer` | `analyze_tweet` and its error record | `analyzer.dfy` |
| `Reporter` | `generate_report`: the `model` overwrite and the fallback report | `reporter.dfy` |
| `Storage` | the new-first keep-first merge of both backups, `get_existing_urls`, the Supabase row mapping, `save_results` | `storage.dfy` |
| `Pipeline` | `process_new_posts` and one `main_async` cycle | `pipeline.dfy` |
| `Migration` | the row mapping, URL filter and 100-row batches of `migrate_data.py` | `migration.dfy` |

## How the outside world is represented

- **The browser.** Each scroll pass parses one snapshot. A snapshot is a sequence of `Block`s. Each block records:
  - whether it has an indexed parent;
  - its `<time>` tag, with the enclosing link and the title;
  - the text of its status line;
  - its descendant nodes (`<br>`, text, other elements).

  A pass beyond the supplied snapshots sees an empty page.
- **Foreign calls are function parameters, and each may fail:**
  - `Runner.run(...).final_output`;
  - `json.loads`;
  - `ast.literal_eval`;
  - `float()` of a string;
  - the `strptime`/time-zone conversion of `kst_to_et`;
  - `str()` of numbers, lists and dicts.
- **Workbooks.** A workbook is `Missing`, `Unreadable` or a `Sheet` of rows.
- **Supabase.** Whether a client exists is a boolean. Whether a batch upload succeeds is a predicate.
- **Exceptions** are `Err` results wherever the source lets them escape. Where the source catches them, the model computes the value the `except` branch returns.

## Model

| member | source | states |
|---|---|---|
| Text.Lower | modules/preprocessor.py:16 | lowercasing keeps the length, maps every character through the ASCII lower-case map, and leaves no upper-case letter |
| Text.Strip | modules/scraper.py:186 | the stripped text is the contiguous middle of the input, starts and ends with non-whitespace, and everything cut off on either side is whitespace |
| Text.StripEmptyIff | modules/scraper.py:186-188 | stripping gives the empty string exactly when the input is all whitespace, which is when the `if not text` test skips a post |
| Text.StripNoop | modules/preprocessor.py:26 | a string that neither starts nor ends with whitespace is returned unchanged by strip |
| Text.FindFrom | modules/analyzer.py:32-34 | the search returns the first position at or after the start where the pattern occurs, and returns none only if it occurs nowhere there |
| Text.ContainsIff | modules/analyzer.py:32-34 | `pat in s` holds exactly when the pattern occurs at some position of `s` |
| Text.SplitHead | modules/analyzer.py:33 | `s.split(sep)[0]` is a prefix of `s` that does not contain the separator; it is all of `s` when there is no separator, and otherwise ends exactly where the first separator starts |
| Text.SplitSecond | modules/analyzer.py:33 | `s.split(sep)[1]`, defined when the separator occurs, holds no separator and is the text from the end of the first separator up to the start of the second one, or to the end of `s` when there is no second one |
| Values.PyStr | migrate_data.py:74-77 | `str()` returns a string unchanged, gives `nan` for an empty pandas cell and `None` for a missing value |
| Values.JoinItems | main.py:44-45 | `", ".join(list)` succeeds exactly when every item is a string |
| Values.JoinItemsOfStrings | migrate_data.py:58 | joining a list of string values gives the join of the strings themselves |
| Values.Times10 | modules/reporter.py:45 | `v * 10` raises exactly for `None` and dicts; it scales numbers, counts booleans as 0 or 1, and repeats strings and lists ten times |
| Preprocessor.Scrub | modules/preprocessor.py:19-21 | removing one pattern never makes the text longer |
| Preprocessor.ScrubIsSurvivors | modules/preprocessor.py:19-21 | the left-to-right removal keeps exactly the characters that no match deletes, where a match at `m` deletes its non-space run, in order; so it equals a per-position reference filter |
| Preprocessor.ScrubNoMatch | modules/preprocessor.py:19-21 | a text in which the pattern matches nowhere is returned unchanged |
| Preprocessor.ScrubSources | modules/preprocessor.py:19-21 | each output character is an input character at a position where no match starts, in the input's order; two output characters are neighbours in the input unless a removed non-space run lay between them, which ended at whitespace |
| Preprocessor.ScrubLeavesNoMatch | modules/preprocessor.py:19-21 | after `@\S+`, `\B#\S+` or `http\S+` has been removed, the text contains no match of it anywhere |
| Preprocessor.ScrubKeeps | modules/preprocessor.py:19-21 | any property that every input character has, every output character has too |
| Preprocessor.ScrubAllNoUpper | modules/preprocessor.py:16-21 | the three removals keep a lower-cased text lower-case |
| Preprocessor.Words | modules/preprocessor.py:24 | `re.findall(r'\w+', s)` yields non-empty tokens made only of word characters |
| Preprocessor.WordsSplit | modules/preprocessor.py:24 | a non-word character splits the token list: the tokens of `a + [c] + b` are the tokens of `a` followed by those of `b` |
| Preprocessor.WordsOfWordAlone | modules/preprocessor.py:24 | a non-empty run of word characters is exactly one token |
| Preprocessor.WordsKeep | modules/preprocessor.py:24 | tokens hold only characters of the text |
| Preprocessor.WordsOfJoin | modules/preprocessor.py:24 | tokenising words joined by single spaces gives back exactly those words |
| Preprocessor.JoinOfWords | modules/preprocessor.py:24 | a text of words separated by single spaces is the join of its own tokens, the converse of `WordsOfJoin` |
| Preprocessor.JoinWordsClean | modules/preprocessor.py:24 | joining word tokens with single spaces gives a text of word characters and single interior spaces |
| Preprocessor.Tokenise | modules/preprocessor.py:24 | `' '.join(re.findall(r'\w+', s))` is clean and has the same tokens as `s` |
| Preprocessor.DropSinglesKeeps | modules/preprocessor.py:25 | the single-letter pass only deletes characters or writes a space |
| Preprocessor.DropSinglesNoop | modules/preprocessor.py:25 | a text with no ASCII letter between two whitespace characters passes through unchanged |
| Preprocessor.DropSingles | modules/preprocessor.py:25 | the single-letter pass never makes the text longer |
| Preprocessor.RetweetFilterCases | modules/preprocessor.py:37-45 | `""`, `rt` and `rt great news` are rejected, while `rtx` and `art rt` are kept |
| Preprocessor.SingleLetterPassNotIdempotent | modules/preprocessor.py:25 | one non-overlapping pass turns `x a b c y` into `x b y`, and a second pass would turn that into `x y` |
| Preprocessor.Squash | modules/preprocessor.py:26 | `re.sub(r'\s+', ' ', s)` is empty only for an empty input, writes every whitespace as a single space, never leaves two spaces in a row, and starts with a space exactly when the input starts with whitespace |
| Preprocessor.SquashPerPosition | modules/preprocessor.py:26 | the collapse equals a per-position reference: a whitespace character right after another one disappears, any other whitespace becomes one space, and every other character stays |
| Preprocessor.SquashNonSpace | modules/preprocessor.py:26 | the non-whitespace characters are kept, all of them and in order |
| Preprocessor.SquashSingleSpaced | modules/preprocessor.py:26 | a text whose whitespace is already single spaces is returned unchanged |
| Preprocessor.Collapse | modules/preprocessor.py:26 | after squashing and stripping, no space is doubled, none stands at either end, and the non-whitespace characters are exactly those of the input, in order |
| Preprocessor.CollapseClean | modules/preprocessor.py:26 | a clean text comes through squashing and stripping unchanged |
| Preprocessor.CollapseKeeps | modules/preprocessor.py:26 | squashing and stripping keep only spaces and the non-whitespace characters of the input |
| Preprocessor.EscapeQuotes | modules/preprocessor.py:27 | a text without `"` is returned unchanged |
| Preprocessor.CleanUnescaped | modules/preprocessor.py:24-27 | the quote escape is a no-op on the cleaned text, because tokenising removed every `"` |
| Preprocessor.CleanupStages | modules/preprocessor.py:24-26 | tokenising, the single-letter pass and squashing give a clean text of word characters and single interior spaces, and keep it lower-case |
| Preprocessor.Normalise | modules/preprocessor.py:16-27 | the string part of the normaliser returns a clean, lower-case text |
| Preprocessor.NormaliseKeepsNormalText | modules/preprocessor.py:12-29 | a clean lower-case text with no letter standing alone and no `http` run is returned unchanged, by the normaliser and by `preprocess_tweet` |
| Preprocessor.Preprocess | modules/preprocessor.py:12-29 | a missing or NaN cell gives `""`; a string gives a text of lower-case word characters separated by single spaces, with none at either end; any other value raises the `AttributeError` of `.lower()` |
| Preprocessor.ValidIffFirstTokenNotRt | modules/preprocessor.py:37-45 | on a normalised text, `is_valid_tweet` holds exactly when there is a first token and it is not `rt` |
| Scraper.AbsoluteUrlIdempotent | modules/scraper.py:153-157 | prefixing the origin to a leading-slash href gives a URL that is not prefixed again |
| Scraper.AbsoluteUrl | modules/scraper.py:157 | an href starting with `/` gets the origin prefixed, any other href is kept, and the result never starts with `/` |
| Scraper.RelativeAndAbsoluteAgree | modules/scraper.py:157 | `/path` and `https://truthsocial.com/path` become the same URL |
| Scraper.BlockUrl | modules/scraper.py:146-160 | a block yields a URL exactly when it has an indexed parent, a `<time>` tag and an enclosing link, and the URL is that link made absolute |
| Scraper.Fragment | modules/scraper.py:178-184 | a `<br>` gives `"\n"`, any other element nothing, and a text node its stripped text unless it is all whitespace, in which case nothing |
| Scraper.FragmentsAppend | modules/scraper.py:177-184 | the parts of consecutive runs of nodes are the parts of the first run followed by those of the second, as the loop over `descendants` appends them |
| Scraper.PostText | modules/scraper.py:177-186 | the post text neither starts nor ends with whitespace |
| Scraper.PostTextKeepsText | modules/scraper.py:177-186 | the post text holds exactly the non-whitespace characters of the block's text nodes, in document order; `<br>` tags and stripping add or lose only whitespace |
| Scraper.PostTextEmptyIff | modules/scraper.py:177-188 | the post text is empty exactly when every text node of the block is whitespace, so exactly then the block is skipped |
| Scraper.PostTime | modules/scraper.py:190-191 | `time` is `N/A` when the title is missing or cannot be parsed, and the converted title otherwise |
| Scraper.KstToEt | modules/scraper.py:10-19 | the conversion gives `N/A` exactly when parsing fails (or the converter itself yields `N/A`), and otherwise the converted time |
| Scraper.StepKeepsLive | modules/scraper.py:145-205 | one block keeps the scan invariant; a returned list is sound: distinct URLs, none of them known or empty, non-empty texts, at most `max_count` posts |
| Scraper.Step | modules/scraper.py:146-205 | one block ends the scan exactly when its URL is new to this scan and either already stored or gives the post that reaches `max_count`; a stored URL ends it with the posts collected so far; otherwise a block with a URL marks it seen |
| Scraper.RetruthIsSkipped | modules/scraper.py:171-174 | a ReTruth block yields no post and leaves the collected list unchanged |
| Scraper.StepAppends | modules/scraper.py:162-205 | one block appends at most its own post, never shrinks `seen`, and a block without a URL or with a seen URL changes nothing |
| Scraper.Run | modules/scraper.py:145-205 | scanning a snapshot keeps the invariant, only extends the collected list, and each newly collected post is the candidate post of some block of the snapshot |
| Scraper.RunIsFreshPrefix | modules/scraper.py:145-205 | scanning a block list yields the collected posts followed by the longest allowed prefix of the reference list `Fresh` of new posts before the first stored URL |
| Scraper.RunConcat | modules/scraper.py:145 | scanning two block lists in a row is scanning their concatenation |
| Scraper.Passes | modules/scraper.py:139-211 | the remaining passes return a sound list that extends the collected one, each new post coming from a block of a pass still to come |
| Scraper.PassesAreOneFold | modules/scraper.py:139-211 | the pass loop is one fold over the concatenated snapshots of passes `k` to 449 |
| Scraper.OnlyFirstPassesMatter | modules/scraper.py:135-139 | snapshots after the 450th pass have no effect |
| Scraper.Collect | modules/scraper.py:127-213 | the scan returns exactly the first `max_count` (one when `max_count < 1`) posts of the reference list `Fresh` over the first 450 snapshots: new, distinct, non-empty posts up to the first stored URL; each is a candidate post of a block in one of those snapshots |
| Scraper.KnownUrlStops | modules/scraper.py:167-174 | the first unseen known URL ends the scan with exactly the posts collected before it, even on a ReTruth block |
| Scraper.RescanFindsNothing | modules/scraper.py:162-169 | rescanning the same blocks, once every post the first scan returned is known, stops at once with nothing |
| Scraper.RecollectFindsNothing | modules/scraper.py:127-213 | a second scan of the same snapshots, with the first scan's URLs known, returns nothing |
| Scraper.StopsAtFirstKnownPost | modules/scraper.py:167-169 | given the feed `/c` (new), `/b` (known), `/d` and known URLs `/a` and `/b`, the scan returns only the `/c` post |
| Fences.Payload | modules/analyzer.py:32-37 | a response without a fence reaches the JSON parser unchanged and untrimmed; an extracted payload never contains a fence |
| Fences.JsonFenceRoundTrip | modules/analyzer.py:32-33 | wrapping a body in "```json" ... "```" after any text without "```json", with no backtick right after the closing fence, and extracting it gives the stripped body back |
| Fences.PlainFenceRoundTrip | modules/analyzer.py:34-35 | wrapping a body in two plain fences after any text without a fence and not ending in a backtick, with no "```json" anywhere, and extracting it gives the stripped body back |
| Analyzer.ErrorRecord | modules/analyzer.py:40-49 | the error record has the six keys, `Error`, both scores 0.0, empty keyword and sector lists, and the reason prefixed `분석 오류: ` followed by the exception text |
| Analyzer.Analyze | modules/analyzer.py:25-49 | the analysis is either the error record or exactly the dict the parser read from the response's payload; it never raises |
| Analyzer.FailureGivesErrorRecord | modules/analyzer.py:25-49 | a failed agent call, a failed parse or a parsed non-dict each give the error record, with the exception's text where there is one |
| Analyzer.FencedAnswerIsParsed | modules/analyzer.py:27-39 | an answer wrapped in a "```json" fence after text without "```json", with no backtick right after the closing fence, is returned as the dict its stripped body parses to |
| Reporter.ModelScore | modules/reporter.py:45 | a missing `market_impact_score` counts as 0.0; computing the score raises exactly for `None` or a dict |
| Reporter.Fallback | modules/reporter.py:84-92 | the fallback report has the fixed title, the three-sentence forecast, an empty stock, the exception text in `posts` and the given score as `model` |
| Reporter.GenerateReport | modules/reporter.py:32-92 | the report fails exactly when the score cannot be computed; otherwise its `model` is the score, and it is the fallback or has a sliceable title |
| Reporter.MissingScoreGivesZero | modules/reporter.py:45 | without `market_impact_score` the report succeeds with `model` 0 |
| Reporter.OnlyModelIsOverwritten | modules/reporter.py:76-82 | a parsed report with a title keeps every key and value it had except `model`, which becomes the score |
| Reporter.MissingTitleFallsBack | modules/reporter.py:81-92 | a parsed report without a title raises at the slice and is replaced by the fallback with the `NoneType` message |
| Storage.FirstWith | modules/storage.py:64 | a row with the key is found exactly when the key occurs, and the row found has that key |
| Storage.KeepFirst | modules/storage.py:64 | keep-first deduplication yields unique keys, exactly the input's keys minus those already seen, each carried by the first input row with it, in input order |
| Storage.KeepFirstAppend | modules/storage.py:63-64 | deduplicating a concatenation deduplicates the first part, then the second minus the first part's keys |
| Storage.DropDuplicates | modules/storage.py:64 | `drop_duplicates(keep='first')` keeps exactly the input's keys, once each, each with the first input row carrying it, as a subsequence of the input |
| Storage.FirstWithAppend | modules/storage.py:63-64 | the first row with a key in a concatenation comes from the first part whenever that part has the key |
| Storage.Merge | modules/storage.py:85-93 | an empty batch or an unreadable file leaves the backup alone; a missing file becomes the batch; otherwise the merged rows have unique keys and hold every key of the batch and of the old rows |
| Storage.SaveRawPosts | modules/storage.py:83-99 | no posts or an unreadable file leave the backup alone, a missing file becomes the posts, and otherwise the backup has unique URLs, exactly those of the posts and of the old rows |
| Storage.NewRowsWin | modules/storage.py:89-93 | the merge is the deduplicated batch followed by the old rows whose keys are new; a key of the batch keeps the batch's first row, any other key the first old row |
| Storage.ExistingUrls | modules/storage.py:73-81 | a missing or unreadable file gives the empty set; every string URL of the sheet is in the set |
| Storage.SavedUrlsAreKnown | modules/storage.py:83-99 | after `save_raw_posts` on a readable or missing file, every saved post's URL is read back by `get_existing_urls` |
| Storage.SupabaseRowRoundTrip | modules/storage.py:35-46 | the Supabase row puts `tweet_url`, `tweet_content` and `posted_time` under `url`, `content` and `time_str`, and the result row can be read back from it whole |
| Storage.SupabaseRow | modules/storage.py:35-46 | the Supabase row has exactly the ten `posts` columns, each read from its result key with `.get` (`None` when absent) |
| Storage.SaveResults | modules/storage.py:18-27 | the upsert happens exactly when there is a client and a non-empty list, and then sends one mapped row per result; the Excel mirror is always merged |
| Pipeline.ListField | main.py:44-45 | a missing field gives `""`, a string is kept, a list of strings is joined with `", "`, and the join raises exactly for a list holding a non-string |
| Pipeline.ResultRowOf | main.py:36-47 | the row takes `time`, `kst_time`, `content` and `url` from the post, the analysis fields with their defaults `Unknown`, 0.0, 0.0 and `""`, `keywords` and `sector` as Pipeline.ListField renders them, and fails exactly when a join fails |
| Pipeline.ProcessNewPosts | main.py:26-51 | one row per post in input order, or the exception of the first post whose row fails, every earlier post's row succeeding |
| Pipeline.MainCycle | main.py:53-81 | a cycle collects exactly what the scan returns for the stored URLs with `max_count` 10; when nothing is new it changes nothing; otherwise it backs the posts up and notifies with their count, and then either fails with the exception of the first post whose row fails, leaving the results and Supabase untouched, or saves exactly the processed rows as `save_results` does |
| Pipeline.ExistingUrlsGrow | modules/storage.py:89-93 | saving raw posts never loses a URL the backup already knew |
| Pipeline.SecondCycleFindsNothing | main.py:58-69 | when the raw backup is readable, a second cycle over the same feed collects nothing, whether the first cycle's processing succeeded or failed |
| Pipeline.FailedCycleLosesPosts | main.py:63-75 | when processing raises, the cycle has already backed its posts up: the results and Supabase are untouched, every URL of those posts is now known, and the next cycle over the same feed collects none of them |
| Migration.CleanList | migrate_data.py:55-71 | a `[`-string that parses to strings becomes them joined with `", "`; a non-bracket value, a failed parse or a non-string item falls back to `str` |
| Migration.ToFloat | migrate_data.py:79-80 | `float()` keeps numbers, parses strings, and raises for `None`, lists and dicts |
| Migration.MapRow | migrate_data.py:53-93 | a row fails exactly when a score fails to convert, with the sentiment error first; otherwise it is skipped exactly when its URL is `""` or `nan`, and a mapped item has the ten columns, a URL that is neither `""` nor `nan`, the converted scores, `impact_on_market` from `act_on_market` first, keywords and sector through `clean_list`, and the other columns as text |
| Migration.MapRows | migrate_data.py:44-93 | the mapped list is no longer than the sheet, and each item is the mapping of some row and is uploadable |
| Migration.MapRowsAppend | migrate_data.py:92-93 | a failing or skipped row does not disturb the others: mapping a concatenation concatenates the mappings |
| Migration.MapRowsSingle | migrate_data.py:86-90 | one row contributes its item when it maps and nothing otherwise |
| Migration.UploadInBatches | migrate_data.py:100-109 | the batches are consecutive non-empty slices of at most 100 items that concatenate to the mapped list, and every batch is attempted whatever happened before |

## Left out

- **Selenium, page loading, scrolling, sleeps and BeautifulSoup lookups.** These are I/O. The scan reads abstract snapshots instead.
- **The commented-out older `collect_new_posts`.** It is dead code.
- **The actual KST-to-ET conversion.** It depends on time-zone tables, so it is a partial function parameter.
- **`Runner.run`, the agents' instructions, and the reporter's prompt formatting.** All of this is folded into the `run` parameter.
- **`json.loads`, `ast.literal_eval`, `float()` of a string, and `str()` of numbers, lists and dicts.** These are function parameters with no fixed meaning.
- **pandas reading and writing.** A workbook is its rows.
  - A failed `to_excel` write is not modelled; the merged rows are taken as written.
  - A workbook's columns are the keys of its row records.
- **The Supabase client and `create_client`, the plyer notification, the console output, and the outer `while True` loop with its sleeps.** These are I/O and process plumbing.
- **The migration script's exits when its configuration or input file is missing.** These are process exits before any logic runs.
- **Floating point.** `int` and `float` are one `Num` over the reals. `* 10` is exact.
- **Full Unicode `\w`, `lower()` and `isspace`.**
  - Word characters and lowercasing are ASCII-only.
  - Whitespace is not approximated: it is exactly the set of characters `str.isspace` accepts.
- **Exception texts.** Only the prefixes the source adds are exact. The CPython messages for a failed join, multiplication, `float()` or slice are approximations.
- **`config.py`, `basic.py`, `test_imports.py`, `check_schema.py` and the Korean preprocessing notebook script.** They are configuration, demos or environment probes.
- **`tweet_url` as `None`.** The model does not produce it, because every collected post has a URL.
- Storage.ExistingUrls: states only that every string URL of the sheet is in the set, not that the set holds nothing else.
- Values.Times10: for a string or a list it states the length of the tenfold repetition, not its contents.
- Values.PyStr: fixes `str()` only for strings, the empty cell and `None`. Other values go through the `show` parameter.
- Preprocessor.Scrub: its own contract is only a length bound, kept cheap because every later stage unfolds it. Preprocessor.ScrubIsSurvivors gives its exact output.
- Preprocessor.Words: its own contract states only the shape of the tokens. Preprocessor.WordsSplit and Preprocessor.WordsOfWordAlone fix the tokens of every string.
- Preprocessor.DropSingles: its own contract is only a length bound. Preprocessor.DropSinglesNoop, Preprocessor.DropSinglesKeeps and Preprocessor.SingleLetterPassNotIdempotent describe what it does.
- Preprocessor.Squash: its own contract states the shape of the output. Preprocessor.SquashPerPosition gives its exact output, and Preprocessor.SquashNonSpace says it keeps the other characters.
- Preprocessor.Preprocess: a list or dict cell is modelled as raising at `.lower()`. The source's `pd.isna` on a list returns an array instead of a boolean, so the real call raises at the `if` or, for a one-element list such as `[None]`, returns `""`. That case is not modelled.
- Scraper.Run: its own contract gives soundness and provenance only. Scraper.RunIsFreshPrefix gives its exact result.
- Scraper.Passes: its own contract gives soundness and provenance only. Scraper.PassesAreOneFold reduces it to one scan, and Scraper.Collect states the exact result.
- Scraper.IsRetruth: `"ReTruthed" in status_info.get_text(strip=True)` is modelled as a substring test on the status line's text. The BeautifulSoup text extraction is not modelled.

### Where the code and its documentation differ (the model follows the code)

- **The normaliser is not idempotent.** Its single-letter pass is one non-overlapping `re.sub`, so `x a b c y` becomes `x b y`, and a second pass would turn that into `x y`. Preprocessor.SingleLetterPassNotIdempotent shows this.
- **New rows win the backup merge.** It concatenates the new rows before the old ones and keeps the first row per key.
- **The analyser receives the raw post content.** `process_new_posts` does not call `preprocess_tweet`.
- **No ticker gate.** Nothing decides whether a report is generated, and `generate_report` is never called from the polling cycle.
- **More than ten new posts between two cycles are never all collected.** A cycle asks for at most ten posts (main.py:63). The next cycle stops at the first stored URL (modules/scraper.py:167-169), and the eleventh and older new posts lie behind the ten just stored. Pipeline.MainCycle ties the cycle to Scraper.Collect, whose `Fresh` reference list stops at that URL.
- **A cycle whose processing fails loses its posts.** `main_async` saves the raw posts (main.py:69) before `process_new_posts` runs (main.py:75). If a row's join raises, for example on a `keywords` list holding a non-string (main.py:44), none of the cycle's rows is saved. Their URLs are already in the raw backup, so later scans stop at them and never collect these posts again. The failed cycle is not simply repeated. Pipeline.FailedCycleLosesPosts states this.
- **An unreadable raw backup makes `get_existing_urls` return the empty set.** Every cycle then collects the newest posts again. That is why Pipeline.SecondCycleFindsNothing requires a readable backup.
- **`generate_report` raises after all.** If `market_impact_score` is `None` or a dict, the `except` branch recomputes the score and raises again, so the exception escapes. Reporter.GenerateReport returns an `Err` for exactly this case.
