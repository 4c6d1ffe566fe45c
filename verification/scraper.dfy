/** The feed scan `collect_new_posts`. The browser is abstracted away: each
    scroll pass sees one rendered snapshot, a sequence of `status-content`
    blocks, and the scan is a fold over those blocks carrying the set of
    URLs already seen and the posts collected so far. */
module Scraper {
  import opened Results
  import opened Text

  const Origin := "https://truthsocial.com"
  /** The number of scroll passes before the scan gives up. */
  const MaxScrollAttempts := 450
  /** The time written when a post has no usable timestamp. */
  const NoTime := "N/A"

  /** One entry of `post.descendants`: a `<br>`, a text node, or any other element. */
  datatype Node = Br | Str(text: string) | Element

  /** The block's `<time>` tag: the `href` of the nearest enclosing `<a>`
      that has one, and the tag's `title` attribute (Korean local time). */
  datatype TimeTag = TimeTag(link: Option<string>, title: Option<string>)

  /** One `status-content` block. `indexed` says whether it has a parent
      `div` with `data-index`; `status` is the stripped text of the parent's
      `status-info` div, if there is one. */
  datatype Block = Block(indexed: bool, time: Option<TimeTag>, status: Option<string>, content: seq<Node>)

  type Page = seq<Block>

  /** A collected post, with the keys `time`, `kst_time`, `content`, `url`. */
  datatype Post = Post(time: string, kstTime: string, content: string, url: string)

  datatype State = State(seen: set<string>, collected: seq<Post>)

  /** Either the scan goes on with a new state, or it has returned. */
  datatype Flow = Continue(state: State) | Stop(posts: seq<Post>)

  function Posts(f: Flow): seq<Post> {
    match f
    case Continue(st) => st.collected
    case Stop(ps) => ps
  }

  /** An `href` starting with `/` is made absolute; any other is kept. */
  function AbsoluteUrl(href: string): (u: string)
    ensures !StartsWith(u, "/")
    ensures StartsWith(href, "/") ==> u == Origin + href
    ensures !StartsWith(href, "/") ==> u == href
  {
    if StartsWith(href, "/") then
      assert (Origin + href)[..1] == "h";
      Origin + href
    else href
  }

  /** Making a link absolute twice is the same as doing it once. */
  lemma AbsoluteUrlIdempotent(href: string)
    ensures AbsoluteUrl(AbsoluteUrl(href)) == AbsoluteUrl(href)
    ensures !StartsWith(AbsoluteUrl(href), "/")
  {
    if StartsWith(href, "/") {
      assert (Origin + href)[..1] == "h";
    }
  }

  /** A relative link and its absolute spelling give the same URL, so the
      scan's de-duplication treats them as one post. */
  lemma RelativeAndAbsoluteAgree(path: string)
    requires StartsWith(path, "/")
    ensures AbsoluteUrl(path) == AbsoluteUrl(Origin + path) == Origin + path
  {
    assert (Origin + path)[..1] == "h";
  }

  /** The URL a block links to, or `None` when it has no indexed parent,
      no `<time>` tag, or no enclosing link. */
  function BlockUrl(b: Block): (u: Option<string>)
    ensures u.Some? <==> b.indexed && b.time.Some? && b.time.value.link.Some?
    ensures u.Some? ==> u.value == AbsoluteUrl(b.time.value.link.value)
  {
    if !b.indexed then None
    else match b.time
      case None => None
      case Some(tag) =>
        match tag.link
        case None => None
        case Some(href) => Some(AbsoluteUrl(href))
  }

  /** A block is a ReTruth when its status line mentions `ReTruthed`. */
  predicate IsRetruth(b: Block) {
    b.status.Some? && Contains(b.status.value, "ReTruthed")
  }

  /** What the text loop appends for one node: `"\n"` for a `<br>`, a text
      node stripped when something is left of it, nothing otherwise. */
  function Fragment(n: Node): (parts: seq<string>)
    ensures forall k :: 0 <= k < |parts| ==> parts[k] == "\n" || (parts[k] != [] && !IsSpace(parts[k][0]))
    ensures n.Br? ==> parts == ["\n"]
    ensures n.Element? ==> parts == []
    ensures n.Str? ==> parts == if AllSpace(n.text) then [] else [Strip(n.text)]
  {
    match n
    case Br => ["\n"]
    case Str(t) => StripEmptyIff(t); var u := Strip(t); if u == "" then [] else [u]
    case Element => []
  }

  /** The parts the loop over `post.descendants` collects, in document order. */
  function Fragments(nodes: seq<Node>): (parts: seq<string>)
    decreases |nodes|
  {
    if nodes == [] then [] else Fragment(nodes[0]) + Fragments(nodes[1..])
  }

  /** The loop appends node by node: the parts of two runs of nodes are the
      parts of the first followed by those of the second. */
  lemma {:induction false} FragmentsAppend(a: seq<Node>, b: seq<Node>)
    ensures Fragments(a + b) == Fragments(a) + Fragments(b)
    decreases |a|
  {
    if a == [] {
      assert a + b == b;
    } else {
      assert (a + b)[0] == a[0] && (a + b)[1..] == a[1..] + b;
      FragmentsAppend(a[1..], b);
    }
  }

  /** The non-whitespace characters of the text nodes, in document order:
      what a post's text must hold, independently of how it is assembled. */
  function TextChars(nodes: seq<Node>): string
    decreases |nodes|
  {
    if nodes == [] then [] else (if nodes[0].Str? then NonSpace(nodes[0].text) else []) + TextChars(nodes[1..])
  }

  lemma {:induction false} FragmentsChars(nodes: seq<Node>)
    ensures NonSpace(Concat(Fragments(nodes))) == TextChars(nodes)
    decreases |nodes|
  {
    if nodes != [] {
      var f, rest := Fragment(nodes[0]), Fragments(nodes[1..]);
      FragmentsChars(nodes[1..]);
      assert Fragments(nodes) == f + rest;
      if f == [] {
        assert f + rest == rest;
        if nodes[0].Str? {
          AllSpaceNonSpace(nodes[0].text);
        }
      } else {
        var u := f[0];
        assert (f + rest)[0] == u && (f + rest)[1..] == rest;
        assert Concat(f + rest) == u + Concat(rest);
        NonSpaceAppend(u, Concat(rest));
        if nodes[0].Br? {
          assert NonSpace(u) == [] by { AllSpaceNonSpace(u); }
        } else {
          StripNonSpace(nodes[0].text);
        }
      }
    }
  }

  /** The post text: the fragments joined with `""` and stripped. */
  function PostText(nodes: seq<Node>): (text: string)
    ensures text == [] || (!IsSpace(text[0]) && !IsSpace(text[|text| - 1]))
  {
    Strip(Concat(Fragments(nodes)))
  }

  /** Joining and stripping loses no text: the post text holds exactly the
      non-whitespace characters of the text nodes, in order. */
  lemma PostTextKeepsText(nodes: seq<Node>)
    ensures NonSpace(PostText(nodes)) == TextChars(nodes)
  {
    StripNonSpace(Concat(Fragments(nodes)));
    FragmentsChars(nodes);
  }

  predicate SpaceParts(parts: seq<string>) {
    forall k :: 0 <= k < |parts| ==> AllSpace(parts[k])
  }

  /** Every text node of the block is whitespace. */
  predicate BlankText(nodes: seq<Node>) {
    forall k :: 0 <= k < |nodes| ==> nodes[k].Str? ==> AllSpace(nodes[k].text)
  }

  lemma SpacePartsAppend(a: seq<string>, b: seq<string>)
    ensures SpaceParts(a + b) <==> SpaceParts(a) && SpaceParts(b)
  {
    assert forall k :: 0 <= k < |a| ==> (a + b)[k] == a[k];
    assert forall k :: 0 <= k < |b| ==> (a + b)[|a| + k] == b[k];
  }

  lemma {:induction false} ConcatAllSpace(parts: seq<string>)
    ensures AllSpace(Concat(parts)) <==> SpaceParts(parts)
    decreases |parts|
  {
    if parts != [] {
      ConcatAllSpace(parts[1..]);
      var c := Concat(parts);
      assert c == parts[0] + Concat(parts[1..]);
      assert forall k :: 0 <= k < |parts[0]| ==> c[k] == parts[0][k];
      assert forall k :: 0 <= k < |Concat(parts[1..])| ==> c[|parts[0]| + k] == Concat(parts[1..])[k];
      assert parts == [parts[0]] + parts[1..];
      SpacePartsAppend([parts[0]], parts[1..]);
    }
  }

  lemma FragmentSpace(n: Node)
    ensures SpaceParts(Fragment(n)) <==> (n.Str? ==> AllSpace(n.text))
  {
    if n.Str? {
      StripEmptyIff(n.text);
      var u := Strip(n.text);
      if u != "" {
        assert Fragment(n) == [u] && !IsSpace(u[0]);
        assert !AllSpace(Fragment(n)[0]);
      }
    }
  }

  lemma {:induction false} FragmentsAllSpace(nodes: seq<Node>)
    ensures SpaceParts(Fragments(nodes)) <==> BlankText(nodes)
    decreases |nodes|
  {
    if nodes != [] {
      FragmentsAllSpace(nodes[1..]);
      FragmentSpace(nodes[0]);
      SpacePartsAppend(Fragment(nodes[0]), Fragments(nodes[1..]));
      assert forall k :: 1 <= k < |nodes| ==> nodes[k] == nodes[1..][k - 1];
      assert BlankText(nodes) <==> (nodes[0].Str? ==> AllSpace(nodes[0].text)) && BlankText(nodes[1..]);
    }
  }

  /** The post text is empty exactly when every text node is whitespace:
      `<br>` tags alone never make a post. */
  lemma PostTextEmptyIff(nodes: seq<Node>)
    ensures PostText(nodes) == "" <==> BlankText(nodes)
  {
    var parts := Fragments(nodes);
    StripEmptyIff(Concat(parts));
    ConcatAllSpace(parts);
    FragmentsAllSpace(nodes);
  }

  /** `kst_to_et`: `convert` stands for the `strptime` parse and the time
      zone conversion, and yields `None` when the parse fails. */
  function KstToEt(convert: string -> Option<string>, kst: string): (et: string)
    ensures et == NoTime <==> convert(kst).None? || convert(kst) == Some(NoTime)
    ensures et != NoTime ==> convert(kst) == Some(et)
  {
    match convert(kst)
    case None => NoTime
    case Some(et) => et
  }

  /** The `time` field: `N/A` when the title is missing, otherwise the
      converted title, which is again `N/A` when it cannot be parsed. */
  function PostTime(convert: string -> Option<string>, title: Option<string>): (t: string)
    ensures title.None? ==> t == NoTime
    ensures title.Some? && convert(title.value).None? ==> t == NoTime
    ensures title.Some? && title.value != NoTime && convert(title.value).Some? ==> t == convert(title.value).value
  {
    var raw := if title.Some? then title.value else NoTime;
    if raw != NoTime then KstToEt(convert, raw) else NoTime
  }

  function Title(b: Block): Option<string> {
    if b.time.Some? then b.time.value.title else None
  }

  function MakePost(convert: string -> Option<string>, b: Block, text: string, url: string): Post {
    Post(PostTime(convert, Title(b)), if Title(b).Some? then Title(b).value else NoTime, text, url)
  }

  /** The post a block yields when its URL has not been seen and is not
      known: none for a block without a URL, a ReTruth, or an empty text. */
  function Candidate(convert: string -> Option<string>, b: Block): Option<Post> {
    match BlockUrl(b)
    case None => None
    case Some(url) =>
      if url == "" || IsRetruth(b) || PostText(b.content) == "" then None
      else Some(MakePost(convert, b, PostText(b.content), url))
  }

  /** The largest number of posts a scan can return: `max_count` is only
      compared after an append, so a bound below one still lets one through. */
  function Limit(maxCount: int): nat {
    if maxCount < 1 then 1 else maxCount
  }

  predicate DistinctUrls(ps: seq<Post>) {
    forall i, j :: 0 <= i < j < |ps| ==> ps[i].url != ps[j].url
  }

  /** What every list the scan returns satisfies. */
  predicate Sound(existing: set<string>, maxCount: int, ps: seq<Post>) {
    && DistinctUrls(ps)
    && |ps| <= Limit(maxCount)
    && (forall k :: 0 <= k < |ps| ==> ps[k].url !in existing && ps[k].url != "" && ps[k].content != "")
  }

  /** What holds of the state between blocks. */
  predicate Live(existing: set<string>, maxCount: int, st: State) {
    && Sound(existing, maxCount, st.collected)
    && |st.collected| < Limit(maxCount)
    && (forall k :: 0 <= k < |st.collected| ==> st.collected[k].url in st.seen)
  }

  /** One iteration of the inner `for post in posts` loop. The scan
      returns at a block with a new URL that is already known (with what it
      has), or at one whose post fills the list; otherwise it goes on, and
      a new URL is marked seen whether or not its block yields a post. */
  function Step(existing: set<string>, maxCount: int, convert: string -> Option<string>,
                st: State, b: Block): (f: Flow)
    ensures var u := BlockUrl(b);
            f.Stop? <==> (u.Some? && u.value != "" && u.value !in st.seen
                          && (u.value in existing || (Candidate(convert, b).Some? && |st.collected| + 1 >= maxCount)))
    ensures var u := BlockUrl(b);
            f.Stop? && u.Some? && u.value in existing ==> f.posts == st.collected
    ensures var u := BlockUrl(b);
            f.Continue? && u.Some? && u.value != "" ==> f.state.seen == st.seen + {u.value}
  {
    match BlockUrl(b)
    case None => Continue(st)
    case Some(url) =>
      if url == "" || url in st.seen then Continue(st)
      else
        var seen := st.seen + {url};
        if url in existing then Stop(st.collected)
        else if IsRetruth(b) then Continue(State(seen, st.collected))
        else
          var text := PostText(b.content);
          if text == "" then Continue(State(seen, st.collected))
          else
            var collected := st.collected + [MakePost(convert, b, text, url)];
            if |collected| >= maxCount then Stop(collected)
            else Continue(State(seen, collected))
  }

  /** A step keeps the invariant: the state stays live, or the scan
      returns a sound list. */
  lemma StepKeepsLive(existing: set<string>, maxCount: int, convert: string -> Option<string>,
                      st: State, b: Block)
    ensures Live(existing, maxCount, st) ==>
              match Step(existing, maxCount, convert, st, b)
              case Continue(st') => Live(existing, maxCount, st')
              case Stop(ps) => Sound(existing, maxCount, ps)
  {
    var f := Step(existing, maxCount, convert, st, b);
    if Live(existing, maxCount, st) && BlockUrl(b).Some? {
      var url := BlockUrl(b).value;
      if url != "" && url !in st.seen && url !in existing && !IsRetruth(b) && PostText(b.content) != "" {
        var p := MakePost(convert, b, PostText(b.content), url);
        AppendKeepsSound(existing, maxCount, st, p);
        assert Posts(f) == st.collected + [p];
      } else if url != "" && url !in st.seen && url !in existing {
        assert f == Continue(State(st.seen + {url}, st.collected));
      }
    }
  }

  lemma AppendKeepsSound(existing: set<string>, maxCount: int, st: State, p: Post)
    requires Live(existing, maxCount, st)
    requires p.url !in st.seen && p.url !in existing && p.url != "" && p.content != ""
    ensures Sound(existing, maxCount, st.collected + [p])
    ensures |st.collected + [p]| < maxCount ==> Live(existing, maxCount, State(st.seen + {p.url}, st.collected + [p]))
  {
    var c := st.collected;
    var c' := c + [p];
    assert forall k :: 0 <= k < |c| ==> c'[k] == c[k];
    assert forall k :: 0 <= k < |c| ==> c[k].url != p.url;
  }

  /** A ReTruth never yields a post: a step over one appends nothing. */
  lemma RetruthIsSkipped(existing: set<string>, maxCount: int, convert: string -> Option<string>,
                         st: State, b: Block)
    requires IsRetruth(b)
    ensures Candidate(convert, b).None?
    ensures Posts(Step(existing, maxCount, convert, st, b)) == st.collected
  {
  }

  /** A step only ever appends, and what it appends is the block's own
      candidate post; a block without a URL, or with one already seen,
      leaves the state untouched. */
  lemma StepAppends(existing: set<string>, maxCount: int, convert: string -> Option<string>,
                    st: State, b: Block)
    ensures var f := Step(existing, maxCount, convert, st, b);
            && st.collected <= Posts(f)
            && (Posts(f) == st.collected || Posts(f) == st.collected + [Candidate(convert, b).value])
            && (f.Continue? ==> st.seen <= f.state.seen)
            && (BlockUrl(b).None? || BlockUrl(b).value in st.seen ==> f == Continue(st))
  {
  }

  /** The scan of a sequence of blocks, left to right. */
  function Run(existing: set<string>, maxCount: int, convert: string -> Option<string>,
               st: State, bs: seq<Block>): (f: Flow)
    ensures Live(existing, maxCount, st) ==>
              match f
              case Continue(st') => Live(existing, maxCount, st')
              case Stop(ps) => Sound(existing, maxCount, ps)
    ensures st.collected <= Posts(f)
    ensures forall k :: |st.collected| <= k < |Posts(f)| ==>
              exists j :: 0 <= j < |bs| && Candidate(convert, bs[j]) == Some(Posts(f)[k])
    decreases |bs|
  {
    if bs == [] then Continue(st)
    else
      var f1 := Step(existing, maxCount, convert, st, bs[0]);
      StepKeepsLive(existing, maxCount, convert, st, bs[0]);
      StepAppends(existing, maxCount, convert, st, bs[0]);
      match f1
      case Stop(ps) => f1
      case Continue(st') =>
        var f := Run(existing, maxCount, convert, st', bs[1..]);
        ProvenanceCons(convert, bs, st.collected, st'.collected, Posts(f));
        f
  }

  /** `p` is the candidate post of one of the blocks. */
  predicate FromBlocks(convert: string -> Option<string>, bs: seq<Block>, p: Post) {
    exists j :: 0 <= j < |bs| && Candidate(convert, bs[j]) == Some(p)
  }

  lemma FromTail(convert: string -> Option<string>, bs: seq<Block>, p: Post)
    requires |bs| > 0 && FromBlocks(convert, bs[1..], p)
    ensures FromBlocks(convert, bs, p)
  {
    var j :| 0 <= j < |bs[1..]| && Candidate(convert, bs[1..][j]) == Some(p);
    assert bs[1..][j] == bs[j + 1];
  }

  /** Posts collected from the first block, followed by posts collected
      from the rest, all come from some block. */
  lemma ProvenanceCons(convert: string -> Option<string>, bs: seq<Block>, c0: seq<Post>, c1: seq<Post>, ps: seq<Post>)
    requires |bs| > 0 && c0 <= c1 <= ps
    requires c1 == c0 || (Candidate(convert, bs[0]).Some? && c1 == c0 + [Candidate(convert, bs[0]).value])
    requires forall k :: |c1| <= k < |ps| ==> FromBlocks(convert, bs[1..], ps[k])
    ensures forall k :: |c0| <= k < |ps| ==> FromBlocks(convert, bs, ps[k])
  {
    forall k | |c0| <= k < |ps|
      ensures FromBlocks(convert, bs, ps[k])
    {
      if k < |c1| {
        assert c1 != c0 && ps[k] == c1[k] == c1[|c0|];
        assert Candidate(convert, bs[0]) == Some(ps[k]);
      } else {
        FromTail(convert, bs, ps[k]);
      }
    }
  }

  /** The snapshot the `k`-th pass parses; passes beyond the given
      snapshots see an empty page. */
  function Snapshot(pages: seq<Page>, k: nat): Page {
    if k < |pages| then pages[k] else []
  }

  /** The outer `while scroll_attempts < max_scroll_attempts` loop, from pass `k` on. */
  function Passes(existing: set<string>, maxCount: int, convert: string -> Option<string>,
                  pages: seq<Page>, k: nat, st: State): (ps: seq<Post>)
    ensures Live(existing, maxCount, st) ==> Sound(existing, maxCount, ps)
    ensures st.collected <= ps
    ensures forall n :: |st.collected| <= n < |ps| ==>
              exists i, j :: k <= i < MaxScrollAttempts && i < |pages| && 0 <= j < |pages[i]|
                             && Candidate(convert, pages[i][j]) == Some(ps[n])
    decreases MaxScrollAttempts - k
  {
    if k >= MaxScrollAttempts then st.collected
    else
      match Run(existing, maxCount, convert, st, Snapshot(pages, k))
      case Stop(ps) => ps
      case Continue(st') =>
        var ps := Passes(existing, maxCount, convert, pages, k + 1, st');
        assert forall n :: |st.collected| <= n < |st'.collected| ==> ps[n] == st'.collected[n];
        ps
  }

  /** `collect_new_posts(driver, existing_urls, max_count)`: the first
      `Limit(maxCount)` fresh posts of the blocks the passes see, in order. */
  function Collect(existing: set<string>, maxCount: int, convert: string -> Option<string>,
                   pages: seq<Page>): (ps: seq<Post>)
    ensures Sound(existing, maxCount, ps)
    ensures forall n :: 0 <= n < |ps| ==>
              exists i, j :: 0 <= i < MaxScrollAttempts && i < |pages| && 0 <= j < |pages[i]|
                             && Candidate(convert, pages[i][j]) == Some(ps[n])
    ensures ps == Take(Fresh(existing, convert, {}, FlatFrom(pages, 0)), Limit(maxCount))
  {
    var init := State({}, []);
    assert Live(existing, maxCount, init);
    PassesAreOneFold(existing, maxCount, convert, pages, 0, init);
    RunIsFreshPrefix(existing, maxCount, convert, {}, [], FlatFrom(pages, 0));
    Passes(existing, maxCount, convert, pages, 0, init)
  }

  /** The posts a scan of `bs` finds when nothing bounds their number: for
      every non-empty URL not in `seen`, the candidate of the first block
      that links to it, in block order, up to the first such URL that is
      already known. */
  function Fresh(existing: set<string>, convert: string -> Option<string>, seen: set<string>,
                 bs: seq<Block>): seq<Post>
    decreases |bs|
  {
    if bs == [] then []
    else match BlockUrl(bs[0])
      case None => Fresh(existing, convert, seen, bs[1..])
      case Some(url) =>
        if url == "" || url in seen then Fresh(existing, convert, seen, bs[1..])
        else if url in existing then []
        else
          (match Candidate(convert, bs[0]) case None => [] case Some(p) => [p])
          + Fresh(existing, convert, seen + {url}, bs[1..])
  }

  /** The first `n` elements, or all of them when there are fewer. */
  function Take<T>(xs: seq<T>, n: nat): (r: seq<T>)
    ensures |r| == if |xs| <= n then |xs| else n
    ensures r <= xs
  {
    if |xs| <= n then xs else xs[..n]
  }

  /** The scan of `bs` appends to what it has the fresh posts of `bs`, and
      stops as soon as the list reaches `Limit(maxCount)`. */
  lemma {:induction false} RunIsFreshPrefix(existing: set<string>, maxCount: int, convert: string -> Option<string>,
                                            seen: set<string>, c: seq<Post>, bs: seq<Block>)
    requires |c| < Limit(maxCount)
    ensures Posts(Run(existing, maxCount, convert, State(seen, c), bs))
            == c + Take(Fresh(existing, convert, seen, bs), Limit(maxCount) - |c|)
    decreases |bs|
  {
    if bs != [] {
      var b, rest := bs[0], bs[1..];
      var st := State(seen, c);
      var n := Limit(maxCount) - |c|;
      var found := Fresh(existing, convert, seen, bs);
      var u := BlockUrl(b);
      StepOutcome(existing, maxCount, convert, seen, c, b);
      RunStep(existing, maxCount, convert, st, bs);
      if u.None? || u.value == "" || u.value in seen {
        assert Run(existing, maxCount, convert, st, bs) == Run(existing, maxCount, convert, st, rest);
        assert found == Fresh(existing, convert, seen, rest);
        RunIsFreshPrefix(existing, maxCount, convert, seen, c, rest);
      } else if u.value in existing {
        assert Run(existing, maxCount, convert, st, bs) == Stop(c);
        assert found == [] && c + Take(found, n) == c;
      } else {
        var seen' := seen + {u.value};
        var tail := Fresh(existing, convert, seen', rest);
        if Candidate(convert, b).None? {
          assert Run(existing, maxCount, convert, st, bs) == Run(existing, maxCount, convert, State(seen', c), rest);
          assert found == tail;
          RunIsFreshPrefix(existing, maxCount, convert, seen', c, rest);
        } else {
          var p := Candidate(convert, b).value;
          assert found == [p] + tail;
          if |c| + 1 < Limit(maxCount) {
            assert Run(existing, maxCount, convert, st, bs)
                   == Run(existing, maxCount, convert, State(seen', c + [p]), rest);
            RunIsFreshPrefix(existing, maxCount, convert, seen', c + [p], rest);
            TakeCons(p, tail, n - 1);
            assert c + [p] + Take(tail, n - 1) == c + ([p] + Take(tail, n - 1));
          } else {
            assert Run(existing, maxCount, convert, st, bs) == Stop(c + [p]);
            assert Take([p] + tail, 1) == [p];
          }
        }
      }
    }
  }

  /** A scan of a non-empty block list is one step, then the scan of the rest. */
  lemma RunStep(existing: set<string>, maxCount: int, convert: string -> Option<string>, st: State, bs: seq<Block>)
    requires bs != []
    ensures var f1 := Step(existing, maxCount, convert, st, bs[0]);
            Run(existing, maxCount, convert, st, bs)
            == if f1.Stop? then f1 else Run(existing, maxCount, convert, f1.state, bs[1..])
  {
  }

  /** The four outcomes of a step, and their effect on the scan of a
      block sequence that starts with that block. */
  lemma StepOutcome(existing: set<string>, maxCount: int, convert: string -> Option<string>,
                    seen: set<string>, c: seq<Post>, b: Block)
    requires |c| < Limit(maxCount)
    ensures var f, u, cand := Step(existing, maxCount, convert, State(seen, c), b), BlockUrl(b), Candidate(convert, b);
            && (u.None? || u.value == "" || u.value in seen ==> f == Continue(State(seen, c)))
            && (u.Some? && u.value != "" && u.value !in seen && u.value in existing ==> f == Stop(c))
            && (u.Some? && u.value != "" && u.value !in seen && u.value !in existing && cand.None? ==>
                  f == Continue(State(seen + {u.value}, c)))
            && (u.Some? && u.value != "" && u.value !in seen && u.value !in existing && cand.Some? ==>
                  f == if |c| + 1 < Limit(maxCount) then Continue(State(seen + {u.value}, c + [cand.value]))
                       else Stop(c + [cand.value]))
  {
  }

  lemma TakeCons<T>(x: T, xs: seq<T>, n: nat)
    ensures Take([x] + xs, n + 1) == [x] + Take(xs, n)
  {
    if |xs| > n {
      assert ([x] + xs)[..n + 1] == [x] + xs[..n];
    }
  }

  /** The value a scan ends with once its blocks run out. */
  function Finish(f: Flow): seq<Post> { Posts(f) }

  /** Scanning `a + b` is scanning `a`, then `b` from where `a` left off. */
  lemma {:induction false} RunConcat(existing: set<string>, maxCount: int, convert: string -> Option<string>,
                                     st: State, a: seq<Block>, b: seq<Block>)
    ensures Run(existing, maxCount, convert, st, a + b) ==
            match Run(existing, maxCount, convert, st, a)
            case Stop(ps) => Stop(ps)
            case Continue(st') => Run(existing, maxCount, convert, st', b)
    decreases |a|
  {
    if a == [] {
      assert a + b == b;
    } else {
      assert (a + b)[0] == a[0] && (a + b)[1..] == a[1..] + b;
      match Step(existing, maxCount, convert, st, a[0]) {
        case Stop(ps) =>
        case Continue(st') =>
          RunConcat(existing, maxCount, convert, st', a[1..], b);
      }
    }
  }

  /** All the blocks the passes from `k` on can see, in scan order. */
  function FlatFrom(pages: seq<Page>, k: nat): seq<Block>
    decreases MaxScrollAttempts - k
  {
    if k >= MaxScrollAttempts then [] else Snapshot(pages, k) + FlatFrom(pages, k + 1)
  }

  /** The pass structure adds nothing but the bound: the scan equals one
      fold over the concatenated snapshots, with the seen-set and the
      collected list carried across passes. */
  lemma {:induction false} PassesAreOneFold(existing: set<string>, maxCount: int, convert: string -> Option<string>,
                                            pages: seq<Page>, k: nat, st: State)
    ensures Passes(existing, maxCount, convert, pages, k, st)
            == Finish(Run(existing, maxCount, convert, st, FlatFrom(pages, k)))
    decreases MaxScrollAttempts - k
  {
    if k < MaxScrollAttempts {
      RunConcat(existing, maxCount, convert, st, Snapshot(pages, k), FlatFrom(pages, k + 1));
      match Run(existing, maxCount, convert, st, Snapshot(pages, k)) {
        case Stop(ps) =>
        case Continue(st') =>
          PassesAreOneFold(existing, maxCount, convert, pages, k + 1, st');
      }
    }
  }

  /** Snapshots past the 450th are never read. */
  lemma {:induction false} OnlyFirstPassesMatter(existing: set<string>, maxCount: int, convert: string -> Option<string>,
                                                 pages: seq<Page>, k: nat, st: State)
    requires |pages| >= MaxScrollAttempts
    ensures Passes(existing, maxCount, convert, pages, k, st)
            == Passes(existing, maxCount, convert, pages[..MaxScrollAttempts], k, st)
    decreases MaxScrollAttempts - k
  {
    if k < MaxScrollAttempts {
      assert Snapshot(pages, k) == Snapshot(pages[..MaxScrollAttempts], k);
      match Run(existing, maxCount, convert, st, Snapshot(pages, k)) {
        case Stop(ps) =>
        case Continue(st') =>
          OnlyFirstPassesMatter(existing, maxCount, convert, pages, k + 1, st');
      }
    }
  }

  /** The first new URL that is already known ends the scan, and the scan
      returns exactly what was collected before it, even when that block is
      a ReTruth or has no text. */
  lemma KnownUrlStops(existing: set<string>, maxCount: int, convert: string -> Option<string>,
                      st: State, before: seq<Block>, b: Block, after: seq<Block>, st': State, url: string)
    requires Run(existing, maxCount, convert, st, before) == Continue(st')
    requires BlockUrl(b) == Some(url) && url != "" && url !in st'.seen && url in existing
    ensures Run(existing, maxCount, convert, st, before + [b] + after) == Stop(st'.collected)
  {
    RunConcat(existing, maxCount, convert, st, before, [b] + after);
    assert before + [b] + after == before + ([b] + after);
    assert ([b] + after)[0] == b;
  }

  /** Once the posts of a scan are added to the known URLs, scanning the
      same blocks again stops at the first of them and returns nothing: the
      blocks before it were all skipped the first time and are skipped again. */
  lemma {:induction false} RescanFindsNothing(existing: set<string>, known: set<string>, maxCount: int,
                                              convert: string -> Option<string>, seen: set<string>, bs: seq<Block>)
    requires existing <= known
    requires var ps := Posts(Run(existing, maxCount, convert, State(seen, []), bs));
             ps != [] && forall k :: 0 <= k < |ps| ==> ps[k].url in known
    ensures Run(known, maxCount, convert, State(seen, []), bs) == Stop([])
    decreases |bs|
  {
    var st := State(seen, []);
    var b := bs[0];
    var f1 := Step(existing, maxCount, convert, st, b);
    var g1 := Step(known, maxCount, convert, st, b);
    var f := Run(existing, maxCount, convert, st, bs);
    assert f == (match f1 case Stop(ps) => f1 case Continue(st') => Run(existing, maxCount, convert, st', bs[1..]));
    if BlockUrl(b).None? || BlockUrl(b).value == "" || BlockUrl(b).value in seen {
      RescanFindsNothing(existing, known, maxCount, convert, seen, bs[1..]);
    } else {
      var url := BlockUrl(b).value;
      if url !in existing && !IsRetruth(b) && PostText(b.content) != "" {
        var p := MakePost(convert, b, PostText(b.content), url);
        assert Posts(f1) == [p];
        assert Posts(f)[0] == p;
        assert url in known;
      } else if url !in known {
        assert f1 == Continue(State(seen + {url}, []));
        assert g1 == Continue(State(seen + {url}, []));
        RescanFindsNothing(existing, known, maxCount, convert, seen + {url}, bs[1..]);
      }
    }
  }

  /** At the level of pages: re-running the scan after its posts became
      known collects nothing. */
  lemma RecollectFindsNothing(existing: set<string>, known: set<string>, maxCount: int,
                              convert: string -> Option<string>, pages: seq<Page>)
    requires existing <= known
    requires var ps := Collect(existing, maxCount, convert, pages);
             ps != [] && forall k :: 0 <= k < |ps| ==> ps[k].url in known
    ensures Collect(known, maxCount, convert, pages) == []
  {
    var init := State({}, []);
    PassesAreOneFold(existing, maxCount, convert, pages, 0, init);
    PassesAreOneFold(known, maxCount, convert, pages, 0, init);
    RescanFindsNothing(existing, known, maxCount, convert, {}, FlatFrom(pages, 0));
  }

  function Linked(path: string, text: string): Block {
    Block(true, Some(TimeTag(Some(path), None)), None, [Str(text)])
  }

  /** The three example URLs are distinct: they differ right after the origin. */
  lemma ExampleUrlsDiffer()
    ensures Origin + "/c" != Origin + "/a" && Origin + "/c" != Origin + "/b"
  {
    assert (Origin + "/c")[|Origin| + 1] == 'c';
    assert (Origin + "/a")[|Origin| + 1] == 'a';
    assert (Origin + "/b")[|Origin| + 1] == 'b';
  }

  /** The new post C is collected and the scan goes on. */
  lemma ExampleFirstStep(convert: string -> Option<string>)
    ensures Step({Origin + "/a", Origin + "/b"}, 10, convert, State({}, []), Linked("/c", "new"))
            == Continue(State({Origin + "/c"}, [Post(NoTime, NoTime, "new", Origin + "/c")]))
  {
    var c := Linked("/c", "new");
    assert StartsWith("/c", "/");
    assert BlockUrl(c) == Some(Origin + "/c");
    ExampleUrlsDiffer();
    StripNoop("new");
    assert Fragments(c.content) == ["new"];
    assert Concat(["new"]) == "new";
    assert PostText(c.content) == "new";
  }

  /** The known post B stops the scan with what was collected before it. */
  lemma ExampleSecondStep(convert: string -> Option<string>)
    ensures Step({Origin + "/a", Origin + "/b"}, 10, convert,
                 State({Origin + "/c"}, [Post(NoTime, NoTime, "new", Origin + "/c")]), Linked("/b", "old"))
            == Stop([Post(NoTime, NoTime, "new", Origin + "/c")])
  {
    assert StartsWith("/b", "/");
    assert BlockUrl(Linked("/b", "old")) == Some(Origin + "/b");
    ExampleUrlsDiffer();
  }

  /** With posts A and B already stored and the feed showing C, B, D (newest
      first), the scan collects C alone and stops at B, never reaching D. */
  lemma StopsAtFirstKnownPost(convert: string -> Option<string>)
    ensures Collect({Origin + "/a", Origin + "/b"}, 10, convert,
                    [[Linked("/c", "new"), Linked("/b", "old"), Linked("/d", "older")]])
            == [Post(NoTime, NoTime, "new", Origin + "/c")]
  {
    var known := {Origin + "/a", Origin + "/b"};
    var c, b, d := Linked("/c", "new"), Linked("/b", "old"), Linked("/d", "older");
    var pc := Post(NoTime, NoTime, "new", Origin + "/c");
    var st1 := State({Origin + "/c"}, [pc]);
    ExampleFirstStep(convert);
    ExampleSecondStep(convert);
    assert [c, b, d][1..] == [b, d];
    assert Run(known, 10, convert, st1, [b, d]) == Stop([pc]);
    assert Run(known, 10, convert, State({}, []), [c, b, d]) == Stop([pc]);
    assert Snapshot([[c, b, d]], 0) == [c, b, d];
  }
}
