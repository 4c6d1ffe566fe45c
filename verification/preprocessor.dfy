/** The tweet normaliser `preprocess_tweet` and the retweet filter
    `is_valid_tweet`. Each regular-expression substitution is modelled as the
    left-to-right, non-overlapping scan that `re.sub` performs. */
module Preprocessor {
  import opened Results
  import opened Text
  import Values

  /** The three patterns deleted before tokenising: `@\S+`, `\B#\S+` and `http\S+`. */
  datatype Pattern = Mention | Hashtag | Url

  /** Whether `p` matches at index `i` of `s`. Every pattern starts with a
      non-space character and ends in a greedy `\S+`, so a match always
      extends to the end of the non-space run that contains `i`. `\B` before
      `#` holds when `#` opens the string or follows a non-word character. */
  predicate MatchesAt(p: Pattern, s: string, i: int) {
    0 <= i && i + 1 < |s| &&
    match p
    case Mention => s[i] == '@' && !IsSpace(s[i + 1])
    case Hashtag => s[i] == '#' && (i == 0 || !IsWordChar(s[i - 1])) && !IsSpace(s[i + 1])
    case Url =>
      i + 4 < |s| && s[i] == 'h' && s[i + 1] == 't' && s[i + 2] == 't' && s[i + 3] == 'p'
      && !IsSpace(s[i + 4])
  }

  /** Where a greedy `\S*` starting at `i` stops. */
  function NonSpaceEnd(s: string, i: nat): (e: nat)
    requires i <= |s|
    ensures i <= e <= |s|
    ensures forall k :: i <= k < e ==> !IsSpace(s[k])
    ensures e == |s| || IsSpace(s[e])
    decreases |s| - i
  {
    if i == |s| || IsSpace(s[i]) then i else NonSpaceEnd(s, i + 1)
  }

  /** Whether index `k` of `s` falls in a run that a match deletes: some
      match starts at or before `k` and its non-space run reaches past `k`. */
  predicate Deleted(p: Pattern, s: string, k: nat)
    requires k < |s|
  {
    exists m :: 0 <= m <= k && MatchesAt(p, s, m) && k < NonSpaceEnd(s, m)
  }

  /** The characters of `s[i..]` that no match deletes, in order. */
  function Survivors(p: Pattern, s: string, i: nat): string
    requires i <= |s|
    decreases |s| - i
  {
    if i == |s| then "" else (if Deleted(p, s, i) then "" else [s[i]]) + Survivors(p, s, i + 1)
  }

  /** No match before `i` deletes anything at or after `i`: a place where
      the left-to-right scan can stand. */
  predicate ScanFrom(p: Pattern, s: string, i: nat)
    requires i <= |s|
  {
    forall m :: 0 <= m < i && MatchesAt(p, s, m) ==> NonSpaceEnd(s, m) <= i
  }

  /** `re.sub(p, '', s)` applied to the suffix `s[i..]`; the context before
      `i` is still visible, as it is to `\B`. `ScrubIsSurvivors` says what
      it yields. */
  function Scrub(p: Pattern, s: string, i: nat): (r: string)
    requires i <= |s|
    ensures |r| <= |s| - i
    decreases |s| - i
  {
    if i == |s| then ""
    else if MatchesAt(p, s, i) then Scrub(p, s, NonSpaceEnd(s, i))
    else [s[i]] + Scrub(p, s, i + 1)
  }

  /** The scrub keeps exactly the characters no match deletes, in order:
      from any place the scan can stand, and so from the start. */
  lemma {:induction false} ScrubIsSurvivors(p: Pattern, s: string, i: nat)
    requires i <= |s| && ScanFrom(p, s, i)
    ensures Scrub(p, s, i) == Survivors(p, s, i)
    decreases |s| - i
  {
    if i < |s| {
      if MatchesAt(p, s, i) {
        MatchDeletesRun(p, s, i, i);
        ScanAfterMatch(p, s, i);
        ScrubIsSurvivors(p, s, NonSpaceEnd(s, i));
      } else {
        assert !Deleted(p, s, i);
        assert ScanFrom(p, s, i + 1);
        ScrubIsSurvivors(p, s, i + 1);
      }
    }
  }

  /** Every index from `j` to the end of a match's run is deleted. */
  lemma {:induction false} MatchDeletesRun(p: Pattern, s: string, i: nat, j: nat)
    requires MatchesAt(p, s, i) && i <= j <= NonSpaceEnd(s, i)
    ensures Survivors(p, s, j) == Survivors(p, s, NonSpaceEnd(s, i))
    decreases |s| - j
  {
    if j < NonSpaceEnd(s, i) {
      assert Deleted(p, s, j);
      MatchDeletesRun(p, s, i, j + 1);
    }
  }

  /** After a match the scan resumes at the end of its run. */
  lemma ScanAfterMatch(p: Pattern, s: string, i: nat)
    requires MatchesAt(p, s, i)
    ensures ScanFrom(p, s, i) ==> ScanFrom(p, s, NonSpaceEnd(s, i))
  {
    var e := NonSpaceEnd(s, i);
    if ScanFrom(p, s, i) {
      forall m | 0 <= m < e && MatchesAt(p, s, m)
        ensures NonSpaceEnd(s, m) <= e
      {
        if i <= m {
          NonSpaceEndFrom(s, i, m);
        }
      }
    }
  }

  /** Inside a non-space run every index has the same run end. */
  lemma {:induction false} NonSpaceEndFrom(s: string, i: nat, m: nat)
    requires i <= |s| && i <= m <= NonSpaceEnd(s, i)
    ensures NonSpaceEnd(s, m) == NonSpaceEnd(s, i)
    decreases m - i
  {
    if i < m {
      NonSpaceEndFrom(s, i + 1, m);
    }
  }

  /** A text in which the pattern never matches passes through the scrub unchanged. */
  lemma ScrubNoMatch(p: Pattern, s: string)
    requires forall m :: 0 <= m < |s| ==> !MatchesAt(p, s, m)
    ensures Scrub(p, s, 0) == s
  {
    assert ScanFrom(p, s, 0);
    ScrubIsSurvivors(p, s, 0);
    SurvivorsAll(p, s, 0);
  }

  lemma {:induction false} SurvivorsAll(p: Pattern, s: string, i: nat)
    requires i <= |s| && forall m :: 0 <= m < |s| ==> !MatchesAt(p, s, m)
    ensures Survivors(p, s, i) == s[i..]
    decreases |s| - i
  {
    if i < |s| {
      assert !Deleted(p, s, i);
      SurvivorsAll(p, s, i + 1);
      assert s[i..] == [s[i]] + s[i + 1..];
    }
  }

  predicate CharsSatisfy(s: string, P: char -> bool) {
    forall k :: 0 <= k < |s| ==> P(s[k])
  }

  /** `ks` gives the input index of every output character of the scrub
      of `s[i..]`: each output character is an input character that is not
      the start of a match, and two adjacent non-space output characters
      were adjacent in the input. When a non-space output character follows
      whitespace, it followed whitespace in the input too. */
  predicate Sources(p: Pattern, s: string, i: nat, ks: seq<nat>)
    requires i <= |s|
  {
    Traced(p, s, i, Scrub(p, s, i), ks)
  }

  /** `ks` traces the characters of `out` back into `s[i..]`, as above. */
  predicate Traced(p: Pattern, s: string, i: nat, out: string, ks: seq<nat>) {
    && |ks| == |out|
    && (forall j :: 0 <= j < |ks| ==> i <= ks[j] < |s| && out[j] == s[ks[j]] && !MatchesAt(p, s, ks[j]))
    && (|ks| > 0 && !IsSpace(s[ks[0]]) ==> ks[0] == i)
    && (forall j, j' :: 0 <= j && j' == j + 1 < |ks| && !IsSpace(s[ks[j']]) ==>
          ks[j] < ks[j'] &&
          (if IsSpace(s[ks[j]]) then IsSpace(s[ks[j'] - 1]) else ks[j] + 1 == ks[j']))
  }

  lemma {:induction false} ScrubSources(p: Pattern, s: string, i: nat) returns (ks: seq<nat>)
    requires i <= |s|
    ensures Sources(p, s, i, ks)
    decreases |s| - i
  {
    if i == |s| {
      ks := [];
    } else if MatchesAt(p, s, i) {
      var e := NonSpaceEnd(s, i);
      ks := ScrubSources(p, s, e);
      SkipMatch(p, s, i, ks);
    } else {
      var rest := ScrubSources(p, s, i + 1);
      ks := KeepChar(p, s, i, rest);
    }
  }

  /** A match contributes nothing, and the scrub goes on after it. */
  lemma SkipMatch(p: Pattern, s: string, i: nat, ks: seq<nat>)
    requires i < |s| && MatchesAt(p, s, i)
    requires Sources(p, s, NonSpaceEnd(s, i), ks)
    ensures Sources(p, s, i, ks)
  {
    var e := NonSpaceEnd(s, i);
    assert Scrub(p, s, i) == Scrub(p, s, e);
    assert e < |s| ==> IsSpace(s[e]);
  }

  /** A character that starts no match is kept, in front of the rest. */
  lemma KeepChar(p: Pattern, s: string, i: nat, rest: seq<nat>) returns (ks: seq<nat>)
    requires i < |s| && !MatchesAt(p, s, i)
    requires Sources(p, s, i + 1, rest)
    ensures Sources(p, s, i, ks)
  {
    ks := [i] + rest;
    KeptIndices(p, s, i, rest);
    KeptAdjacent(p, s, i, rest);
  }

  lemma KeptIndices(p: Pattern, s: string, i: nat, rest: seq<nat>)
    requires i < |s| && !MatchesAt(p, s, i)
    requires Sources(p, s, i + 1, rest)
    ensures var ks, out := [i] + rest, Scrub(p, s, i);
            && |ks| == |out|
            && forall j :: 0 <= j < |ks| ==> i <= ks[j] < |s| && out[j] == s[ks[j]] && !MatchesAt(p, s, ks[j])
  {
    var tail := Scrub(p, s, i + 1);
    var out := Scrub(p, s, i);
    assert out == [s[i]] + tail;
    var ks := [i] + rest;
    forall j | 0 <= j < |ks| ensures i <= ks[j] < |s| && out[j] == s[ks[j]] && !MatchesAt(p, s, ks[j]) {
      if j > 0 {
        assert ks[j] == rest[j - 1] && out[j] == tail[j - 1];
      }
    }
  }

  lemma KeptAdjacent(p: Pattern, s: string, i: nat, rest: seq<nat>)
    requires i < |s|
    requires Sources(p, s, i + 1, rest)
    ensures var ks := [i] + rest;
            forall j, j' :: 0 <= j && j' == j + 1 < |ks| && !IsSpace(s[ks[j']]) ==>
              ks[j] < ks[j'] &&
              (if IsSpace(s[ks[j]]) then IsSpace(s[ks[j'] - 1]) else ks[j] + 1 == ks[j'])
  {
    var ks := [i] + rest;
    forall j, j' | 0 <= j && j' == j + 1 < |ks| && !IsSpace(s[ks[j']])
      ensures ks[j] < ks[j']
      ensures if IsSpace(s[ks[j]]) then IsSpace(s[ks[j'] - 1]) else ks[j] + 1 == ks[j']
    {
      assert ks[j'] == rest[j];
      if j == 0 {
        assert rest[0] == i + 1;
      } else {
        assert ks[j] == rest[j - 1];
      }
    }
  }

  /** A scrub keeps every character that satisfies `P` when all of its input does. */
  lemma ScrubKeeps(p: Pattern, s: string, P: char -> bool)
    requires CharsSatisfy(s, P)
    ensures CharsSatisfy(Scrub(p, s, 0), P)
  {
    var ks := ScrubSources(p, s, 0);
  }

  /** After a scrub no match of the same pattern is left: no `@` followed by
      a non-space character, no `#` after a non-word character (or at the
      start) followed by a non-space character, and no `http` followed by a
      non-space character. */
  lemma ScrubLeavesNoMatch(p: Pattern, s: string)
    ensures forall j :: !MatchesAt(p, Scrub(p, s, 0), j)
  {
    var out := Scrub(p, s, 0);
    var ks := ScrubSources(p, s, 0);
    forall j | 0 <= j < |out| ensures !MatchesAt(p, out, j) {
      NoMatchLeft(p, s, out, ks, j);
    }
  }

  /** A traced output has no match at `j`: one would have been a match at
      the traced input index. */
  lemma NoMatchLeft(p: Pattern, s: string, out: string, ks: seq<nat>, j: nat)
    requires Traced(p, s, 0, out, ks) && j < |out|
    ensures !MatchesAt(p, out, j)
  {
    var k := ks[j];
    assert j + 1 < |out| && !IsSpace(out[j]) && !IsSpace(out[j + 1]) ==> ks[j] + 1 == ks[j + 1];
    match p {
      case Mention =>
        assert MatchesAt(p, out, j) ==> MatchesAt(p, s, k);
      case Hashtag =>
        assert j > 0 && !IsSpace(out[j]) && !IsSpace(out[j - 1]) ==> ks[j - 1] + 1 == ks[j];
        assert j > 0 && !IsSpace(out[j]) && IsSpace(out[j - 1]) ==> IsSpace(s[k - 1]);
        assert MatchesAt(p, out, j) ==> MatchesAt(p, s, k);
      case Url =>
        assert j + 4 < |out| && !IsSpace(out[j + 1]) && !IsSpace(out[j + 2]) ==> ks[j + 1] + 1 == ks[j + 2];
        assert j + 4 < |out| && !IsSpace(out[j + 2]) && !IsSpace(out[j + 3]) ==> ks[j + 2] + 1 == ks[j + 3];
        assert j + 4 < |out| && !IsSpace(out[j + 3]) && !IsSpace(out[j + 4]) ==> ks[j + 3] + 1 == ks[j + 4];
        assert MatchesAt(p, out, j) ==> MatchesAt(p, s, k);
    }
  }

  /** Where a greedy `\w*` starting at `i` stops. */
  function WordEnd(s: string, i: nat): (e: nat)
    requires i <= |s|
    ensures i <= e <= |s|
    ensures forall k :: i <= k < e ==> IsWordChar(s[k])
    ensures e == |s| || !IsWordChar(s[e])
    decreases |s| - i
  {
    if i == |s| || !IsWordChar(s[i]) then i else WordEnd(s, i + 1)
  }

  predicate IsWord(w: string) { |w| > 0 && forall k :: 0 <= k < |w| ==> IsWordChar(w[k]) }

  /** `re.findall(r'\w+', s)`: the maximal runs of word characters, in order. */
  function Words(s: string): (ws: seq<string>)
    ensures forall k :: 0 <= k < |ws| ==> IsWord(ws[k])
    decreases |s|
  {
    if s == [] then []
    else if !IsWordChar(s[0]) then Words(s[1..])
    else
      var e := WordEnd(s, 0);
      [s[..e]] + Words(s[e..])
  }

  lemma WordsKeep(s: string, P: char -> bool)
    requires CharsSatisfy(s, P)
    ensures forall k :: 0 <= k < |Words(s)| ==> CharsSatisfy(Words(s)[k], P)
    decreases |s|
  {
    if s == [] {
    } else if !IsWordChar(s[0]) {
      WordsKeep(s[1..], P);
    } else {
      var e := WordEnd(s, 0);
      WordsKeep(s[e..], P);
    }
  }

  /** A non-word character splits the token list: the tokens of `a`, then
      those of `b`. With `Words("") == []` and `WordsOfWordAlone` this pins
      `Words` down on every string. */
  lemma {:induction false} WordsSplit(a: string, c: char, b: string)
    requires !IsWordChar(c)
    ensures Words(a + [c] + b) == Words(a) + Words(b)
    decreases |a|
  {
    var s := a + [c] + b;
    if a == [] {
      assert s[1..] == b;
    } else if !IsWordChar(a[0]) {
      assert s[1..] == a[1..] + [c] + b;
      WordsSplit(a[1..], c, b);
    } else {
      var e := WordEnd(a, 0);
      assert s == a + ([c] + b);
      WordEndBefore(a, [c] + b, 0);
      assert s[..e] == a[..e];
      assert s[e..] == a[e..] + [c] + b;
      WordsSplit(a[e..], c, b);
    }
  }

  /** A run of word characters ends where it ends in `a` when what follows
      `a` starts with a non-word character. */
  lemma {:induction false} WordEndBefore(a: string, t: string, i: nat)
    requires i <= |a| && t != [] && !IsWordChar(t[0])
    ensures WordEnd(a + t, i) == WordEnd(a, i)
    decreases |a| - i
  {
    var s := a + t;
    if i < |a| {
      assert s[i] == a[i];
      if IsWordChar(a[i]) {
        WordEndBefore(a, t, i + 1);
      }
    } else {
      assert s[i] == t[0];
    }
  }

  /** A single word is its own only token. */
  lemma WordsOfWordAlone(w: string)
    requires IsWord(w)
    ensures Words(w) == [w]
  {
    WordsOfWord(w, "");
    assert w + "" == w;
  }

  /** Text made of word characters separated by single spaces, with no
      space at either end: what `' '.join(re.findall(r'\w+', ...))` yields. */
  predicate Clean(s: string) {
    && (forall k :: 0 <= k < |s| ==> IsWordChar(s[k]) || s[k] == ' ')
    && (|s| > 0 ==> s[0] != ' ' && s[|s| - 1] != ' ')
    && (forall k :: 0 <= k < |s| - 1 ==> s[k] != ' ' || s[k + 1] != ' ')
  }

  lemma {:induction false} JoinKeeps(ws: seq<string>, P: char -> bool)
    requires P(' ')
    requires forall k :: 0 <= k < |ws| ==> CharsSatisfy(ws[k], P)
    ensures CharsSatisfy(Join(" ", ws), P)
    decreases |ws|
  {
    if |ws| == 1 {
      assert CharsSatisfy(ws[0], P);
    } else if |ws| > 1 {
      assert forall k :: 0 <= k < |ws[1..]| ==> ws[1..][k] == ws[k + 1];
      JoinKeeps(ws[1..], P);
      var w, t := ws[0], Join(" ", ws[1..]);
      var j := w + " " + t;
      assert Join(" ", ws) == j;
      assert CharsSatisfy(w, P) && CharsSatisfy(t, P);
      forall k | 0 <= k < |j| ensures P(j[k]) {
        if k < |w| {
          assert j[k] == w[k];
        } else if k == |w| {
          assert j[k] == ' ';
        } else {
          assert j[k] == t[k - |w| - 1];
        }
      }
    }
  }

  lemma {:induction false} JoinWordsClean(ws: seq<string>)
    requires forall k :: 0 <= k < |ws| ==> IsWord(ws[k])
    ensures Clean(Join(" ", ws))
    decreases |ws|
  {
    if |ws| == 1 {
      assert Join(" ", ws) == ws[0];
    } else if |ws| > 1 {
      var w := ws[0];
      JoinWordsClean(ws[1..]);
      var t := Join(" ", ws[1..]);
      JoinStartsWithHead(ws[1..]);
      assert |t| > 0 && t[0] != ' ' by { assert t[0] == ws[1][0]; }
      var j := Join(" ", ws);
      assert j == w + " " + t;
      assert forall k :: 0 <= k < |w| ==> j[k] == w[k];
      assert j[|w|] == ' ';
      assert forall k :: |w| < k < |j| ==> j[k] == t[k - |w| - 1];
      assert j[|w| + 1] == t[0];
      assert j[|j| - 1] == t[|t| - 1];
    }
  }

  lemma JoinStartsWithHead(ws: seq<string>)
    requires |ws| > 0
    ensures StartsWith(Join(" ", ws), ws[0])
  {
  }

  /** Tokenising a clean text gives back its words: joining and splitting
      are inverse on lists of words. */
  lemma {:induction false} WordsOfJoin(ws: seq<string>)
    requires forall k :: 0 <= k < |ws| ==> IsWord(ws[k])
    ensures Words(Join(" ", ws)) == ws
    decreases |ws|
  {
    if |ws| == 1 {
      WordsOfWord(ws[0], "");
      assert ws[0] + "" == ws[0];
    } else if |ws| > 1 {
      var t := Join(" ", ws[1..]);
      assert forall k :: 0 <= k < |ws[1..]| ==> ws[1..][k] == ws[k + 1];
      WordsOfJoin(ws[1..]);
      assert IsWord(ws[0]) && (" " + t)[0] == ' ';
      WordsOfWord(ws[0], " " + t);
      assert Join(" ", ws) == ws[0] + (" " + t);
      assert (" " + t)[1..] == t;
    }
  }

  /** A word followed by a non-word character (or nothing) is the first token. */
  lemma WordsOfWord(w: string, rest: string)
    requires IsWord(w)
    requires rest == [] || !IsWordChar(rest[0])
    ensures Words(w + rest) == [w] + Words(if rest == [] then [] else rest[1..])
  {
    var s := w + rest;
    var e := WordEnd(s, 0);
    assert forall k :: 0 <= k < |w| ==> IsWordChar(s[k]);
    assert |w| < |s| ==> s[|w|] == rest[0];
    assert e == |w|;
    assert s[..e] == w;
    assert s[e..] == rest;
  }

  /** Joining the tokens of a clean text rebuilds it, so tokenising is the
      identity on clean text. */
  lemma {:induction false} JoinOfWords(s: string)
    requires Clean(s)
    ensures Join(" ", Words(s)) == s
    decreases |s|
  {
    if s != [] {
      var e := WordEnd(s, 0);
      var w := s[..e];
      assert e > 0;
      assert IsWord(w);
      if e == |s| {
        WordsOfWord(s, "");
        assert s + "" == s;
      } else {
        CleanSplit(s, e);
        var t := s[e + 1..];
        JoinOfWords(t);
        assert s == s[..e] + " " + t;
        JoinOfWordsCons(s[..e], t);
      }
    }
  }

  lemma JoinOfWordsCons(w: string, t: string)
    requires IsWord(w) && t != []
    requires Join(" ", Words(t)) == t
    ensures Join(" ", Words(w + " " + t)) == w + " " + t
  {
    assert |Words(t)| > 0 by { assert Join(" ", Words(t)) != []; }
    WordsOfWordSpace(w, t);
    JoinCons(w, Words(t));
  }

  lemma WordsOfWordSpace(w: string, t: string)
    requires IsWord(w)
    ensures Words(w + " " + t) == [w] + Words(t)
  {
    var s := w + " " + t;
    var e := WordEnd(s, 0);
    assert forall k :: 0 <= k < |w| ==> IsWordChar(s[k]);
    assert s[|w|] == ' ';
    assert e == |w|;
    assert s[..e] == w;
    var u := s[e..];
    assert u == " " + t;
    assert u[1..] == t;
    assert Words(u) == Words(t);
  }

  lemma JoinCons(w: string, rest: seq<string>)
    requires |rest| > 0
    ensures Join(" ", [w] + rest) == w + " " + Join(" ", rest)
  {
    assert ([w] + rest)[1..] == rest;
  }

  /** Cutting a clean text at the space after its first word leaves a clean,
      non-empty remainder. */
  lemma CleanSplit(s: string, e: nat)
    requires Clean(s) && 0 < e < |s|
    requires e == WordEnd(s, 0)
    ensures s[e] == ' '
    ensures var t := s[e + 1..]; Clean(t) && t != [] && t[0] != ' '
  {
    var t := s[e + 1..];
    assert e + 1 < |s|;
    assert s[e + 1] == t[0];
    assert forall k :: 0 <= k < |t| ==> t[k] == s[e + 1 + k];
  }

  /** `' '.join(re.findall(r'\w+', s))`. */
  function Tokenise(s: string): (r: string)
    ensures Clean(r)
    ensures Words(r) == Words(s)
  {
    var ws := Words(s);
    JoinWordsClean(ws);
    WordsOfJoin(ws);
    Join(" ", ws)
  }

  /** Whether `\s+[a-zA-Z]\s+` matches at `i`: a whitespace run, one ASCII
      letter, and at least one more whitespace character. */
  predicate SingleAt(s: string, i: nat)
    requires i <= |s|
  {
    var j := SpaceEnd(s, i);
    i < j && j + 1 < |s| && IsAsciiLetter(s[j]) && IsSpace(s[j + 1])
  }

  /** `re.sub(r'\s+[a-zA-Z]\s+', ' ', s[i..])`: one left-to-right pass; a
      match swallows the whitespace on both sides of the letter. */
  function DropSingles(s: string, i: nat): (r: string)
    requires i <= |s|
    ensures |r| <= |s| - i
    decreases |s| - i
  {
    if i == |s| then ""
    else if SingleAt(s, i) then " " + DropSingles(s, SpaceEnd(s, SpaceEnd(s, i) + 1))
    else [s[i]] + DropSingles(s, i + 1)
  }

  lemma {:induction false} DropSinglesKeeps(s: string, i: nat, P: char -> bool)
    requires i <= |s|
    requires P(' ')
    requires forall k :: i <= k < |s| ==> P(s[k])
    ensures CharsSatisfy(DropSingles(s, i), P)
    decreases |s| - i
  {
    if i < |s| {
      if SingleAt(s, i) {
        DropSinglesKeeps(s, SpaceEnd(s, SpaceEnd(s, i) + 1), P);
      } else {
        DropSinglesKeeps(s, i + 1, P);
      }
    }
  }

  /** A text in which no letter stands alone between whitespace passes
      through the single-letter step unchanged. */
  lemma DropSinglesNoop(s: string, i: nat)
    requires i <= |s|
    requires forall k :: 0 < k < |s| - 1 ==> !(IsSpace(s[k - 1]) && IsAsciiLetter(s[k]) && IsSpace(s[k + 1]))
    ensures DropSingles(s, i) == s[i..]
  {
    forall k | i <= k < |s| ensures !SingleAt(s, k) {
      NoSingleAt(s, k);
    }
    NoMatchKeeps(s, i);
  }

  lemma {:induction false} NoMatchKeeps(s: string, i: nat)
    requires i <= |s|
    requires forall k :: i <= k < |s| ==> !SingleAt(s, k)
    ensures DropSingles(s, i) == s[i..]
    decreases |s| - i
  {
    if i < |s| {
      NoMatchKeeps(s, i + 1);
      assert s[i..] == [s[i]] + s[i + 1..];
    }
  }

  lemma NoSingleAt(s: string, i: nat)
    requires i <= |s|
    requires forall k :: 0 < k < |s| - 1 ==> !(IsSpace(s[k - 1]) && IsAsciiLetter(s[k]) && IsSpace(s[k + 1]))
    ensures !SingleAt(s, i)
  {
    var j := SpaceEnd(s, i);
    if i < j && j + 1 < |s| {
      assert IsSpace(s[j - 1]);
    }
  }

  /** `re.sub(r'\s+', ' ', s)`; `SquashPerPosition` says exactly what it
      yields. */
  function Squash(s: string): (r: string)
    ensures |r| > 0 <==> |s| > 0
    ensures |r| > 0 ==> (r[0] == ' ' <==> IsSpace(s[0]))
    ensures forall k :: 0 <= k < |r| && IsSpace(r[k]) ==> r[k] == ' '
    ensures forall k :: 0 <= k < |r| - 1 ==> r[k] != ' ' || r[k + 1] != ' '
    decreases |s|
  {
    if s == [] then []
    else if IsSpace(s[0]) then " " + Squash(s[SpaceEnd(s, 0)..])
    else [s[0]] + Squash(s[1..])
  }

  /** The collapse keeps every non-whitespace character, in order. */
  lemma {:induction false} SquashNonSpace(s: string)
    ensures NonSpace(Squash(s)) == NonSpace(s)
    decreases |s|
  {
    if s != [] {
      if IsSpace(s[0]) {
        var e := SpaceEnd(s, 0);
        SquashNonSpace(s[e..]);
        NonSpaceSkip(s, e);
        NonSpaceCons(' ', Squash(s[e..]));
      } else {
        SquashNonSpace(s[1..]);
        NonSpaceCons(s[0], Squash(s[1..]));
        NonSpaceCons(s[0], s[1..]);
        assert s == [s[0]] + s[1..];
      }
    }
  }

  /** The whitespace collapse stated position by position: a whitespace
      character right after another one disappears, any other whitespace
      character becomes one space, and every other character stays. */
  function Squashed(s: string, i: nat): string
    requires i <= |s|
    decreases |s| - i
  {
    if i == |s| then ""
    else if IsSpace(s[i]) && i > 0 && IsSpace(s[i - 1]) then Squashed(s, i + 1)
    else [if IsSpace(s[i]) then ' ' else s[i]] + Squashed(s, i + 1)
  }

  /** `Squash` replaces every whitespace run by exactly one space and
      changes nothing else. */
  lemma SquashPerPosition(s: string)
    ensures Squash(s) == Squashed(s, 0)
  {
    SquashFrom(s, 0);
    assert s[0..] == s;
  }

  lemma {:induction false} SquashFrom(s: string, i: nat)
    requires i <= |s|
    requires i == 0 || i == |s| || !IsSpace(s[i - 1]) || !IsSpace(s[i])
    ensures Squash(s[i..]) == Squashed(s, i)
    decreases |s| - i
  {
    if i < |s| {
      if IsSpace(s[i]) {
        var e := SpaceEnd(s, i);
        SquashSpaceRun(s, i);
        SquashedSkips(s, i + 1, e);
        SquashFrom(s, e);
      } else {
        SquashKeepsChar(s, i);
        SquashFrom(s, i + 1);
      }
    }
  }

  /** A suffix that opens with whitespace squashes to one space and the
      squash of what follows the run. */
  lemma SquashSpaceRun(s: string, i: nat)
    requires i < |s| && IsSpace(s[i])
    ensures Squash(s[i..]) == " " + Squash(s[SpaceEnd(s, i)..])
  {
    var t := s[i..];
    var e := SpaceEnd(s, i);
    assert t[0] == s[i];
    SpaceEndShift(s, i, 0);
    assert t[e - i..] == s[e..];
  }

  /** A suffix that opens with a non-space character keeps it. */
  lemma SquashKeepsChar(s: string, i: nat)
    requires i < |s| && !IsSpace(s[i])
    ensures Squash(s[i..]) == [s[i]] + Squash(s[i + 1..])
  {
    var t := s[i..];
    assert t[0] == s[i];
    assert t[1..] == s[i + 1..];
  }

  /** Inside a whitespace run the per-position rule drops every character. */
  lemma {:induction false} SquashedSkips(s: string, j: nat, e: nat)
    requires 0 < j <= e <= |s|
    requires forall k :: j - 1 <= k < e ==> IsSpace(s[k])
    ensures Squashed(s, j) == Squashed(s, e)
    decreases e - j
  {
    if j < e {
      SquashedSkips(s, j + 1, e);
    }
  }

  /** The whitespace run of a suffix, counted from the suffix's start. */
  lemma {:induction false} SpaceEndShift(s: string, i: nat, k: nat)
    requires i + k <= |s|
    ensures SpaceEnd(s[i..], k) == SpaceEnd(s, i + k) - i
    decreases |s| - i - k
  {
    if i + k < |s| {
      assert s[i..][k] == s[i + k];
      if IsSpace(s[i + k]) {
        SpaceEndShift(s, i, k + 1);
      }
    }
  }

  /** On single-spaced text the collapse changes nothing. */
  lemma {:induction false} SquashSingleSpaced(s: string)
    requires SingleSpaced(s)
    ensures Squash(s) == s
    decreases |s|
  {
    if s != [] {
      SliceSingleSpaced(s, 1, |s|);
      if IsSpace(s[0]) {
        assert |s| > 1 ==> s[1] != ' ';
        assert SpaceEnd(s, 0) == 1;
      }
      SquashSingleSpaced(s[1..]);
      assert s == [s[0]] + s[1..];
    }
  }

  lemma {:induction false} SquashKeeps(s: string, P: char -> bool)
    requires P(' ')
    requires forall k :: 0 <= k < |s| && !IsSpace(s[k]) ==> P(s[k])
    ensures CharsSatisfy(Squash(s), P)
    decreases |s|
  {
    if s != [] {
      if IsSpace(s[0]) {
        var e := SpaceEnd(s, 0);
        SquashKeeps(s[e..], P);
      } else {
        SquashKeeps(s[1..], P);
      }
    }
  }

  /** Every whitespace character is a plain space and no two spaces are adjacent. */
  predicate SingleSpaced(s: string) {
    && (forall k :: 0 <= k < |s| && IsSpace(s[k]) ==> s[k] == ' ')
    && (forall k :: 0 <= k < |s| - 1 ==> s[k] != ' ' || s[k + 1] != ' ')
  }

  /** Every slice of a single-spaced text is single-spaced. */
  lemma SliceSingleSpaced(q: string, a: nat, b: nat)
    requires SingleSpaced(q) && a <= b <= |q|
    ensures SingleSpaced(q[a..b])
  {
    var r := q[a..b];
    forall k | 0 <= k < |r| && IsSpace(r[k]) ensures r[k] == ' ' {
      assert r[k] == q[a + k];
    }
    forall k | 0 <= k < |r| - 1 ensures r[k] != ' ' || r[k + 1] != ' ' {
      assert r[k] == q[a + k] && r[k + 1] == q[a + k + 1];
    }
  }

  /** `re.sub(r'\s+', ' ', s).strip()`: every whitespace run becomes one
      space, with none left at either end. */
  function Collapse(s: string): (r: string)
    ensures SingleSpaced(r)
    ensures |r| > 0 ==> r[0] != ' ' && r[|r| - 1] != ' '
    ensures NonSpace(r) == NonSpace(s)
  {
    var q := Squash(s);
    SquashNonSpace(s);
    StripSingleSpaced(q);
    Strip(q)
  }

  /** Stripping single-spaced text leaves it single-spaced, with no space
      at either end, and removes no non-space character. */
  lemma StripSingleSpaced(q: string)
    requires SingleSpaced(q)
    ensures var r := Strip(q);
            && SingleSpaced(r) && NonSpace(r) == NonSpace(q)
            && (|r| > 0 ==> r[0] != ' ' && r[|r| - 1] != ' ')
  {
    SliceSingleSpaced(q, LeadingSpace(q), LeadingSpace(q) + |Strip(q)|);
    StripNonSpace(q);
  }

  /** Clean text passes through the collapse unchanged. */
  lemma CollapseClean(s: string)
    requires Clean(s)
    ensures Collapse(s) == s
  {
    assert SingleSpaced(s);
    SquashSingleSpaced(s);
    StripNoop(s);
  }

  lemma CollapseKeeps(s: string, P: char -> bool)
    requires P(' ')
    requires forall k :: 0 <= k < |s| && !IsSpace(s[k]) ==> P(s[k])
    ensures CharsSatisfy(Collapse(s), P)
  {
    var q := Squash(s);
    SquashKeeps(s, P);
    StripIndex(q);
  }

  /** `s.replace('"', '\\"')`. */
  function EscapeQuotes(s: string): (r: string)
    ensures (forall k :: 0 <= k < |s| ==> s[k] != '"') ==> r == s
    decreases |s|
  {
    if s == [] then []
    else (if s[0] == '"' then "\\\"" else [s[0]]) + EscapeQuotes(s[1..])
  }

  /** The three deletions, mentions first, then hashtags, then URLs. */
  function ScrubAll(s: string): string
  {
    Scrub(Url, Scrub(Hashtag, Scrub(Mention, s, 0), 0), 0)
  }

  lemma ScrubAllNoUpper(s: string)
    requires NoUpper(s)
    ensures NoUpper(ScrubAll(s))
  {
    var P := (c: char) => !IsUpper(c);
    assert CharsSatisfy(s, P);
    var noMentions := Scrub(Mention, s, 0);
    ScrubKeeps(Mention, s, P);
    ScrubKeeps(Hashtag, noMentions, P);
    ScrubKeeps(Url, Scrub(Hashtag, noMentions, 0), P);
  }

  /** Tokenising, the single-letter pass and the whitespace collapse turn
      any text into clean text and introduce no upper-case letter. */
  lemma CleanupStages(s: string)
    ensures var r := Collapse(DropSingles(Tokenise(s), 0)); Clean(r) && (NoUpper(s) ==> NoUpper(r))
  {
    var tokens := Tokenise(s);
    var fewer := DropSingles(tokens, 0);
    var P := (c: char) => !IsUpper(c);
    var W := (c: char) => IsWordChar(c) || c == ' ';
    if NoUpper(s) {
      assert CharsSatisfy(s, P);
      WordsKeep(s, P);
      JoinKeeps(Words(s), P);
      DropSinglesKeeps(tokens, 0, P);
      CollapseKeeps(fewer, P);
    }
    DropSinglesKeeps(tokens, 0, W);
    CollapseKeeps(fewer, W);
  }

  /** The string pipeline of `preprocess_tweet` once the input is known to
      be text: its result is always clean and lower-case. */
  function Normalise(t: string): (r: string)
    ensures Clean(r) && NoUpper(r)
  {
    var scrubbed := ScrubAll(Lower(t));
    ScrubAllNoUpper(Lower(t));
    CleanupStages(scrubbed);
    var c := Collapse(DropSingles(Tokenise(scrubbed), 0));
    CleanUnescaped(c);
    EscapeQuotes(c)
  }

  /** None of the three deletions fires on clean text without an `http` run. */
  lemma ScrubAllNoop(t: string)
    requires Clean(t)
    requires forall m :: 0 <= m < |t| ==> !MatchesAt(Url, t, m)
    ensures ScrubAll(t) == t
  {
    forall m | 0 <= m < |t|
      ensures !MatchesAt(Mention, t, m) && !MatchesAt(Hashtag, t, m)
    {
      assert IsWordChar(t[m]) || t[m] == ' ';
    }
    ScrubNoMatch(Mention, t);
    ScrubNoMatch(Hashtag, t);
    ScrubNoMatch(Url, t);
  }

  /** Text already in normal form comes back unchanged: clean, lower-case,
      with no letter standing alone between two spaces and no `http`
      followed by more word characters. Clean text has no `@` or `#`, so the
      other two deletions cannot fire. */
  lemma NormaliseKeepsNormalText(t: string)
    requires Clean(t) && NoUpper(t)
    requires forall k :: 0 <= k < |t| ==> !SingleAt(t, k)
    requires forall m :: 0 <= m < |t| ==> !MatchesAt(Url, t, m)
    ensures Normalise(t) == t
    ensures Preprocess(Values.Str(t)) == Ok(t)
  {
    LowerNoop(t);
    ScrubAllNoop(t);
    JoinOfWords(t);
    assert Tokenise(t) == t;
    NoMatchKeeps(t, 0);
    assert t[0..] == t;
    CollapseClean(t);
    CleanUnescaped(t);
  }

  /** Clean text holds no double quote, so escaping leaves it alone. */
  lemma CleanUnescaped(c: string)
    requires Clean(c)
    ensures EscapeQuotes(c) == c
  {
    forall k | 0 <= k < |c| ensures c[k] != '"' {
      assert IsWordChar(c[k]) || c[k] == ' ';
    }
  }

  /** `preprocess_tweet` on one cell of the `content` column: a missing or
      NaN cell gives the empty text, a string is normalised, and any other
      value raises `AttributeError` at `tweet.lower()`. */
  function Preprocess(tweet: Values.Value): (r: Result<string>)
    ensures tweet.Null? || tweet.NaN? ==> r == Ok("")
    ensures r.Err? <==> !(tweet.Null? || tweet.NaN? || tweet.Str?)
    ensures r.Ok? ==> Clean(r.value) && NoUpper(r.value)
  {
    match tweet
    case Null => Ok("")
    case NaN => Ok("")
    case Str(t) => Ok(Normalise(t))
    case _ => Err("'" + Values.TypeName(tweet) + "' object has no attribute 'lower'")
  }

  /** `is_valid_tweet`: rejects the empty text, the text `rt`, and any text
      starting with `rt `. */
  predicate IsValidTweet(content: string) {
    content != "" && !(StartsWith(content, "rt ") || content == "rt")
  }

  /** On clean text the filter accepts exactly the texts whose first token
      exists and is not `rt`; so `rtx` passes while `rt` and `rt x` do not. */
  lemma ValidIffFirstTokenNotRt(s: string)
    requires Clean(s)
    ensures IsValidTweet(s) <==> |Words(s)| > 0 && Words(s)[0] != "rt"
  {
    JoinOfWords(s);
    var ws := Words(s);
    if |ws| == 1 {
      assert s == ws[0];
      assert |s| < 3 || s[..3] != "rt " by {
        if |s| >= 3 { assert s[..3][2] == s[2] && s[2] != ' '; }
      }
    } else if |ws| > 1 {
      var w := ws[0];
      assert s == w + " " + Join(" ", ws[1..]);
      assert s[|w|] == ' ';
      assert |w| > 0;
      assert forall k :: 0 <= k < |w| ==> s[k] == w[k] && s[k] != ' ';
      if w == "rt" {
        assert s[..3] == "rt ";
      }
      if StartsWith(s, "rt ") {
        assert s[..3][0] == 'r' && s[..3][1] == 't' && s[..3][2] == ' ';
        assert s[0] == 'r' && s[1] == 't' && s[2] == ' ';
        assert |w| == 2;
        assert w[0] == 'r' && w[1] == 't';
        assert w == "rt";
      }
    }
  }

  /** The filter on the texts it was written for: the empty text, `rt`
      and a retweet header are rejected; `rtx` and a text merely
      containing `rt` later on are kept. */
  lemma RetweetFilterCases()
    ensures !IsValidTweet("") && !IsValidTweet("rt") && !IsValidTweet("rt great news")
    ensures IsValidTweet("rtx") && IsValidTweet("art rt")
  {
    assert "rt great news"[..3] == "rt ";
    assert "rtx"[..3][2] == 'x';
    assert "art rt"[..3][0] == 'a';
  }

  /** The single-letter pass does not reach a fixed point in one step:
      adjacent isolated letters share the space between them, so every
      second one survives and a second pass removes more. */
  lemma SingleLetterPassNotIdempotent()
    ensures DropSingles("x a b c y", 0) == "x b y"
    ensures DropSingles("x b y", 0) == "x y"
  {
    FirstPassExample();
    SecondPassExample();
  }

  lemma FirstPassExample()
    ensures DropSingles("x a b c y", 0) == "x b y"
  {
    var s := "x a b c y";
    assert SpaceEnd(s, 9) == 9 && SpaceEnd(s, 8) == 8 && SpaceEnd(s, 7) == 8;
    assert SpaceEnd(s, 6) == 6 && SpaceEnd(s, 5) == 6 && SpaceEnd(s, 4) == 4;
    assert SpaceEnd(s, 3) == 4 && SpaceEnd(s, 2) == 2 && SpaceEnd(s, 1) == 2 && SpaceEnd(s, 0) == 0;
    assert DropSingles(s, 9) == "";
    assert DropSingles(s, 8) == "y";
    assert DropSingles(s, 5) == " y";
    assert DropSingles(s, 4) == "b y";
    assert DropSingles(s, 1) == " b y";
  }

  lemma SecondPassExample()
    ensures DropSingles("x b y", 0) == "x y"
  {
    var t := "x b y";
    assert SpaceEnd(t, 5) == 5 && SpaceEnd(t, 4) == 4 && SpaceEnd(t, 3) == 4;
    assert SpaceEnd(t, 2) == 2 && SpaceEnd(t, 1) == 2 && SpaceEnd(t, 0) == 0;
    assert DropSingles(t, 5) == "";
    assert DropSingles(t, 4) == "y";
    assert DropSingles(t, 1) == " y";
  }
}
