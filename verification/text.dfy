/** Character classes and the handful of Python `str` operations the
    pipeline relies on: `strip()`, `in`, `startswith`, `split(sep)[k]` and
    `sep.join(parts)`. */
module Text {
  import opened Results

  /** Python's `str.isspace()`, which is also what `\s` matches in a `str`
      pattern and what `strip()` removes. */
  predicate IsSpace(c: char) {
    var n := c as int;
    (9 <= n <= 13) || (28 <= n <= 32) || n == 0x85 || n == 0xA0 || n == 0x1680
    || (0x2000 <= n <= 0x200A) || n == 0x2028 || n == 0x2029 || n == 0x202F
    || n == 0x205F || n == 0x3000
  }

  predicate IsAsciiLetter(c: char) { 'a' <= c <= 'z' || 'A' <= c <= 'Z' }

  predicate IsUpper(c: char) { 'A' <= c <= 'Z' }

  /** The regex class `\w`, restricted to ASCII. */
  predicate IsWordChar(c: char) { IsAsciiLetter(c) || '0' <= c <= '9' || c == '_' }

  /** `str.lower()` on one character, restricted to ASCII. */
  function LowerChar(c: char): (d: char)
    ensures !IsUpper(d)
    ensures IsWordChar(d) <==> IsWordChar(c)
    ensures IsSpace(d) <==> IsSpace(c)
    ensures !IsUpper(c) ==> d == c
  {
    if IsUpper(c) then (c as int + 32) as char else c
  }

  predicate NoUpper(s: string) { forall i :: 0 <= i < |s| ==> !IsUpper(s[i]) }

  /** `str.lower()`. */
  function Lower(s: string): (r: string)
    ensures |r| == |s|
    ensures NoUpper(r)
    ensures forall i :: 0 <= i < |s| ==> r[i] == LowerChar(s[i])
  {
    seq(|s|, i requires 0 <= i < |s| => LowerChar(s[i]))
  }

  /** Lower-casing text without upper-case letters changes nothing. */
  lemma LowerNoop(s: string)
    requires NoUpper(s)
    ensures Lower(s) == s
  {
    assert forall i :: 0 <= i < |s| ==> Lower(s)[i] == s[i];
  }

  predicate AllSpace(s: string) { forall i :: 0 <= i < |s| ==> IsSpace(s[i]) }

  /** Where the whitespace run starting at `i` ends. */
  function SpaceEnd(s: string, i: nat): (e: nat)
    requires i <= |s|
    ensures i <= e <= |s|
    ensures forall k :: i <= k < e ==> IsSpace(s[k])
    ensures e == |s| || !IsSpace(s[e])
    decreases |s| - i
  {
    if i == |s| || !IsSpace(s[i]) then i else SpaceEnd(s, i + 1)
  }

  /** Where the whitespace run that ends just before `j` starts, going no
      further back than `lo`. */
  function SpaceStart(s: string, lo: nat, j: nat): (b: nat)
    requires lo <= j <= |s|
    ensures lo <= b <= j
    ensures forall k :: b <= k < j ==> IsSpace(s[k])
    ensures b == lo || !IsSpace(s[b - 1])
    decreases j
  {
    if j == lo || !IsSpace(s[j - 1]) then j else SpaceStart(s, lo, j - 1)
  }

  /** How many whitespace characters `str.strip()` removes at the front. */
  function LeadingSpace(s: string): (n: nat)
    ensures n <= |s|
  {
    SpaceEnd(s, 0)
  }

  /** `str.strip()`: the text between the leading and the trailing
      whitespace. */
  function Strip(s: string): (r: string)
    ensures r == [] || (!IsSpace(r[0]) && !IsSpace(r[|r| - 1]))
    ensures LeadingSpace(s) + |r| <= |s|
    ensures r == s[LeadingSpace(s)..LeadingSpace(s) + |r|]
    ensures AllSpace(s[..LeadingSpace(s)]) && AllSpace(s[LeadingSpace(s) + |r|..])
  {
    var a := SpaceEnd(s, 0);
    var b := SpaceStart(s, a, |s|);
    var r := s[a..b];
    assert forall k :: 0 <= k < |s[..a]| ==> s[..a][k] == s[k];
    assert forall k :: 0 <= k < |s[b..]| ==> s[b..][k] == s[b + k];
    assert r != [] ==> r[0] == s[a] && r[|r| - 1] == s[b - 1];
    r
  }

  /** Each character of the stripped string sits `LeadingSpace(s)` places
      further on in `s`. */
  lemma StripIndex(s: string)
    ensures forall k :: 0 <= k < |Strip(s)| ==> Strip(s)[k] == s[LeadingSpace(s) + k]
  {
    var r, a := Strip(s), LeadingSpace(s);
    forall k | 0 <= k < |r| ensures r[k] == s[a + k] {
      assert r[k] == s[a..a + |r|][k];
    }
  }

  /** Stripping yields the empty string exactly when the input is all whitespace. */
  lemma StripEmptyIff(s: string)
    ensures Strip(s) == [] <==> AllSpace(s)
  {
    var a := SpaceEnd(s, 0);
    var b := SpaceStart(s, a, |s|);
    assert Strip(s) == s[a..b];
    if AllSpace(s) {
      assert a == |s|;
    }
    if a == b {
      assert forall k :: 0 <= k < |s| ==> IsSpace(s[k]);
    }
  }

  /** Stripping a string without leading or trailing whitespace changes nothing. */
  lemma StripNoop(s: string)
    requires s == [] || (!IsSpace(s[0]) && !IsSpace(s[|s| - 1]))
    ensures Strip(s) == s
  {
    assert s[0..|s|] == s;
  }

  predicate StartsWith(s: string, p: string) { |p| <= |s| && s[..|p|] == p }

  predicate OccursAt(s: string, pat: string, i: int) {
    0 <= i && i + |pat| <= |s| && s[i..i + |pat|] == pat
  }

  /** The first index at or after `from` where `pat` occurs, as `str.find`. */
  function FindFrom(s: string, pat: string, from: nat): (r: Option<nat>)
    ensures r.Some? ==> from <= r.value && OccursAt(s, pat, r.value)
    ensures r.Some? ==> forall j :: from <= j < r.value ==> !OccursAt(s, pat, j)
    ensures r.None? ==> forall j :: from <= j ==> !OccursAt(s, pat, j)
    decreases |s| - from
  {
    if from + |pat| > |s| then None
    else if s[from..from + |pat|] == pat then Some(from)
    else FindFrom(s, pat, from + 1)
  }

  function Find(s: string, pat: string): Option<nat> { FindFrom(s, pat, 0) }

  /** Python's `pat in s`. */
  predicate Contains(s: string, pat: string) { Find(s, pat).Some? }

  lemma ContainsIff(s: string, pat: string)
    ensures Contains(s, pat) <==> exists i :: OccursAt(s, pat, i)
  {
  }

  /** An occurrence with none before it is the one `str.find` reports. */
  lemma FindIs(s: string, pat: string, i: nat)
    requires OccursAt(s, pat, i)
    requires forall j :: 0 <= j < i ==> !OccursAt(s, pat, j)
    ensures Find(s, pat) == Some(i)
  {
  }

  /** A slice of a string that does not contain `pat` does not contain it either. */
  lemma NotContainsSlice(s: string, pat: string, a: nat, b: nat)
    requires !Contains(s, pat) && a <= b <= |s|
    ensures !Contains(s[a..b], pat)
  {
    ContainsIff(s, pat);
    ContainsIff(s[a..b], pat);
    forall j | OccursAt(s[a..b], pat, j)
      ensures OccursAt(s, pat, a + j)
    {
      var u, v := s[a..b][j..j + |pat|], s[a + j..a + j + |pat|];
      assert forall k :: 0 <= k < |pat| ==> u[k] == v[k];
      assert u == v;
    }
  }

  lemma StripNotContains(s: string, pat: string)
    ensures !Contains(s, pat) ==> !Contains(Strip(s), pat)
  {
    if !Contains(s, pat) {
      NotContainsSlice(s, pat, LeadingSpace(s), LeadingSpace(s) + |Strip(s)|);
    }
  }

  /** `s.split(sep)[0]`: everything before the first occurrence of `sep`. */
  function SplitHead(s: string, sep: string): (r: string)
    requires |sep| > 0
    ensures !Contains(r, sep)
    ensures StartsWith(s, r)
    ensures !Contains(s, sep) ==> r == s
    ensures Contains(s, sep) ==> OccursAt(s, sep, |r|) && forall j :: 0 <= j < |r| ==> !OccursAt(s, sep, j)
  {
    match Find(s, sep)
    case None => s
    case Some(i) =>
      var r := s[..i];
      assert forall j :: OccursAt(r, sep, j) ==> OccursAt(s, sep, j);
      r
  }

  /** An occurrence in the suffix `s[a..]` is an occurrence in `s`, `a`
      places further on. */
  lemma OccursInSuffix(s: string, pat: string, a: nat)
    requires a <= |s|
    ensures forall j :: 0 <= j ==> (OccursAt(s[a..], pat, j) <==> OccursAt(s, pat, a + j))
  {
    forall j | 0 <= j
      ensures OccursAt(s[a..], pat, j) <==> OccursAt(s, pat, a + j)
    {
      if j + |pat| <= |s| - a {
        assert s[a..][j..j + |pat|] == s[a + j..a + j + |pat|];
      }
    }
  }

  /** `s.split(sep)[1]`: the text between the first and the second
      occurrence of `sep`, or to the end when there is no second one. Python
      raises `IndexError` when `sep` does not occur; the callers test for it. */
  function SplitSecond(s: string, sep: string): (r: string)
    requires |sep| > 0 && Contains(s, sep)
    ensures !Contains(r, sep)
    ensures UpToNext(s, sep, Find(s, sep).value + |sep|, r)
  {
    var a := Find(s, sep).value + |sep|;
    HeadOfSuffix(s, sep, a);
    SplitHead(s[a..], sep)
  }

  /** `r` is the text of `s` from `a` up to the next occurrence of `sep`,
      or to the end when there is none. */
  predicate UpToNext(s: string, sep: string, a: nat, r: string) {
    && a + |r| <= |s| && r == s[a..a + |r|]
    && (a + |r| == |s| || OccursAt(s, sep, a + |r|))
    && forall j :: a <= j < a + |r| ==> !OccursAt(s, sep, j)
  }

  /** Where the head of the suffix `s[a..]` sits in `s`. */
  lemma HeadOfSuffix(s: string, sep: string, a: nat)
    requires |sep| > 0 && a <= |s|
    ensures UpToNext(s, sep, a, SplitHead(s[a..], sep))
  {
    var t := s[a..];
    var r := SplitHead(t, sep);
    OccursInSuffix(s, sep, a);
    assert r == t[..|r|];
    forall j | a <= j < a + |r|
      ensures !OccursAt(s, sep, j)
    {
      assert !OccursAt(t, sep, j - a);
    }
  }

  /** Python's `sep.join(parts)`. */
  function Join(sep: string, parts: seq<string>): string
    decreases |parts|
  {
    if |parts| == 0 then ""
    else if |parts| == 1 then parts[0]
    else parts[0] + sep + Join(sep, parts[1..])
  }

  /** `"".join(parts)`. */
  function Concat(parts: seq<string>): string
    decreases |parts|
  {
    if |parts| == 0 then "" else parts[0] + Concat(parts[1..])
  }

  /** `s * n` for a string and a non-negative count. */
  function Repeat<T>(s: seq<T>, n: nat): (r: seq<T>)
    ensures |r| == |s| * n
    ensures n > 0 ==> r[..|s|] == s
  {
    if n == 0 then [] else s + Repeat(s, n - 1)
  }

  /** The characters of `s` that are not whitespace, in order. */
  function NonSpace(s: string): string
    decreases |s|
  {
    if s == [] then [] else (if IsSpace(s[0]) then [] else [s[0]]) + NonSpace(s[1..])
  }

  lemma NonSpaceCons(c: char, x: string)
    ensures NonSpace([c] + x) == (if IsSpace(c) then [] else [c]) + NonSpace(x)
  {
    assert ([c] + x)[1..] == x;
  }

  /** Leading whitespace contributes nothing. */
  lemma {:induction false} NonSpaceSkip(s: string, e: nat)
    requires e <= |s| && forall k :: 0 <= k < e ==> IsSpace(s[k])
    ensures NonSpace(s) == NonSpace(s[e..])
    decreases e
  {
    if e > 0 {
      assert forall k :: 0 <= k < e - 1 ==> s[1..][k] == s[k + 1];
      NonSpaceSkip(s[1..], e - 1);
      assert s[1..][e - 1..] == s[e..];
    }
  }

  lemma {:induction false} NonSpaceAppend(x: string, y: string)
    ensures NonSpace(x + y) == NonSpace(x) + NonSpace(y)
    decreases |x|
  {
    if x == [] {
      assert x + y == y;
    } else {
      assert (x + y)[0] == x[0] && (x + y)[1..] == x[1..] + y;
      NonSpaceAppend(x[1..], y);
    }
  }

  /** Stripping removes only whitespace. */
  lemma StripNonSpace(q: string)
    ensures NonSpace(Strip(q)) == NonSpace(q)
  {
    var a, r := LeadingSpace(q), Strip(q);
    var b := a + |r|;
    var x, y := q[..a], q[b..];
    assert q == x + r + y by {
      assert q == q[..a] + q[a..b] + q[b..];
    }
    NonSpaceAppend(x + r, y);
    NonSpaceAppend(x, r);
    AllSpaceNonSpace(x);
    AllSpaceNonSpace(y);
  }

  lemma AllSpaceNonSpace(x: string)
    requires AllSpace(x)
    ensures NonSpace(x) == []
  {
    NonSpaceSkip(x, |x|);
    assert x[|x|..] == [];
  }
}
