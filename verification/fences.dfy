/** The code-fence stripping that both agents' responses go through before
    `json.loads`: the analyzer and the reporter use the same two-case rule. */
module Fences {
  import opened Results
  import opened Text

  const Fence := "```"
  const JsonFence := "```json"

  /** The text handed to the JSON parser. With a "```json" fence it is what
      lies between the first "```json" and the next "```", stripped; with
      only plain fences, what lies between the first two, stripped; with no
      fence the response itself, untouched. */
  function Payload(response: string): (p: string)
    ensures !Contains(response, Fence) ==> p == response
    ensures Contains(response, Fence) ==> !Contains(p, Fence)
  {
    if Contains(response, JsonFence) then
      JsonFenceIsFence(response);
      var inner := SplitHead(SplitSecond(response, JsonFence), Fence);
      StripNotContains(inner, Fence);
      Strip(inner)
    else if Contains(response, Fence) then
      var inner := SplitHead(SplitSecond(response, Fence), Fence);
      StripNotContains(inner, Fence);
      Strip(inner)
    else response
  }

  lemma JsonFenceIsFence(s: string)
    ensures Contains(s, JsonFence) ==> Contains(s, Fence)
  {
    ContainsIff(s, JsonFence);
    ContainsIff(s, Fence);
    forall i | OccursAt(s, JsonFence, i)
      ensures OccursAt(s, Fence, i)
    {
      assert s[i..i + 3] == s[i..i + 7][..3];
    }
  }

  /** A fence cannot start inside `body` when `body` holds no fence and
      does not end in a backtick. */
  lemma NoFenceInBody(t: string, body: string)
    requires StartsWith(t, body) && !Contains(body, Fence)
    requires body == [] || body[|body| - 1] != '`'
    ensures forall j :: 0 <= j < |body| ==> !OccursAt(t, Fence, j)
  {
    ContainsIff(body, Fence);
    forall j | 0 <= j < |body|
      ensures !OccursAt(t, Fence, j)
    {
      assert t[..|body|] == body;
      if j + 3 <= |body| {
        assert t[j..j + 3] == body[j..j + 3];
        assert !OccursAt(body, Fence, j);
      } else if j + 3 <= |t| {
        assert t[|body| - 1] == body[|body| - 1];
        assert t[j..j + 3][|body| - 1 - j] == t[|body| - 1];
        assert Fence[|body| - 1 - j] == '`';
      }
    }
  }

  /** Cutting at the first fence after such a `body` gives `body` back. */
  lemma HeadBeforeFence(t: string, body: string)
    requires StartsWith(t, body) && !Contains(body, Fence)
    requires body == [] || body[|body| - 1] != '`'
    requires |t| == |body| || (|body| + 3 <= |t| && t[|body|..|body| + 3] == Fence)
    ensures SplitHead(t, Fence) == body
  {
    NoFenceInBody(t, body);
    if |t| == |body| {
      assert t == body;
    } else {
      FindIs(t, Fence, |body|);
    }
  }

  /** The positions of `body + Fence + post`: the body, then three
      backticks, then the first character of `post`. */
  lemma BodyFenceShape(body: string, post: string)
    ensures var t := body + Fence + post;
            && t[..|body|] == body
            && t[|body|..|body| + 3] == Fence
            && (forall k :: |body| + 3 <= k < |t| ==> t[k] == post[k - |body| - 3])
  {
    var t := body + Fence + post;
    assert t == body + (Fence + post);
  }

  /** A "```json" occurrence is in particular a "```" occurrence. */
  lemma JsonFenceAt(s: string, i: nat)
    requires OccursAt(s, JsonFence, i)
    ensures OccursAt(s, Fence, i) && s[i + 1] == '`' && s[i + 2] == '`'
  {
    assert s[i..i + 3] == s[i..i + 7][..3];
  }

  /** After the "```json" fence, the text up to the next "```json" still
      starts with `body` followed by a fence, or is exactly `body`. A
      backtick right after the closing fence could start a "```json" one or
      two places into it, so `post` must not open with one. */
  lemma JsonHeadShape(after: string, body: string, post: string)
    requires after == body + Fence + post && (post == [] || post[0] != '`')
    requires !Contains(body, Fence) && (body == [] || body[|body| - 1] != '`')
    ensures var h := SplitHead(after, JsonFence);
            StartsWith(h, body) && (|h| == |body| || (|body| + 3 <= |h| && h[|body|..|body| + 3] == Fence))
  {
    BodyFenceShape(body, post);
    NoFenceInBody(after, body);
    var h := SplitHead(after, JsonFence);
    var r := Find(after, JsonFence);
    if r.Some? {
      var i := r.value;
      JsonFenceAt(after, i);
      assert i >= |body|;
      assert i != |body| + 1 && i != |body| + 2 by {
        if post != [] {
          assert after[|body| + 3] == post[0];
        }
      }
      assert h == after[..i];
      if i > |body| {
        assert h[|body|..|body| + 3] == after[|body|..|body| + 3];
      }
    } else {
      assert h == after;
    }
  }

  /** No "```json" can start inside `pre` when `pre` holds none and the
      marker follows it: an occurrence that ran into the marker would need
      an 'n' among the marker's first six characters. */
  lemma NoJsonFenceBefore(s: string, pre: string)
    requires StartsWith(s, pre + JsonFence) && !Contains(pre, JsonFence)
    ensures forall j :: 0 <= j < |pre| ==> !OccursAt(s, JsonFence, j)
  {
    ContainsIff(pre, JsonFence);
    var m := pre + JsonFence;
    assert s[..|m|] == m;
    forall j | 0 <= j < |pre|
      ensures !OccursAt(s, JsonFence, j)
    {
      if j + 7 <= |pre| {
        assert s[j..j + 7] == pre[j..j + 7];
        assert !OccursAt(pre, JsonFence, j);
      } else {
        assert s[j + 6] == m[j + 6] == JsonFence[j + 6 - |pre|];
        assert s[j + 6] != 'n';
        assert s[j..j + 7][6] == s[j + 6];
      }
    }
  }

  /** The opening marker sits right after `pre`, and the text after it is
      the body, the closing fence and `post`. */
  lemma Around(pre: string, mark: string, body: string, post: string)
    ensures var s := pre + mark + body + Fence + post;
            && s[|pre|..|pre| + |mark|] == mark
            && s[|pre| + |mark|..] == body + Fence + post
  {
    var s := pre + mark + body + Fence + post;
    var rest := body + Fence + post;
    assert s == (pre + mark) + rest;
    assert (pre + mark)[|pre|..] == mark;
  }

  /** A response `pre` + "```json" + `body` + "```" + `post` yields
      `body` stripped, whatever text surrounds the fences, as long as `pre`
      holds no "```json" of its own and `post` does not open with a
      backtick. */
  lemma JsonFenceRoundTrip(pre: string, body: string, post: string)
    requires !Contains(pre, JsonFence) && (post == [] || post[0] != '`')
    requires !Contains(body, Fence) && (body == [] || body[|body| - 1] != '`')
    ensures Payload(pre + JsonFence + body + Fence + post) == Strip(body)
  {
    var s := pre + JsonFence + body + Fence + post;
    Around(pre, JsonFence, body, post);
    assert s == (pre + JsonFence) + (body + Fence + post);
    NoJsonFenceBefore(s, pre);
    FindIs(s, JsonFence, |pre|);
    var after := s[|pre| + 7..];
    JsonHeadShape(after, body, post);
    HeadBeforeFence(SplitHead(after, JsonFence), body);
  }

  /** The first fence of `s` is the one right after `pre`. */
  lemma FenceAfter(s: string, pre: string)
    requires !Contains(pre, Fence) && (pre == [] || pre[|pre| - 1] != '`')
    requires OccursAt(s, Fence, |pre|) && StartsWith(s, pre)
    ensures Find(s, Fence) == Some(|pre|)
  {
    NoFenceInBody(s, pre);
    FindIs(s, Fence, |pre|);
  }

  /** With plain fences only, `pre` + "```" + `body` + "```" + `post`
      yields `body` stripped, as long as `pre` holds no fence and does not
      end in a backtick. */
  lemma PlainFenceRoundTrip(pre: string, body: string, post: string)
    requires !Contains(pre, Fence) && (pre == [] || pre[|pre| - 1] != '`')
    requires !Contains(body, Fence) && (body == [] || body[|body| - 1] != '`')
    requires !Contains(pre + Fence + body + Fence + post, JsonFence)
    ensures Payload(pre + Fence + body + Fence + post) == Strip(body)
  {
    var s := pre + Fence + body + Fence + post;
    Around(pre, Fence, body, post);
    FenceAfter(s, pre);
    var after := s[|pre| + 3..];
    assert SplitSecond(s, Fence) == SplitHead(after, Fence);
    HeadBeforeFence(after, body);
    HeadBeforeFence(body, body);
    assert Payload(s) == Strip(SplitHead(body, Fence));
  }
}
