/**
 Recovering the recommendation payload from the generator's free-form reply.
 The reply is searched for the first fenced block tagged `json`, then for the
 first fenced block of any kind, and otherwise used whole; the chosen text is
 trimmed and decoded, and a fixed fallback payload replaces anything that does
 not decode. Decoding itself is a parameter: the model fixes only where the
 candidate text is taken from and what happens when decoding fails.
 */
module Extraction {
  import opened Wrappers

  /** A decoded JSON value; numbers keep their literal text. */
  datatype Json =
    | JNull
    | JBool(b: bool)
    | JNumber(literal: string)
    | JString(s: string)
    | JArray(items: seq<Json>)
    | JObject(fields: seq<(string, Json)>)

  /** Opening fence of a block tagged `json`. */
  const JsonFence: string := "```json"

  /** A bare fence: opens an untagged block and closes any block. */
  const Fence: string := "```"

  /**
   White space as JavaScript's `trim` and the regular-expression class `\s`
   both define it: the WhiteSpace and LineTerminator code points of ECMAScript.
   */
  predicate IsSpace(c: char)
  {
    var n := c as int;
    || 0x09 <= n <= 0x0D
    || n == 0x20 || n == 0xA0 || n == 0x1680
    || 0x2000 <= n <= 0x200A
    || n == 0x2028 || n == 0x2029 || n == 0x202F || n == 0x205F
    || n == 0x3000 || n == 0xFEFF
  }

  predicate AllSpace(s: string)
  {
    forall i :: 0 <= i < |s| ==> IsSpace(s[i])
  }

  /** `s` neither starts nor ends with white space. */
  predicate Trimmed(s: string)
  {
    s == [] || (!IsSpace(s[0]) && !IsSpace(s[|s| - 1]))
  }

  function TrimStart(s: string): (r: string)
    ensures |r| <= |s| && r == s[|s| - |r|..]
    ensures forall i :: 0 <= i < |s| - |r| ==> IsSpace(s[i])
    ensures r == [] || !IsSpace(r[0])
  {
    if s != [] && IsSpace(s[0]) then
      var r := TrimStart(s[1..]);
      assert s[1..][|s| - 1 - |r|..] == s[|s| - |r|..];
      assert forall i :: 1 <= i < |s| - |r| ==> s[i] == s[1..][i - 1];
      r
    else s
  }

  function TrimEnd(s: string): (r: string)
    ensures |r| <= |s| && r == s[..|r|]
    ensures forall i :: |r| <= i < |s| ==> IsSpace(s[i])
    ensures r == [] || !IsSpace(r[|r| - 1])
  {
    if s != [] && IsSpace(s[|s| - 1]) then TrimEnd(s[..|s| - 1]) else s
  }

  /** Length of the white space that `Trim` cuts from the front of `s`. */
  function TrimOffset(s: string): nat
  {
    |s| - |TrimStart(s)|
  }

  /** `s` without its leading and trailing white space. */
  function Trim(s: string): (r: string)
    ensures Trimmed(r)
    ensures var i := TrimOffset(s);
      && i + |r| <= |s| && r == s[i..i + |r|]
      && AllSpace(s[..i]) && AllSpace(s[i + |r|..])
  {
    var t := TrimStart(s);
    var r := TrimEnd(t);
    TrimSlice(s, t, r);
    r
  }

  lemma TrimSlice(s: string, t: string, r: string)
    requires |t| <= |s| && t == s[|s| - |t|..] && forall i :: 0 <= i < |s| - |t| ==> IsSpace(s[i])
    requires |r| <= |t| && r == t[..|r|] && forall i :: |r| <= i < |t| ==> IsSpace(t[i])
    ensures var i := |s| - |t|;
      0 <= i <= |s| - |r| && r == s[i..i + |r|] && AllSpace(s[..i]) && AllSpace(s[i + |r|..])
  {
    var i := |s| - |t|;
    assert s[i + |r|..] == t[|r|..];
  }

  /** `pat` occurs in `text` starting at position `k`. */
  predicate OccursAt(text: string, pat: string, k: nat)
  {
    k + |pat| <= |text| && text[k..k + |pat|] == pat
  }

  /** The first position at or after `from` where `pat` occurs in `text`, if any. */
  function FindFrom(text: string, pat: string, from: nat): (r: Option<nat>)
    decreases |text| - from
    ensures r.Some? ==> from <= r.value && OccursAt(text, pat, r.value)
    ensures r.Some? ==> forall k :: from <= k < r.value ==> !OccursAt(text, pat, k)
    ensures r.None? ==> forall k :: from <= k ==> !OccursAt(text, pat, k)
  {
    if from + |pat| > |text| then None
    else if text[from..from + |pat|] == pat then Some(from)
    else FindFrom(text, pat, from + 1)
  }

  /**
   The text between the first occurrence of `open` and the first bare fence
   after it, or None when either is missing. Any white space the pattern's
   `\s*` would skip on either side of the captured text is removed by the
   trimming that follows, so the capture is not narrowed here.
   */
  function FencedBody(text: string, open: string): (r: Option<string>)
    ensures r.Some? <==> HasBlock(text, open)
    ensures r.Some? ==>
      var p := FindFrom(text, open, 0).value + |open|;
      var q := FindFrom(text, Fence, p).value;
      p <= q <= |text| && r.value == text[p..q]
  {
    match FindFrom(text, open, 0)
    case None => None
    case Some(p) =>
      match FindFrom(text, Fence, p + |open|)
      case None => None
      case Some(q) => Some(text[p + |open|..q])
  }

  /** The trimmed text handed to the decoder: json-tagged block, else any block, else the whole reply. */
  function Candidate(text: string): string
  {
    match FencedBody(text, JsonFence)
    case Some(body) => Trim(body)
    case None =>
      match FencedBody(text, Fence)
      case Some(body) => Trim(body)
      case None => Trim(text)
  }

  /** The payload stored and returned when the reply does not decode. */
  const Fallback: Json := JObject([
    ("assessment", JString("We couldn't analyze your eye health data properly. Please try again later.")),
    ("recommendations", JArray([
      JString("Take regular breaks from screen time"),
      JString("Practice the 20-20-20 rule"),
      JString("Ensure proper lighting")])),
    ("lifestyleAdjustments", JArray([
      JString("Maintain good posture"),
      JString("Stay hydrated"),
      JString("Ensure adequate sleep")]))
  ])

  /**
   The first `open` in `text` is followed, at or after its end, by a bare
   fence: the pattern opened by `open` matches somewhere in `text`. A later
   `open` cannot help when the first one is unclosed, as any fence after the
   later one also follows the first.
   */
  predicate HasBlock(text: string, open: string)
  {
    var p := FindFrom(text, open, 0);
    p.Some? && FindFrom(text, Fence, p.value + |open|).Some?
  }

  /** What the decoder makes of `s`, or the fallback whenever it rejects `s`. */
  function Decoded(s: string, parse: string -> Option<Json>): Json
  {
    match parse(s)
    case Some(j) => j
    case None => Fallback
  }

  /**
   The payload recovered from a generator reply. It is total and goes by
   stages: the trimmed body of the first closed `json`-tagged block, else of
   the first closed block of any kind, else the whole trimmed reply, is
   decoded, with the fallback whenever the decoder rejects it. Any JSON value
   the decoder accepts is taken; no field is checked.
   */
  function Extract(text: string, parse: string -> Option<Json>): (r: Json)
    ensures HasBlock(text, JsonFence) ==>
      var p := FindFrom(text, JsonFence, 0).value + |JsonFence|;
      var q := FindFrom(text, Fence, p).value;
      p <= q <= |text| && r == Decoded(Trim(text[p..q]), parse)
    ensures !HasBlock(text, JsonFence) && HasBlock(text, Fence) ==>
      var p := FindFrom(text, Fence, 0).value + |Fence|;
      var q := FindFrom(text, Fence, p).value;
      p <= q <= |text| && r == Decoded(Trim(text[p..q]), parse)
    ensures !HasBlock(text, Fence) ==> r == Decoded(Trim(text), parse)
  {
    JsonStage(text);
    UntaggedStage(text);
    WholeStage(text);
    Decoded(Candidate(text), parse)
  }

  lemma JsonStage(text: string)
    ensures HasBlock(text, JsonFence) ==>
      var p := FindFrom(text, JsonFence, 0).value + |JsonFence|;
      var q := FindFrom(text, Fence, p).value;
      p <= q <= |text| && Candidate(text) == Trim(text[p..q])
  {
    var b := FencedBody(text, JsonFence);
  }

  lemma UntaggedStage(text: string)
    ensures !HasBlock(text, JsonFence) && HasBlock(text, Fence) ==>
      var p := FindFrom(text, Fence, 0).value + |Fence|;
      var q := FindFrom(text, Fence, p).value;
      p <= q <= |text| && Candidate(text) == Trim(text[p..q])
  {
    var a := FencedBody(text, JsonFence);
    var b := FencedBody(text, Fence);
  }

  lemma WholeStage(text: string)
    ensures !HasBlock(text, Fence) ==> Candidate(text) == Trim(text)
  {
    JsonBlockIsBlock(text);
    var a := FencedBody(text, JsonFence);
    var b := FencedBody(text, Fence);
  }

  /** A closed `json`-tagged block is also a closed block of the untagged pattern. */
  lemma JsonBlockIsBlock(text: string)
    ensures HasBlock(text, JsonFence) ==> HasBlock(text, Fence)
  {
    var p := FindFrom(text, JsonFence, 0);
    if p.Some? && FindFrom(text, Fence, p.value + |JsonFence|).Some? {
      var q := FindFrom(text, Fence, p.value + |JsonFence|).value;
      assert text[p.value..p.value + |Fence|] == text[p.value..p.value + |JsonFence|][..|Fence|];
      assert OccursAt(text, Fence, p.value);
      var p0 := FindFrom(text, Fence, 0).value;
      assert OccursAt(text, Fence, q) && p0 + |Fence| <= q;
    }
  }

  // ----- Facts about trimming and searching -----

  lemma {:induction false} TrimStartPadded(pre: string, t: string)
    requires AllSpace(pre)
    requires t == [] || !IsSpace(t[0])
    ensures TrimStart(pre + t) == t
  {
    if pre != [] {
      assert (pre + t)[0] == pre[0];
      assert (pre + t)[1..] == pre[1..] + t;
      TrimStartPadded(pre[1..], t);
    } else {
      assert pre + t == t;
    }
  }

  lemma {:induction false} TrimEndPadded(t: string, post: string)
    requires AllSpace(post)
    requires t == [] || !IsSpace(t[|t| - 1])
    ensures TrimEnd(t + post) == t
  {
    if post != [] {
      var s := t + post;
      assert s[|s| - 1] == post[|post| - 1];
      assert s[..|s| - 1] == t + post[..|post| - 1];
      TrimEndPadded(t, post[..|post| - 1]);
    } else {
      assert t + post == t;
    }
  }

  /** Trimming removes exactly the white-space padding around a trimmed text. */
  lemma TrimPadded(pre: string, body: string, post: string)
    requires AllSpace(pre) && AllSpace(post) && Trimmed(body)
    ensures Trim(pre + body + post) == body
  {
    if body == [] {
      assert pre + body + post == pre + post;
      TrimStartPadded(pre + post, []);
      assert pre + post + [] == pre + post;
    } else {
      assert pre + body + post == pre + (body + post);
      TrimStartPadded(pre, body + post);
      TrimEndPadded(body, post);
    }
  }

  lemma OccursAtShift(u: string, v: string, pat: string, k: nat)
    ensures OccursAt(u + v, pat, |u| + k) <==> OccursAt(v, pat, k)
  {
    if k + |pat| <= |v| {
      assert (u + v)[|u| + k..|u| + k + |pat|] == v[k..k + |pat|];
    }
  }

  lemma OccursAtPrefix(u: string, v: string, pat: string, k: nat)
    requires k + |pat| <= |u|
    ensures OccursAt(u + v, pat, k) <==> OccursAt(u, pat, k)
  {
    assert (u + v)[k..k + |pat|] == u[k..k + |pat|];
  }

  /** `inner` holds no bare fence, not even one that would run into a fence placed after it. */
  predicate FenceFree(inner: string)
  {
    forall k :: 0 <= k < |inner| ==> !OccursAt(inner + Fence, Fence, k)
  }

  /**
   In `text == lead + inner + "```" + rest`, the first bare fence at or after
   `|lead|` is the one right after `inner` when `inner` is fence-free.
   */
  lemma FindClosingFence(text: string, lead: string, inner: string, rest: string)
    requires text == lead + inner + Fence + rest
    requires FenceFree(inner)
    ensures FindFrom(text, Fence, |lead|) == Some(|lead| + |inner|)
  {
    OpenFenceAt(text, lead + inner, Fence, rest);
    NoFenceBefore(text, lead, inner, rest);
  }

  lemma NoFenceBefore(text: string, lead: string, inner: string, rest: string)
    requires text == lead + inner + Fence + rest
    requires FenceFree(inner)
    ensures forall k :: |lead| <= k < |lead| + |inner| ==> !OccursAt(text, Fence, k)
  {
    var tail := inner + Fence + rest;
    assert text == lead + tail;
    assert tail == (inner + Fence) + rest;
    forall k | |lead| <= k < |lead| + |inner|
      ensures !OccursAt(text, Fence, k)
    {
      var j := k - |lead|;
      OccursAtShift(lead, tail, Fence, j);
      OccursAtPrefix(inner + Fence, rest, Fence, j);
    }
  }

  /** When `pat` occurs at `p` and nowhere before it, the search from the start finds `p`. */
  lemma FindFirst(text: string, pat: string, p: nat)
    requires OccursAt(text, pat, p)
    requires forall k :: 0 <= k < p ==> !OccursAt(text, pat, k)
    ensures FindFrom(text, pat, 0) == Some(p)
  {
  }

  /** An opening fence written right after `pre` occurs at position `|pre|`. */
  lemma OpenFenceAt(text: string, pre: string, open: string, rest: string)
    requires text == pre + open + rest
    ensures OccursAt(text, open, |pre|)
  {
    assert text[|pre|..|pre| + |open|] == open;
  }

  /** The block body recovered from `lead + inner + "```" + rest` starting after `lead`. */
  lemma BodyAt(text: string, lead: string, inner: string, rest: string)
    requires text == lead + inner + Fence + rest
    ensures |lead| + |inner| <= |text| && text[|lead|..|lead| + |inner|] == inner
  {
  }

  /**
   In `pre + open + inner + "```" + post`, with no `open` starting inside
   `pre` and no fence inside `inner`, the block found is exactly `inner`.
   */
  lemma FirstBlock(text: string, pre: string, open: string, inner: string, post: string)
    requires text == pre + open + inner + Fence + post
    requires forall k :: 0 <= k < |pre| ==> !OccursAt(text, open, k)
    requires FenceFree(inner)
    ensures FencedBody(text, open) == Some(inner)
  {
    var lead := pre + open;
    assert text == pre + open + (inner + Fence + post);
    OpenFenceAt(text, pre, open, inner + Fence + post);
    FindFirst(text, open, |pre|);
    assert text == lead + inner + Fence + post;
    FindClosingFence(text, lead, inner, post);
    BodyAt(text, lead, inner, post);
  }

  /**
   Precedence and recovery of the `json`-tagged block: in
   `pre + "```json" + inner + "```" + post`, where no `json`-tagged fence
   starts inside `pre` and `inner` holds no fence, the decoder gets exactly
   the trimmed `inner`, whatever untagged blocks `pre` or `post` hold.
   */
  lemma JsonBlockWins(text: string, pre: string, inner: string, post: string)
    requires text == pre + JsonFence + inner + Fence + post
    requires forall k :: 0 <= k < |pre| ==> !OccursAt(text, JsonFence, k)
    requires FenceFree(inner)
    ensures Candidate(text) == Trim(inner)
  {
    FirstBlock(text, pre, JsonFence, inner, post);
  }

  /**
   The untagged block is used whenever the `json`-tagged pattern finds no
   closed block, even when an unclosed `json` fence appears after it: in `pre + "```" + inner + "```" + post` with no fence inside `pre`
   or `inner`, the decoder gets exactly the trimmed `inner`.
   */
  lemma UntaggedBlockSecond(text: string, pre: string, inner: string, post: string)
    requires text == pre + Fence + inner + Fence + post
    requires !HasBlock(text, JsonFence)
    requires forall k :: 0 <= k < |pre| ==> !OccursAt(text, Fence, k)
    requires FenceFree(inner)
    ensures Candidate(text) == Trim(inner)
  {
    FirstBlock(text, pre, Fence, inner, post);
  }

  /**
   A reply in which no fence is followed by another, such as one with a
   single stray or unclosed fence, is decoded whole, after trimming.
   */
  lemma NoFenceWholeText(text: string, parse: string -> Option<Json>)
    requires !HasBlock(text, Fence)
    ensures Candidate(text) == Trim(text)
    ensures Extract(text, parse) == Decoded(Trim(text), parse)
  {
    WholeStage(text);
  }

  /** An unclosed `json` fence after an untagged block leaves that block to the second pattern. */
  lemma UnclosedJsonFenceFallsThrough()
    ensures Candidate("```a``````json x") == "a"
  {
    var text := "```a``````json x";
    UnclosedJsonFenceShape(text);
    UnclosedJsonFenceNoBlock(text);
    FenceFreeLetter();
    UntaggedBlockSecond(text, [], "a", "```json x");
    TrimLetter();
  }

  lemma TrimLetter()
    ensures Trim("a") == "a"
  {
    TrimPadded([], "a", []);
    assert [] + "a" + [] == "a";
  }

  lemma UnclosedJsonFenceShape(text: string)
    requires text == "```a``````json x"
    ensures text == [] + Fence + "a" + Fence + "```json x"
  {
  }

  lemma UnclosedJsonFenceNoBlock(text: string)
    requires text == "```a``````json x"
    ensures !HasBlock(text, JsonFence)
  {
    forall k | 0 <= k < 7
      ensures !OccursAt(text, JsonFence, k)
    {
      assert text[k + 3] != JsonFence[3];
    }
    assert OccursAt(text, JsonFence, 7) by { assert text[7..14] == JsonFence; }
    FindFirst(text, JsonFence, 7);
  }

  lemma FenceFreeLetter()
    ensures FenceFree("a")
  {
    assert ("a" + Fence)[0] == 'a';
  }

  /** A reply with a single stray fence is decoded whole. */
  lemma StrayFenceDecodedWhole()
    ensures Candidate(" x```y ") == "x```y"
  {
    var text := " x```y ";
    StrayFenceNoBlock(text);
    WholeStage(text);
    StrayFenceTrim(text, "x```y");
  }

  lemma StrayFenceNoBlock(text: string)
    requires text == " x```y "
    ensures !HasBlock(text, Fence)
  {
    assert !OccursAt(text, Fence, 0) by { assert text[0] != Fence[0]; }
    assert !OccursAt(text, Fence, 1) by { assert text[1] != Fence[0]; }
    assert OccursAt(text, Fence, 2) by { assert text[2..5] == Fence; }
    FindFirst(text, Fence, 2);
  }

  lemma StrayFenceTrim(text: string, body: string)
    requires text == " x```y " && body == "x```y"
    ensures Trim(text) == body
  {
    assert Trimmed(body) by { assert body[0] == 'x' && body[4] == 'y'; }
    assert " " + body + " " == text;
    TrimPadded(" ", body, " ");
  }

  /**
   Round trip: a trimmed payload text written inside a `json`-tagged block,
   with any white-space padding, is handed to the decoder unchanged, so its
   decoding is what the extractor returns; a payload that does not decode
   yields the fallback.
   */
  lemma JsonBlockRoundTrip(pre: string, ws1: string, payload: string, ws2: string, post: string,
                           parse: string -> Option<Json>)
    requires forall k :: 0 <= k < |pre| ==> !OccursAt(pre + JsonFence, JsonFence, k)
    requires AllSpace(ws1) && AllSpace(ws2) && Trimmed(payload)
    requires FenceFree(ws1 + payload + ws2)
    ensures var text := pre + JsonFence + ws1 + payload + ws2 + Fence + post;
      && Candidate(text) == payload
      && Extract(text, parse) == (if parse(payload).Some? then parse(payload).value else Fallback)
  {
    var inner := ws1 + payload + ws2;
    var text := pre + JsonFence + ws1 + payload + ws2 + Fence + post;
    assert text == pre + JsonFence + inner + Fence + post;
    forall k | 0 <= k < |pre|
      ensures !OccursAt(text, JsonFence, k)
    {
      assert text == (pre + JsonFence) + (inner + Fence + post);
      OccursAtPrefix(pre + JsonFence, inner + Fence + post, JsonFence, k);
    }
    JsonBlockWins(text, pre, inner, post);
    TrimPadded(ws1, payload, ws2);
  }
}
