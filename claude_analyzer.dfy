/**
  The two pieces of modules/claude_analyzer.py that compute rather than
  talk to the service: pulling the JSON text out of a reply that may wrap
  it in a Markdown code fence, and shrinking an image until its base64
  encoding fits the size limit. JPEG encoding is an oracle: a function
  from (width, height, quality) to the number of bytes the encoder emits.
*/
module ClaudeAnalyzer {
  import opened Wrappers
  import opened PyText

  const JsonFence: string := "```json"
  const Fence: string := "```"

  // ---------------------------------------------------------------------
  // JSON extraction
  // ---------------------------------------------------------------------

  /** Where a "```json" fence starts, a "```" fence starts too. */
  lemma JsonFenceAtFence(s: string, i: int)
    requires OccursAt(s, JsonFence, i)
    ensures OccursAt(s, Fence, i)
  {
    assert s[i..i + 3] == s[i..i + 7][..3];
  }

  /** A reply that holds the JSON fence also holds a plain fence. */
  lemma JsonFenceHasFence(s: string)
    requires Contains(s, JsonFence)
    ensures Contains(s, Fence)
  {
    var i :| 0 <= i <= |s| && OccursAt(s, JsonFence, i);
    JsonFenceAtFence(s, i);
  }

  /**
    The text `_parse_json_response` hands to the JSON parser: after a
    "```json" fence, the text up to the next "```", stripped; else after a
    "```" fence, the text up to the next "```", stripped; else the reply
    as it is. Python's `split(sep)[1]` is the text between the first two
    occurrences of `sep`, and `split("```")[0]` the text before the first.
  */
  function ExtractJsonText(reply: string): (r: string)
    ensures Contains(reply, Fence) ==> !Contains(r, Fence) && Trimmed(r)
    ensures !Contains(reply, Fence) ==> r == reply
  {
    if Contains(reply, JsonFence) then
      JsonFenceHasFence(reply);
      FencedText(reply, JsonFence)
    else if Contains(reply, Fence) then
      FencedText(reply, Fence)
    else
      reply
  }

  /**
    The text after the first `fence` up to the next "```", stripped: it
    holds no fence and has no white space at either end.
  */
  function FencedText(reply: string, fence: string): (r: string)
    requires fence != [] && Contains(reply, fence)
    ensures !Contains(r, Fence) && Trimmed(r)
  {
    var t := BeforeFirst(SecondPiece(reply, fence), Fence);
    StripNotContains(t, Fence);
    Strip(t)
  }

  /** After prose without backticks, the first occurrence of a fence is the one that follows the prose. */
  lemma AfterOpeningFence(pre: string, fence: string, rest: string)
    requires fence != [] && fence[0] == '`' && '`' !in pre
    ensures Contains(pre + fence + rest, fence)
    ensures AfterFirst(pre + fence + rest, fence) == rest
  {
    var s := pre + fence + rest;
    assert s[|pre|..|pre| + |fence|] == fence;
    assert forall i :: 0 <= i < |pre| ==> s[i] == pre[i];
    NoOccurrenceBefore(s, fence, |pre|);
    AfterFirstAt(s, fence, |pre|);
    assert s[|pre| + |fence|..] == rest;
  }

  /** A body without backticks is cut off at the fence that follows it. */
  lemma UpToFence(body: string, rest: string)
    requires '`' !in body
    ensures BeforeFirst(body + Fence + rest, Fence) == body
  {
    var a := body + Fence + rest;
    assert a[|body|..|body| + 3] == Fence;
    assert forall i :: 0 <= i < |body| ==> a[i] == body[i];
    NoOccurrenceBefore(a, Fence, |body|);
    BeforeFirstAt(a, Fence, |body|);
    assert a[..|body|] == body;
  }

  /**
    In a body without backticks followed by a fence and a tail not starting
    with a backtick, the cut at the first "```json" keeps at least the body,
    and keeps the fence too unless it stops right after the body.
  */
  lemma JsonCutAfterBody(body: string, post: string)
    requires '`' !in body
    requires post == [] || post[0] != '`'
    ensures var b := BeforeFirst(body + Fence + post, JsonFence);
      && |body| <= |b| && b[..|body|] == body
      && (|b| == |body| || (|b| >= |body| + 3 && b[|body|..|body| + 3] == Fence))
  {
    var a := body + Fence + post;
    assert forall i :: 0 <= i < |body| ==> a[i] != '`' by {
      forall i | 0 <= i < |body| ensures a[i] != '`' {
        assert a[i] == body[i];
      }
    }
    NoOccurrenceBefore(a, JsonFence, |body|);
    var b := BeforeFirst(a, JsonFence);
    assert |b| >= |body|;
    assert a[..|body|] == body;
    assert b[..|body|] == a[..|body|];
    assert post != [] ==> a[|body| + 3] == post[0];
    if b != a && |b| < |body| + 3 {
      OccursAtChar(a, JsonFence, |b|, 1);
      OccursAtChar(a, JsonFence, |b|, 2);
    }
    if |b| >= |body| + 3 {
      assert b[|body|..|body| + 3] == a[|body|..|body| + 3];
    }
  }

  /**
    A body without backticks, a closing fence and a tail not starting with a
    backtick: whatever the cut at a later "```json", the cut at the first
    "```" leaves the body.
  */
  lemma UpToClosingFence(body: string, post: string)
    requires '`' !in body
    requires post == [] || post[0] != '`'
    ensures BeforeFirst(BeforeFirst(body + Fence + post, JsonFence), Fence) == body
  {
    JsonCutAfterBody(body, post);
    var b := BeforeFirst(body + Fence + post, JsonFence);
    assert forall i :: 0 <= i < |body| ==> b[i] != '`' by {
      forall i | 0 <= i < |body| ensures b[i] != '`' {
        assert b[i] == b[..|body|][i];
      }
    }
    NoOccurrenceBefore(b, Fence, |body|);
    BeforeFirstAt(b, Fence, |body|);
  }

  /**
    The usual reply: some prose, a "```json" fence, the JSON body, a closing
    fence and anything not starting with a backtick. The parser receives
    the body, stripped.
  */
  lemma ExtractFencedJson(pre: string, body: string, post: string)
    requires '`' !in pre && '`' !in body
    requires post == [] || post[0] != '`'
    ensures ExtractJsonText(pre + JsonFence + body + Fence + post) == Strip(body)
  {
    var rest := body + Fence + post;
    assert pre + JsonFence + body + Fence + post == pre + JsonFence + rest;
    AfterOpeningFence(pre, JsonFence, rest);
    UpToClosingFence(body, post);
  }

  /** The text begins with the language tag "json". */
  predicate StartsWithJson(t: string) {
    |t| >= 4 && t[..4] == "json"
  }

  /** In backtick-free pieces joined by two plain fences, the backticks are those of the fences. */
  lemma BacktickPositions(pre: string, body: string, post: string)
    requires '`' !in pre && '`' !in body && '`' !in post
    ensures var s := pre + Fence + body + Fence + post;
      var q := |pre| + 3 + |body|;
      forall i :: 0 <= i < |s| ==> (s[i] == '`' <==> (|pre| <= i < |pre| + 3 || q <= i < q + 3))
  {
    var s := pre + Fence + body + Fence + post;
    var q := |pre| + 3 + |body|;
    forall i | 0 <= i < |s| ensures s[i] == '`' <==> (|pre| <= i < |pre| + 3 || q <= i < q + 3) {
      if i < |pre| { assert s[i] == pre[i]; }
      else if i < |pre| + 3 { assert s[i] == Fence[i - |pre|]; }
      else if i < q { assert s[i] == body[i - |pre| - 3]; }
      else if i < q + 3 { assert s[i] == Fence[i - q]; }
      else { assert s[i] == post[i - q - 3]; }
    }
  }

  /**
    Three backticks followed by "json" can only be one of the two fences
    followed by the body or the tail, which do not start with "json".
  */
  lemma NoJsonFenceAt(pre: string, body: string, post: string, i: int)
    requires '`' !in pre && '`' !in body && '`' !in post
    requires !StartsWithJson(body) && !StartsWithJson(post)
    ensures !OccursAt(pre + Fence + body + Fence + post, JsonFence, i)
  {
    var s := pre + Fence + body + Fence + post;
    var q := |pre| + 3 + |body|;
    if 0 <= i && i + 7 <= |s| {
      BacktickPositions(pre, body, post);
      var u := s[i..i + 7];
      assert u[0] == s[i] && u[1] == s[i + 1] && u[2] == s[i + 2] && u[3] == s[i + 3];
      if i == |pre| && |body| >= 4 {
        assert u[3..] == body[..4] by {
          forall k | 0 <= k < 4 ensures u[3 + k] == body[k] {
            assert s[i + 3 + k] == body[k];
          }
        }
      }
      if i == |pre| && |body| < 4 {
        assert u[q - i] == s[q];
      }
      if i == q {
        assert u[3..] == post[..4] by {
          forall k | 0 <= k < 4 ensures u[3 + k] == post[k] {
            assert s[i + 3 + k] == post[k];
          }
        }
      }
    }
  }

  /**
    A reply made of backtick-free pieces and two plain fences holds no
    "```json" unless the body or the tail starts with "json".
  */
  lemma NoJsonFence(pre: string, body: string, post: string)
    requires '`' !in pre && '`' !in body && '`' !in post
    requires !StartsWithJson(body) && !StartsWithJson(post)
    ensures !Contains(pre + Fence + body + Fence + post, JsonFence)
  {
    var s := pre + Fence + body + Fence + post;
    forall i | 0 <= i <= |s| ensures !OccursAt(s, JsonFence, i) {
      NoJsonFenceAt(pre, body, post, i);
    }
  }

  /**
    A reply with a plain fence and no language tag: the parser receives the
    text between the two fences, stripped.
  */
  lemma ExtractPlainFenced(pre: string, body: string, post: string)
    requires '`' !in pre && '`' !in body && '`' !in post
    requires !StartsWithJson(body) && !StartsWithJson(post)
    ensures ExtractJsonText(pre + Fence + body + Fence + post) == Strip(body)
  {
    var rest := body + Fence + post;
    assert pre + Fence + body + Fence + post == pre + Fence + rest;
    NoJsonFence(pre, body, post);
    AfterOpeningFence(pre, Fence, rest);
    UpToFence(body, post);
    BeforeFirstAt(body, Fence, |body|);
  }

  /**
    Inside the text after the opening "```json": cutting at the next
    "```json" and then at the next "```" stops at the first "```" at `p`,
    or one or two characters later when a "```json" starts inside that
    fence (which needs a backtick right after it).
  */
  lemma JsonPieceCut(a: string)
    ensures var p := Find(a, Fence);
      var t := BeforeFirst(BeforeFirst(a, JsonFence), Fence);
      && |t| <= |a| && t == a[..|t|]
      && (p == -1 ==> t == a)
      && (p != -1 ==> p <= |t| < p + 3)
      && (p != -1 && (p + 3 == |a| || a[p + 3] != '`') ==> |t| == p)
  {
    var p := Find(a, Fence);
    var j := Find(a, JsonFence);
    BeforeFirstFind(a, JsonFence);
    if j == -1 {
      BeforeFirstFind(a, Fence);
    } else {
      JsonFenceAtFence(a, j);
      BeforeFirstOfPrefix(a, Fence, j);
      if j != p && j < p + 3 {
        OccursAtChar(a, JsonFence, j, p + 3 - j);
      }
    }
  }

  /** The json branch of ExtractJsonText, unfolded into the Python pieces; `k` is the first "```json". */
  lemma JsonBranchText(reply: string, k: int)
    requires Contains(reply, JsonFence) && k == Find(reply, JsonFence)
    ensures 0 <= k && k + 7 <= |reply|
    ensures ExtractJsonText(reply) == Strip(BeforeFirst(BeforeFirst(reply[k + 7..], JsonFence), Fence))
  {
    JsonFenceHasFence(reply);
    assert ExtractJsonText(reply) == FencedText(reply, JsonFence);
    assert AfterFirst(reply, JsonFence) == reply[k + 7..];
  }

  /** The plain branch of ExtractJsonText, unfolded into the Python pieces; `k` is the first "```". */
  lemma PlainBranchText(reply: string, k: int)
    requires !Contains(reply, JsonFence) && Contains(reply, Fence) && k == Find(reply, Fence)
    ensures 0 <= k && k + 3 <= |reply|
    ensures ExtractJsonText(reply) == Strip(BeforeFirst(BeforeFirst(reply[k + 3..], Fence), Fence))
  {
    assert ExtractJsonText(reply) == FencedText(reply, Fence);
    assert AfterFirst(reply, Fence) == reply[k + 3..];
  }

  /**
    The same cut located in the reply: with `k` the first "```json" and `p`
    the first "```" after it, the piece `t` runs from `k + 7` to `p`, to
    the end when there is no such `p`, or one or two characters past `p`
    when a backtick follows that "```".
  */
  lemma JsonCutInReply(reply: string, k: int, p: int, t: string)
    requires Contains(reply, JsonFence) && k == Find(reply, JsonFence)
    requires p == FindFrom(reply, Fence, k + 7)
    requires t == BeforeFirst(BeforeFirst(reply[k + 7..], JsonFence), Fence)
    ensures p == -1 ==> t == reply[k + 7..]
    ensures p != -1 ==> p + 3 <= |reply| && (t == reply[k + 7..p] || t == reply[k + 7..p + 1] || t == reply[k + 7..p + 2])
    ensures p != -1 && (p + 3 == |reply| || reply[p + 3] != '`') ==> t == reply[k + 7..p]
  {
    var a := reply[k + 7..];
    JsonPieceCut(a);
    FindInSuffix(reply, Fence, k + 7);
    CutInReply(reply, k + 7, Find(a, Fence), p, t);
  }

  /**
    A piece `t` cut from the suffix `s[k..]`, where the first fence of the
    suffix is at `q` and the first fence of `s` from `k` on is at `p`: all
    of the suffix when there is no fence, else ending at `p`, `p + 1` or
    `p + 2` in `s`, and at `p` when no backtick follows the fence.
  */
  lemma CutInReply(s: string, k: int, q: int, p: int, t: string)
    requires 0 <= k <= |s|
    requires (q == -1 <==> p == -1) && (p != -1 ==> 0 <= q && p == k + q)
    requires |t| <= |s| - k && t == s[k..][..|t|]
    requires q == -1 ==> t == s[k..]
    requires q != -1 ==> q <= |t| < q + 3 && q + 3 <= |s| - k
    requires q != -1 && (q + 3 == |s| - k || s[k..][q + 3] != '`') ==> |t| == q
    ensures p == -1 ==> t == s[k..]
    ensures p != -1 ==> t == s[k..p] || t == s[k..p + 1] || t == s[k..p + 2]
    ensures p != -1 && (p + 3 == |s| || s[p + 3] != '`') ==> t == s[k..p]
  {
    if p != -1 {
      var n := |t|;
      if n == q {
        SuffixPrefixIs(s, k, p, n, t);
      } else if n == q + 1 {
        SuffixPrefixIs(s, k, p + 1, n, t);
      } else {
        SuffixPrefixIs(s, k, p + 2, n, t);
      }
      if p + 3 < |s| {
        SuffixChar(s, k, q + 3, p + 3);
      }
    }
  }

  /**
    `_parse_json_response` on any reply with a "```json" fence: with `k` the
    first "```json" and `p` the first "```" after it, the parser receives
    the text from `k + 7` to `p` stripped, or to the end when there is no
    such `p`. Only when a backtick follows that "```" directly can a
    "```json" inside it move the cut one or two characters further.
  */
  lemma ExtractJsonBranch(reply: string, k: int, p: int)
    requires Contains(reply, JsonFence) && k == Find(reply, JsonFence)
    requires p == FindFrom(reply, Fence, k + 7)
    ensures p == -1 ==> ExtractJsonText(reply) == Strip(reply[k + 7..])
    ensures p != -1 ==> p + 3 <= |reply|
    ensures p != -1 ==>
      || ExtractJsonText(reply) == Strip(reply[k + 7..p])
      || ExtractJsonText(reply) == Strip(reply[k + 7..p + 1])
      || ExtractJsonText(reply) == Strip(reply[k + 7..p + 2])
    ensures p != -1 && (p + 3 == |reply| || reply[p + 3] != '`') ==> ExtractJsonText(reply) == Strip(reply[k + 7..p])
  {
    JsonBranchText(reply, k);
    JsonCutInReply(reply, k, p, BeforeFirst(BeforeFirst(reply[k + 7..], JsonFence), Fence));
  }

  /**
    `_parse_json_response` on any reply with a "```" fence but no "```json":
    with `k` the first "```" and `p` the next one after it, the parser
    receives the text from `k + 3` to `p` stripped, or to the end when
    there is no closing fence.
  */
  lemma ExtractPlainBranch(reply: string, k: int, p: int)
    requires !Contains(reply, JsonFence) && Contains(reply, Fence) && k == Find(reply, Fence)
    requires p == FindFrom(reply, Fence, k + 3)
    ensures p == -1 ==> ExtractJsonText(reply) == Strip(reply[k + 3..])
    ensures p != -1 ==> p <= |reply| && ExtractJsonText(reply) == Strip(reply[k + 3..p])
  {
    PlainBranchText(reply, k);
    PlainCutInReply(reply, k, p, BeforeFirst(BeforeFirst(reply[k + 3..], Fence), Fence));
  }

  /** In the plain branch the piece runs from `k + 3` to the next "```" `p`, or to the end. */
  lemma PlainCutInReply(reply: string, k: int, p: int, t: string)
    requires 0 <= k && k + 3 <= |reply|
    requires p == FindFrom(reply, Fence, k + 3)
    requires t == BeforeFirst(BeforeFirst(reply[k + 3..], Fence), Fence)
    ensures p == -1 ==> t == reply[k + 3..]
    ensures p != -1 ==> p <= |reply| && t == reply[k + 3..p]
  {
    var a := reply[k + 3..];
    BeforeFirstIdempotent(a, Fence);
    BeforeFirstFind(a, Fence);
    FindInSuffix(reply, Fence, k + 3);
    if p != -1 {
      SuffixPrefix(reply, k + 3, p);
    }
  }

  // ---------------------------------------------------------------------
  // Shrinking an image under the size limit
  // ---------------------------------------------------------------------

  /** The size limit in megabytes, from modules/constants.py. */
  const MaxImageSizeMB: int := 5
  const MaxImageBytes: int := MaxImageSizeMB * 1_000_000
  const InitialQuality: int := 85
  const MinQuality: int := 40
  const QualityStep: int := 5

  /** One encoding attempt: the pixel size and the JPEG quality. */
  datatype Attempt = Attempt(width: int, height: int, quality: int)

  /** `len(base64.b64encode(b))` for `n` bytes: four characters per started group of three. */
  function Base64Length(n: nat): (r: nat)
    ensures 4 * n <= 3 * r < 4 * n + 12
  {
    4 * ((n + 2) / 3)
  }

  /** The encoded size fits the limit exactly when the raw JPEG is at most 3,750,000 bytes. */
  lemma Base64LimitInBytes(n: nat)
    ensures Base64Length(n) <= MaxImageBytes <==> n <= 3_750_000
  {
  }

  /** The first resize: the longer side scaled down to `maxDimension`, the other side in proportion and truncated. */
  function InitialSize(width: int, height: int, maxDimension: int): (r: Attempt)
    requires width >= 1 && height >= 1 && maxDimension >= 0
    ensures r.quality == InitialQuality
    ensures 0 <= r.width <= width && 0 <= r.height <= height
    ensures width <= maxDimension && height <= maxDimension ==> r.width == width && r.height == height
    ensures (width > maxDimension || height > maxDimension) ==> r.width <= maxDimension && r.height <= maxDimension
    ensures (width > maxDimension || height > maxDimension) ==>
      (if width > height then r.width == maxDimension else r.height == maxDimension)
  {
    if width > maxDimension || height > maxDimension then
      if width > height then Attempt(maxDimension, ScaledSide(height, maxDimension, width), InitialQuality)
      else Attempt(ScaledSide(width, maxDimension, height), maxDimension, InitialQuality)
    else
      Attempt(width, height, InitialQuality)
  }

  /**
    `int(a * (m / b))`: the shorter side `a` scaled by the ratio that takes
    the longer side `b` down to `m`, truncated to a whole number; it stays
    within both `a` and `m`.
  */
  function ScaledSide(a: int, m: int, b: int): (r: int)
    requires 0 <= a <= b && 0 <= m < b
    ensures 0 <= r <= a && r <= m
  {
    var x := a as real * (m as real / b as real);
    ScaleBelow(a, m, b, x);
    FloorWithin(x, a, m);
    x.Floor
  }

  /** `a * (m / b)` lies between 0 and both `a` and `m`. */
  lemma ScaleBelow(a: int, m: int, b: int, x: real)
    requires 0 <= a <= b && 0 <= m < b
    requires x == a as real * (m as real / b as real)
    ensures 0.0 <= x <= a as real && x <= m as real
  {
    var q := m as real / b as real;
    RatioBelowOne(m, b);
    ProductNonNegative(a as real, q);
    ProductNonNegative(a as real, 1.0 - q);
    ProductNonNegative(b as real - a as real, q);
    assert a as real * (1.0 - q) == a as real - a as real * q;
    assert (b as real - a as real) * q == b as real * q - a as real * q;
  }

  /** The whole number part of a value between 0 and both `a` and `m` lies in the same bounds. */
  lemma FloorWithin(x: real, a: int, m: int)
    requires 0.0 <= x <= a as real && x <= m as real
    ensures 0 <= x.Floor <= a && x.Floor <= m
  {
  }

  /** The scaled side is the whole number part of `a * (m / b)`. */
  lemma ScaledSideValue(a: int, m: int, b: int)
    requires 0 <= a <= b && 0 <= m < b
    ensures var r := ScaledSide(a, m, b);
      r as real <= a as real * (m as real / b as real) < r as real + 1.0
  {
  }

  /**
    The side that InitialSize scales in proportion is the whole number part
    of that side times `maxDimension` over the longer side.
  */
  lemma InitialSizeScaled(width: int, height: int, maxDimension: int)
    requires width >= 1 && height >= 1 && maxDimension >= 0
    ensures var r := InitialSize(width, height, maxDimension);
      (width > maxDimension || height > maxDimension) && width > height ==>
        r.height as real <= height as real * (maxDimension as real / width as real) < r.height as real + 1.0
    ensures var r := InitialSize(width, height, maxDimension);
      (width > maxDimension || height > maxDimension) && width <= height ==>
        r.width as real <= width as real * (maxDimension as real / height as real) < r.width as real + 1.0
  {
    if width > maxDimension || height > maxDimension {
      if width > height {
        ScaledSideValue(height, maxDimension, width);
      } else {
        ScaledSideValue(width, maxDimension, height);
      }
    }
  }

  /** `m / b` lies in `[0, 1)` and takes `b` to `m`. */
  lemma RatioBelowOne(m: int, b: int)
    requires 0 <= m < b
    ensures 0.0 <= m as real / b as real < 1.0
    ensures b as real * (m as real / b as real) == m as real
  {
  }

  /** A product of two non-negative reals is non-negative. */
  lemma ProductNonNegative(u: real, v: real)
    requires 0.0 <= u && 0.0 <= v
    ensures 0.0 <= u * v
  {
  }

  /** One side shrunk by 15%: `int(side * 0.85)`. */
  function Shrink(side: int): (r: int)
    requires side >= 0
    ensures 0 <= r <= side && (side >= 1 ==> r < side)
  {
    (side * 85) / 100
  }

  /** The size accepted by the loop: its base64 encoding is within the limit. */
  predicate Fits(jpegSize: (int, int, int) -> nat, a: Attempt) {
    Base64Length(jpegSize(a.width, a.height, a.quality)) <= MaxImageBytes
  }

  /** Lowering a valid quality above the minimum by one step gives a valid quality. */
  lemma LowerQualityValid(q: int)
    requires ValidQuality(q) && q > MinQuality
    ensures ValidQuality(q - QualityStep)
  {
  }

  /** The attempt after one that did not fit: the next lower quality, or 15% smaller at the initial quality. */
  function NextAttempt(a: Attempt): (r: Attempt)
    requires a.width >= 0 && a.height >= 0
  {
    if a.quality > MinQuality then Attempt(a.width, a.height, a.quality - QualityStep)
    else Attempt(Shrink(a.width), Shrink(a.height), InitialQuality)
  }

  /** The qualities the loop tries: 85, 80, ..., 40. */
  predicate ValidQuality(q: int) {
    MinQuality <= q <= InitialQuality && q % QualityStep == 0
  }

  /**
    The outcome of the loop from attempt `a`: the first attempt that fits,
    or Failure with the size that fell below `minDimension`.
  */
  function Search(jpegSize: (int, int, int) -> nat, a: Attempt, minDimension: int): (r: Result<Attempt, Attempt>)
    requires minDimension >= 1 && a.width >= 0 && a.height >= 0 && ValidQuality(a.quality)
    decreases a.width, a.quality
  {
    if Fits(jpegSize, a) then Success(a)
    else
      var next := NextAttempt(a);
      if next.width < minDimension || next.height < minDimension then Failure(next)
      else Search(jpegSize, next, minDimension)
  }

  /**
    What the search promises: an accepted attempt fits the limit, uses one
    of the qualities 85, ..., 40, is no larger than the start and is either
    the start's size or at least `minDimension` on both sides; a failure
    names a size below `minDimension` no larger than the start.
  */
  lemma {:induction false} SearchFacts(jpegSize: (int, int, int) -> nat, a: Attempt, minDimension: int)
    requires minDimension >= 1 && a.width >= 0 && a.height >= 0 && ValidQuality(a.quality)
    ensures var r := Search(jpegSize, a, minDimension);
      && (r.Success? ==>
            && Fits(jpegSize, r.value) && ValidQuality(r.value.quality)
            && r.value.width <= a.width && r.value.height <= a.height
            && ((r.value.width == a.width && r.value.height == a.height)
                || (r.value.width >= minDimension && r.value.height >= minDimension)))
      && (r.Failure? ==>
            && (r.error.width < minDimension || r.error.height < minDimension)
            && 0 <= r.error.width <= a.width && 0 <= r.error.height <= a.height)
    decreases a.width, a.quality
  {
    if !Fits(jpegSize, a) {
      var next := NextAttempt(a);
      if next.width >= minDimension && next.height >= minDimension {
        SearchFacts(jpegSize, next, minDimension);
      }
    }
  }

  /** An attempt that fits at once is returned unchanged. */
  lemma SearchStopsAtFit(jpegSize: (int, int, int) -> nat, a: Attempt, minDimension: int)
    requires minDimension >= 1 && a.width >= 0 && a.height >= 0 && ValidQuality(a.quality)
    requires Fits(jpegSize, a)
    ensures Search(jpegSize, a, minDimension) == Success(a)
  {
  }

  /** An attempt that does not fit hands over to the next one, or fails when that one is too small. */
  lemma SearchStep(jpegSize: (int, int, int) -> nat, a: Attempt, minDimension: int)
    requires minDimension >= 1 && a.width >= 0 && a.height >= 0 && ValidQuality(a.quality)
    requires !Fits(jpegSize, a)
    ensures var next := NextAttempt(a);
      && (next.width < minDimension || next.height < minDimension ==> Search(jpegSize, a, minDimension) == Failure(next))
      && (next.width >= minDimension && next.height >= minDimension ==>
            Search(jpegSize, a, minDimension) == Search(jpegSize, next, minDimension))
  {
  }

  /**
    How `resize_image_under_limit` ends: a Failure at the first size when
    the first resize truncates a side to 0, which the image library refuses,
    and otherwise the search from that size. A success fits the limit with
    a valid quality and is no larger than the image; a failure has a side
    below `minDimension`.
  */
  function ResizeOutcome(jpegSize: (int, int, int) -> nat, width: int, height: int, maxDimension: int, minDimension: int)
    : (r: Result<Attempt, Attempt>)
    requires width >= 1 && height >= 1 && maxDimension >= 0 && minDimension >= 1
    ensures r.Success? ==> Fits(jpegSize, r.value) && ValidQuality(r.value.quality)
    ensures r.Success? ==> r.value.width <= width && r.value.height <= height
    ensures r.Failure? ==> r.error.width < minDimension || r.error.height < minDimension
  {
    var s := InitialSize(width, height, maxDimension);
    SearchFacts(jpegSize, s, minDimension);
    if s.width == 0 || s.height == 0 then Failure(s) else Search(jpegSize, s, minDimension)
  }

  /**
    `resize_image_under_limit`: the first resize to `maxDimension` (as
    InitialSize computes it), then the encoding loop of SearchLoop. The
    Failure cases are the raised exceptions: the one for a side below
    `minDimension`, and the image library's refusal when the first resize
    truncates a side to 0.
  */
  method ResizeImageUnderLimit(jpegSize: (int, int, int) -> nat, width: int, height: int, maxDimension: int, minDimension: int)
    returns (r: Result<Attempt, Attempt>)
    requires width >= 1 && height >= 1 && maxDimension >= 0 && minDimension >= 1
    ensures r == ResizeOutcome(jpegSize, width, height, maxDimension, minDimension)
  {
    var start := InitialSize(width, height, maxDimension);
    if start.width == 0 || start.height == 0 {
      // the first resize to a zero side raises
      return Failure(start);
    }
    r := SearchLoop(jpegSize, start, minDimension);
  }

  /**
    The encoding loop of `resize_image_under_limit`: encode, lowering the
    quality by 5 down to 40, then shrinking by 15% and starting again at 85,
    until the encoding fits or a side falls below `minDimension`.
  */
  method SearchLoop(jpegSize: (int, int, int) -> nat, start: Attempt, minDimension: int) returns (r: Result<Attempt, Attempt>)
    requires minDimension >= 1 && start.width >= 0 && start.height >= 0 && ValidQuality(start.quality)
    ensures r == Search(jpegSize, start, minDimension)
  {
    var w, h, quality := start.width, start.height, start.quality;
    while true
      invariant 0 <= w && 0 <= h && ValidQuality(quality)
      invariant Search(jpegSize, Attempt(w, h, quality), minDimension) == Search(jpegSize, start, minDimension)
      decreases w, quality
    {
      var encodedSize := Base64Length(jpegSize(w, h, quality));
      if encodedSize <= MaxImageBytes {
        SearchStopsAtFit(jpegSize, Attempt(w, h, quality), minDimension);
        return Success(Attempt(w, h, quality));
      }
      ghost var before := Attempt(w, h, quality);
      if quality > 40 {
        LowerQualityValid(quality);
        quality := quality - 5;
      } else {
        w := Shrink(w);
        h := Shrink(h);
        quality := 85;
      }
      assert Attempt(w, h, quality) == NextAttempt(before);
      SearchStep(jpegSize, before, minDimension);
      if w < minDimension || h < minDimension {
        return Failure(Attempt(w, h, quality));
      }
    }
  }
}
