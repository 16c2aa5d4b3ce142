/**
 `parse_json_garbage`: pick a candidate substring out of a chatty reply
 (first a ```json fence, else the greedy first-`{`-to-last-`}` span, else
 the whole reply), strip it, and hand it to the JSON decoder, which is a
 parameter of the model.
 */
module Recovery {
  import opened Wrappers
  import opened Text

  /** Opening delimiter of `re.search(r"```json(.*?)```", text, re.DOTALL)`. */
  const FenceOpen: string := "```json"
  /** Closing delimiter of the same pattern. */
  const FenceClose: string := "```"

  /** The fence pattern matches `text` somewhere: an opening delimiter with a
      closing delimiter starting at or after its end. */
  ghost predicate HasFence(text: string) {
    exists p, k :: OccursAt(text, FenceOpen, p) && p + |FenceOpen| <= k && OccursAt(text, FenceClose, k)
  }

  /** The match `re.search` reports for the fence pattern: the leftmost
      opening delimiter, and (the group is lazy) the first closing
      delimiter after it. */
  ghost predicate FirstFence(text: string, p: int, k: int) {
    && OccursAt(text, FenceOpen, p)
    && (forall q :: 0 <= q < p ==> !OccursAt(text, FenceOpen, q))
    && p + |FenceOpen| <= k
    && OccursAt(text, FenceClose, k)
    && (forall j :: p + |FenceOpen| <= j < k ==> !OccursAt(text, FenceClose, j))
  }

  /** There is only one leftmost-lazy fence match. */
  lemma FirstFenceUnique(text: string, p: int, k: int, p': int, k': int)
    requires FirstFence(text, p, k) && FirstFence(text, p', k')
    ensures p == p' && k == k'
  {
  }

  /** `match.group(1)` of the fence search, or `None` when it does not match. */
  function FencedBody(text: string): (r: Option<string>)
    ensures r.Some? <==> HasFence(text)
    ensures r.Some? ==> exists p, k :: FirstFence(text, p, k) && r.value == text[p + |FenceOpen|..k]
  {
    match IndexOf(text, FenceOpen, 0)
    case None => None
    case Some(p) =>
      match IndexOf(text, FenceClose, p + |FenceOpen|)
      case None =>
        assert !HasFence(text) by {
          forall p', k' | OccursAt(text, FenceOpen, p') && p' + |FenceOpen| <= k'
            ensures !OccursAt(text, FenceClose, k')
          {
            assert p <= p';
          }
        }
        None
      case Some(k) =>
        assert FirstFence(text, p, k);
        Some(text[p + |FenceOpen|..k])
  }

  /** The span `re.search(r"\{.*\}", text, re.DOTALL)` matches: the first
      `{` and, the star being greedy, the last `}`, which lies after it. */
  ghost predicate OutermostBraces(text: string, i: int, j: int) {
    && 0 <= i < j < |text|
    && text[i] == '{' && text[j] == '}'
    && (forall q :: 0 <= q < i ==> text[q] != '{')
    && (forall q :: j < q < |text| ==> text[q] != '}')
  }

  /** Some `{` has a `}` after it, so the brace pattern matches. */
  ghost predicate HasBraces(text: string) {
    exists i, j :: 0 <= i < j < |text| && text[i] == '{' && text[j] == '}'
  }

  /** `match.group(0)` of the brace search, or `None` when it does not match. */
  function BracedSpan(text: string): (r: Option<string>)
    ensures r.Some? <==> HasBraces(text)
    ensures r.Some? ==> exists i, j :: OutermostBraces(text, i, j) && r.value == text[i..j + 1]
  {
    match FirstIndexOf(text, '{')
    case None => None
    case Some(i) =>
      match LastIndexOf(text, '}')
      case None => None
      case Some(j) =>
        if i < j then
          assert OutermostBraces(text, i, j);
          Some(text[i..j + 1])
        else
          None
  }

  /** The text `parse_json_garbage` holds before its `strip()`. */
  function RawCandidate(text: string): string {
    match FencedBody(text)
    case Some(body) => body
    case None =>
      match BracedSpan(text)
      case Some(span) => span
      case None => text
  }

  /** `t` is the contiguous piece `s[i..j]` of `s`. */
  ghost predicate SliceAt(s: string, t: string, i: int, j: int) {
    0 <= i <= j <= |s| && t == s[i..j]
  }

  /** Whichever rule chose it, the raw candidate is a piece of the reply. */
  lemma RawCandidateIsSlice(text: string)
    ensures exists a, b :: SliceAt(text, RawCandidate(text), a, b)
  {
    var raw := RawCandidate(text);
    match FencedBody(text)
    case Some(body) =>
      var p, k :| FirstFence(text, p, k) && body == text[p + |FenceOpen|..k];
      assert SliceAt(text, raw, p + |FenceOpen|, k);
    case None =>
      match BracedSpan(text)
      case Some(span) =>
        var i, j :| OutermostBraces(text, i, j) && span == text[i..j + 1];
        assert SliceAt(text, raw, i, j + 1);
      case None =>
        assert SliceAt(text, raw, 0, |text|);
  }

  /** Stripping keeps the candidate a piece of the reply. */
  lemma CandidateIsSlice(text: string)
    ensures exists i, j :: SliceAt(text, Strip(RawCandidate(text)), i, j)
  {
    RawCandidateIsSlice(text);
    var a, b :| SliceAt(text, RawCandidate(text), a, b);
    StripOfSliceIsSlice(text, RawCandidate(text), a, b);
  }

  /** Stripping a piece of `text` leaves a piece of `text`. */
  lemma StripOfSliceIsSlice(text: string, raw: string, a: int, b: int)
    requires SliceAt(text, raw, a, b)
    ensures SliceAt(text, Strip(raw), a + LeadingSpaces(raw), a + LeadingSpaces(raw) + |Strip(raw)|)
  {
    StripIsPiece(raw);
    var lo, n := LeadingSpaces(raw), |Strip(raw)|;
    SliceOfSlice(text, a, b, lo, lo + n);
  }

  /** A slice of a slice is a slice of the whole. */
  lemma SliceOfSlice(s: string, a: int, b: int, lo: int, hi: int)
    requires 0 <= a <= b <= |s| && 0 <= lo <= hi <= b - a
    ensures s[a..b][lo..hi] == s[a + lo..a + hi]
  {
    var x, y := s[a..b][lo..hi], s[a + lo..a + hi];
    forall k | 0 <= k < hi - lo ensures x[k] == y[k] {
      assert x[k] == s[a..b][lo + k] == s[a + lo + k];
    }
  }

  /** The string `parse_json_garbage` passes to `json.loads`. */
  function CandidateText(text: string): (r: string)
    ensures exists i, j :: SliceAt(text, r, i, j)
    ensures |r| > 0 ==> !IsSpace(r[0]) && !IsSpace(r[|r| - 1])
  {
    CandidateIsSlice(text);
    Strip(RawCandidate(text))
  }

  /** The opening delimiter cannot overlap a later copy of itself, so a
      prefix free of it keeps the first occurrence at the prefix's end. */
  lemma FirstOpenAfterPrefix(pre: string, rest: string)
    requires !Contains(pre, FenceOpen)
    requires OccursAt(rest, FenceOpen, 0)
    ensures forall q :: 0 <= q < |pre| ==> !OccursAt(pre + rest, FenceOpen, q)
  {
    var t := pre + rest;
    assert rest[..|FenceOpen|] == FenceOpen;
    assert rest[0] == '`' && rest[3] == 'j';
    forall q | 0 <= q < |pre| ensures !OccursAt(t, FenceOpen, q) {
      if q + |FenceOpen| <= |pre| {
        assert pre[q..q + |FenceOpen|] == t[q..q + |FenceOpen|];
        assert !OccursAt(pre, FenceOpen, q);
        assert !OccursAt(t, FenceOpen, q);
      } else if q + |FenceOpen| <= |t| {
        var w := t[q..q + |FenceOpen|];
        if |pre| - q <= 3 {
          // the 'j' of the later delimiter would have to be one of "son"
          assert w[|pre| + 3 - q] == t[|pre| + 3] == 'j';
          assert FenceOpen[|pre| + 3 - q] != 'j';
          assert !OccursAt(t, FenceOpen, q);
        } else {
          // its first backtick would have to be one of "son"
          assert w[|pre| - q] == t[|pre|] == '`';
          assert FenceOpen[|pre| - q] != '`';
          assert !OccursAt(t, FenceOpen, q);
        }
      }
    }
  }

  /** In `body + FenceClose + post`, where `body` holds no closing delimiter
      and does not end in a backtick, the first closing delimiter is the one
      right after `body`. */
  lemma FirstCloseAfterBody(body: string, rest: string)
    requires !Contains(body, FenceClose)
    requires |body| == 0 || body[|body| - 1] != '`'
    requires OccursAt(rest, FenceClose, 0)
    ensures forall j :: 0 <= j < |body| ==> !OccursAt(body + rest, FenceClose, j)
  {
    var t := body + rest;
    forall j | 0 <= j < |body| ensures !OccursAt(t, FenceClose, j) {
      if j + |FenceClose| <= |body| {
        assert body[j..j + |FenceClose|] == t[j..j + |FenceClose|];
        assert !OccursAt(body, FenceClose, j);
      } else if j + |FenceClose| <= |t| {
        // the delimiter would start at or before the last character of `body`
        var w := t[j..j + |FenceClose|];
        assert w[|body| - 1 - j] == t[|body| - 1] == body[|body| - 1];
        assert FenceClose[|body| - 1 - j] == '`';
        assert w != FenceClose;
      }
    }
  }

  /** Whatever the leftmost-lazy fence match is, `FencedBody` returns its body. */
  lemma FencedBodyOfFirstFence(text: string, p: int, k: int)
    requires FirstFence(text, p, k)
    ensures FencedBody(text) == Some(text[p + |FenceOpen|..k])
  {
    assert HasFence(text);
    var p', k' :| FirstFence(text, p', k') && FencedBody(text).value == text[p' + |FenceOpen|..k'];
    FirstFenceUnique(text, p, k, p', k');
  }

  /** In `pre + FenceOpen + body + FenceClose + post` the fence match is the
      written one. */
  lemma WrittenFenceIsFirst(pre: string, body: string, post: string)
    requires !Contains(pre, FenceOpen)
    requires !Contains(body, FenceClose)
    requires |body| == 0 || body[|body| - 1] != '`'
    ensures FirstFence(pre + FenceOpen + body + FenceClose + post, |pre|, |pre| + |FenceOpen| + |body|)
  {
    WrittenOpenIsFirst(pre, body, post);
    WrittenCloseIsFirst(pre, body, post);
  }

  /** The opening delimiter written after `pre` is the leftmost one. */
  lemma WrittenOpenIsFirst(pre: string, body: string, post: string)
    requires !Contains(pre, FenceOpen)
    ensures OccursAt(pre + FenceOpen + body + FenceClose + post, FenceOpen, |pre|)
    ensures forall q :: 0 <= q < |pre| ==> !OccursAt(pre + FenceOpen + body + FenceClose + post, FenceOpen, q)
  {
    var text := pre + FenceOpen + body + FenceClose + post;
    var rest := FenceOpen + body + FenceClose + post;
    assert text == pre + rest;
    assert rest[..|FenceOpen|] == FenceOpen;
    assert OccursAt(rest, FenceOpen, 0);
    FirstOpenAfterPrefix(pre, rest);
    assert text[|pre|..|pre| + |FenceOpen|] == FenceOpen;
  }

  /** The closing delimiter written after `body` is the first one after the
      opening delimiter. */
  lemma WrittenCloseIsFirst(pre: string, body: string, post: string)
    requires !Contains(body, FenceClose)
    requires |body| == 0 || body[|body| - 1] != '`'
    ensures OccursAt(pre + FenceOpen + body + FenceClose + post, FenceClose, |pre| + |FenceOpen| + |body|)
    ensures forall j :: |pre| + |FenceOpen| <= j < |pre| + |FenceOpen| + |body| ==>
      !OccursAt(pre + FenceOpen + body + FenceClose + post, FenceClose, j)
  {
    var text := pre + FenceOpen + body + FenceClose + post;
    var start := |pre| + |FenceOpen|;
    var k := start + |body|;
    var tail := text[start..];
    assert tail == body + (FenceClose + post);
    assert (FenceClose + post)[..|FenceClose|] == FenceClose;
    assert OccursAt(FenceClose + post, FenceClose, 0);
    FirstCloseAfterBody(body, FenceClose + post);
    forall j | start <= j < k ensures !OccursAt(text, FenceClose, j) {
      var j' := j - start;
      assert !OccursAt(tail, FenceClose, j');
      assert text[j..j + |FenceClose|] == tail[j'..j' + |FenceClose|];
    }
    assert text[k..k + |FenceClose|] == FenceClose;
  }

  /** A fenced block wins, and nothing outside it matters: for any prose
      before it (free of the opening delimiter) and any text after it, the
      candidate is the stripped body. */
  lemma FenceIgnoresSurroundings(pre: string, body: string, post: string)
    requires !Contains(pre, FenceOpen)
    requires !Contains(body, FenceClose)
    requires |body| == 0 || body[|body| - 1] != '`'
    ensures CandidateText(pre + FenceOpen + body + FenceClose + post) == Strip(body)
  {
    var text := pre + FenceOpen + body + FenceClose + post;
    var k := |pre| + |FenceOpen| + |body|;
    WrittenFenceIsFirst(pre, body, post);
    FencedBodyOfFirstFence(text, |pre|, k);
    assert text[|pre| + |FenceOpen|..k] == body;
  }

  /** First rule of `parse_json_garbage`: when the fence pattern matches,
      the candidate is its lazily matched body, stripped. */
  lemma FenceRule(text: string)
    requires HasFence(text)
    ensures exists p, k :: FirstFence(text, p, k) && CandidateText(text) == Strip(text[p + |FenceOpen|..k])
  {
    var body := FencedBody(text).value;
    var p, k :| FirstFence(text, p, k) && body == text[p + |FenceOpen|..k];
    assert CandidateText(text) == Strip(text[p + |FenceOpen|..k]);
  }

  /** Second rule: with no fence, the candidate is the span from the first
      `{` to the last `}` (stripping it changes nothing). */
  lemma BraceRule(text: string)
    requires !HasFence(text) && HasBraces(text)
    ensures exists i, j :: OutermostBraces(text, i, j) && CandidateText(text) == text[i..j + 1]
  {
    var span := BracedSpan(text).value;
    var i, j :| OutermostBraces(text, i, j) && span == text[i..j + 1];
    BraceRuleAt(text, i, j);
  }

  /** Whatever the outermost braces are, `BracedSpan` returns the span
      between them. */
  lemma BracedSpanAt(text: string, i: int, j: int)
    requires OutermostBraces(text, i, j)
    ensures BracedSpan(text) == Some(text[i..j + 1])
  {
    assert HasBraces(text) by {
      assert 0 <= i < j < |text| && text[i] == '{' && text[j] == '}';
    }
    var i', j' :| OutermostBraces(text, i', j') && BracedSpan(text).value == text[i'..j' + 1];
    OutermostBracesUnique(text, i, j, i', j');
  }

  /** The brace rule at the outermost braces `i` and `j`. */
  lemma BraceRuleAt(text: string, i: int, j: int)
    requires !HasFence(text) && OutermostBraces(text, i, j)
    ensures CandidateText(text) == text[i..j + 1]
  {
    var span := text[i..j + 1];
    BracedSpanAt(text, i, j);
    assert FencedBody(text).None?;
    assert RawCandidate(text) == span;
    assert span[0] == '{' && span[|span| - 1] == '}';
    StripKeepsTrimmed(span);
  }

  /** Last rule: with neither a fence nor a braced span the whole reply,
      stripped, is the candidate; nothing fails before the decoder runs. */
  lemma WholeReplyRule(text: string)
    requires !HasFence(text) && !HasBraces(text)
    ensures CandidateText(text) == Strip(text)
  {
  }

  /** Without a backtick there is no fence. */
  lemma NoBacktickNoFence(text: string)
    requires '`' !in text
    ensures !HasFence(text)
  {
    forall p ensures !OccursAt(text, FenceOpen, p) {
      if 0 <= p && p + |FenceOpen| <= |text| {
        assert text[p..p + |FenceOpen|][0] == text[p] != FenceOpen[0];
      }
    }
  }

  /** A string without a backtick holds neither delimiter. */
  lemma NoBacktickNoDelimiter(s: string)
    requires '`' !in s
    ensures !Contains(s, FenceOpen) && !Contains(s, FenceClose)
  {
    forall p ensures !OccursAt(s, FenceOpen, p) && !OccursAt(s, FenceClose, p) {
      if 0 <= p && p + |FenceClose| <= |s| {
        assert s[p..p + |FenceClose|][0] == s[p] != FenceClose[0];
      }
      if 0 <= p && p + |FenceOpen| <= |s| {
        assert s[p..p + |FenceOpen|][0] == s[p] != FenceOpen[0];
      }
    }
  }

  /** Greedy brace matching: with no fence, the candidate runs from the first
      `{` to the last `}`, whatever lies between them. */
  lemma BraceSpanIsGreedy(pre: string, obj: string, post: string)
    requires !HasFence(pre + obj + post)
    requires 2 <= |obj| && obj[0] == '{' && obj[|obj| - 1] == '}'
    requires forall i :: 0 <= i < |pre| ==> pre[i] != '{'
    requires forall i :: 0 <= i < |post| ==> post[i] != '}'
    ensures CandidateText(pre + obj + post) == obj
  {
    var text := pre + obj + post;
    var j := |pre| + |obj| - 1;
    WrittenBracesAreOutermost(pre, obj, post);
    BraceRuleAt(text, |pre|, j);
    assert text[|pre|..j + 1] == obj;
  }

  /** The first `{` and the last `}` are determined by the text. */
  lemma OutermostBracesUnique(text: string, i: int, j: int, i': int, j': int)
    requires OutermostBraces(text, i, j) && OutermostBraces(text, i', j')
    ensures i == i' && j == j'
  {
  }

  /** In `pre + obj + post`, where `obj` opens with `{` and closes with `}`,
      `pre` holds no `{` and `post` no `}`, the braces of `obj` are the
      outermost ones. */
  lemma WrittenBracesAreOutermost(pre: string, obj: string, post: string)
    requires 2 <= |obj| && obj[0] == '{' && obj[|obj| - 1] == '}'
    requires forall i :: 0 <= i < |pre| ==> pre[i] != '{'
    requires forall i :: 0 <= i < |post| ==> post[i] != '}'
    ensures OutermostBraces(pre + obj + post, |pre|, |pre| + |obj| - 1)
  {
    var text := pre + obj + post;
    var j := |pre| + |obj| - 1;
    assert text[|pre|] == obj[0] && text[j] == obj[|obj| - 1];
    forall q | 0 <= q < |pre| ensures text[q] != '{' {
      assert text[q] == pre[q];
    }
    forall q | j < q < |text| ensures text[q] != '}' {
      assert text[q] == post[q - j - 1];
    }
  }

  /** Two separate objects yield one span covering both. */
  lemma TwoObjectsGiveOneSpan()
    ensures CandidateText("Here: {\"a\": 1} and {\"b\": 2} ok") == "{\"a\": 1} and {\"b\": 2}"
  {
    var obj := "{\"a\": 1} and {\"b\": 2}";
    var text := "Here: " + obj + " ok";
    assert text == "Here: {\"a\": 1} and {\"b\": 2} ok";
    NoBacktickNoFence(text);
    BraceSpanIsGreedy("Here: ", obj, " ok");
  }

  /** A reply holding one fenced object, with prose around it and the
      delimiters on lines of their own, yields exactly that object. */
  lemma FencedObjectIsCandidate(prose: string, obj: string, closing: string)
    requires '`' !in prose && '`' !in obj
    requires 2 <= |obj| && obj[0] == '{' && obj[|obj| - 1] == '}'
    ensures CandidateText(prose + FenceOpen + ("\n" + obj + "\n") + FenceClose + closing) == obj
  {
    var body := "\n" + obj + "\n";
    NoBacktickNoDelimiter(prose);
    NoBacktickNoDelimiter(body);
    FenceIgnoresSurroundings(prose, body, closing);
    StripRemovesPadding("\n", obj, "\n");
  }
}
