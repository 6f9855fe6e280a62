/** Rewriting the links of a Markdown page (docs/scripts/sync_docs_to_wiki.py, iter_segments,
    rewrite_links): fenced blocks and inline code stay as they are, and text is rewritten segment by
    segment. */
module MarkdownPages {
  import opened Wrappers
  import opened MarkdownLinks
  import opened MarkdownRewriter

  // ----- whole pages

  datatype Segment = Text(text: string) | InlineCode(text: string) | CodeBlock(text: string)

  datatype Span = Span(start: nat, end: nat)

  /** Spans in order and without overlap. */
  predicate Fences(content: string, fences: seq<Span>, from: nat)
    decreases fences
  {
    from <= |content| &&
    (fences != [] ==> from <= fences[0].start < fences[0].end <= |content| && Fences(content, fences[1..], fences[0].end))
  }

  // the pattern of a fenced block, over lines: three ticks or tildes, and the next line that is just those

  predicate LineStart(s: string, i: nat) { i == 0 || (i <= |s| && s[i - 1] == '\n') }

  predicate LineEnd(s: string, i: nat) { i == |s| || (i < |s| && s[i] == '\n') }

  predicate MarkAt(s: string, i: nat, c: char) { LineStart(s, i) && i + 3 <= |s| && s[i] == s[i + 1] == s[i + 2] == c }

  /** The pattern with its lazy parts: from three marks at the start of a line on to the end of a line, and from
      there on to a line of three marks alone, which ends at e. */
  predicate Fenced(s: string, p: nat, e: nat, c: char) {
    && p + 3 <= e - 3 && e <= |s|
    && s[p..p + 3] == [c, c, c] && (p > 0 ==> s[p - 1] == '\n')
    && s[e - 3..e] == [c, c, c] && s[e - 4] == '\n' && (e < |s| ==> s[e] == '\n')
    && exists m :: p + 3 <= m <= e - 3 && s[m] == '\n'
  }

  /** The end of the first such line at or after q. */
  function MarkLine(s: string, q: nat, c: char): (r: Option<nat>)
    ensures r.Some? ==> q + 3 <= r.value <= |s| && MarkAt(s, r.value - 3, c) && LineEnd(s, r.value)
    ensures forall k :: q <= k < (if r.Some? then r.value - 3 else |s|) ==> !(MarkAt(s, k, c) && LineEnd(s, k + 3))
    decreases |s| - q
  {
    if q + 3 > |s| then None
    else if MarkAt(s, q, c) && LineEnd(s, q + 3) then Some(q + 3)
    else MarkLine(s, q + 1, c)
  }

  /** The fenced block that starts at p, if one does. */
  function FenceAt(s: string, p: nat): (r: Option<nat>)
    ensures r.Some? ==> p < r.value <= |s|
  {
    if MarkAt(s, p, '`') then MarkLine(s, p + 3, '`')
    else if MarkAt(s, p, '~') then MarkLine(s, p + 3, '~')
    else None
  }

  /** It is what the pattern matches: the shortest text from p on that fits. */
  lemma FenceAtExactly(s: string, p: nat, e: nat)
    ensures FenceAt(s, p) == Some(e) <==>
      (Fenced(s, p, e, '`') || Fenced(s, p, e, '~')) && forall k: nat :: k < e ==> !Fenced(s, p, k, '`') && !Fenced(s, p, k, '~')
  {
    FencedIsMarkLine(s, p, '`');
    FencedIsMarkLine(s, p, '~');
    hide Fenced;
  }

  lemma FencedIsMarkLine(s: string, p: nat, c: char)
    requires c != '\n'
    ensures forall k: nat :: Fenced(s, p, k, c) <==>
      MarkAt(s, p, c) && k >= p + 6 && MarkAt(s, k - 3, c) && LineEnd(s, k)
  {
    forall k: nat
      ensures Fenced(s, p, k, c) <==> MarkAt(s, p, c) && k >= p + 6 && MarkAt(s, k - 3, c) && LineEnd(s, k)
    {
      if MarkAt(s, p, c) && k >= p + 6 && MarkAt(s, k - 3, c) && LineEnd(s, k) {
        assert k > p + 6 && LineEnd(s, k - 4);
      }
    }
  }

  /** The successive matches of the pattern. */
  function FencedBlocks(s: string, i: nat): (fences: seq<Span>)
    requires i <= |s|
    ensures Fences(s, fences, i)
    decreases |s| - i
  {
    if i == |s| then []
    else match FenceAt(s, i)
      case Some(e) => [Span(i, e)] + FencedBlocks(s, e)
      case None => var later := FencedBlocks(s, i + 1); FencesEarlier(s, later, i); later
  }

  lemma FencesEarlier(s: string, fences: seq<Span>, i: nat)
    requires Fences(s, fences, i + 1)
    ensures Fences(s, fences, i)
  {
  }

  predicate InSome(fences: seq<Span>, p: nat) { exists k :: 0 <= k < |fences| && fences[k].start <= p < fences[k].end }

  /** Every block found is a match of the pattern at its start, and nothing outside of them starts a match. */
  ghost predicate BlocksAre(s: string, fences: seq<Span>, i: nat) {
    && (forall k :: 0 <= k < |fences| ==> FenceAt(s, fences[k].start) == Some(fences[k].end))
    && forall p: nat :: i <= p <= |s| && !InSome(fences, p) ==> FenceAt(s, p).None?
  }

  lemma InSomeBehind(first: Span, later: seq<Span>, p: nat)
    ensures InSome([first] + later, p) <==> first.start <= p < first.end || InSome(later, p)
  {
    var fences := [first] + later;
    assert fences[0] == first && forall k :: 0 <= k < |later| ==> fences[k + 1] == later[k];
  }

  lemma BlockBehind(s: string, i: nat, e: nat, later: seq<Span>)
    requires i < e <= |s| && BlocksAre(s, later, e) && Fences(s, later, e) && FenceAt(s, i) == Some(e)
    ensures BlocksAre(s, [Span(i, e)] + later, i)
  {
    var fences := [Span(i, e)] + later;
    hide FenceAt, Fences, InSome;
    assert fences[0] == Span(i, e) && forall k :: 0 <= k < |later| ==> fences[k + 1] == later[k];
    forall p: nat | i <= p <= |s| && !InSome(fences, p)
      ensures FenceAt(s, p).None?
    {
      InSomeBehind(Span(i, e), later, p);
    }
  }

  lemma NoBlockHere(s: string, i: nat, later: seq<Span>)
    requires i < |s| && BlocksAre(s, later, i + 1) && FenceAt(s, i).None?
    ensures BlocksAre(s, later, i)
  {
    hide FenceAt, InSome;
  }

  lemma {:induction false} BlocksExactly(s: string, i: nat)
    requires i <= |s|
    ensures BlocksAre(s, FencedBlocks(s, i), i)
    decreases |s| - i
  {
    hide FenceAt, BlocksAre;
    if i == |s| {
      NoBlockAtEnd(s);
    } else {
      match FenceAt(s, i)
      case Some(e) =>
        BlocksExactly(s, e);
        BlockBehind(s, i, e, FencedBlocks(s, e));
      case None =>
        BlocksExactly(s, i + 1);
        NoBlockHere(s, i, FencedBlocks(s, i + 1));
    }
  }

  lemma NoBlockAtEnd(s: string)
    ensures BlocksAre(s, [], |s|)
  {
  }

  /** The next match of a backtick, anything but backticks, and a backtick. */
  function NextTick(s: string, i: nat): (r: nat)
    requires i <= |s|
    ensures i <= r <= |s| && (forall k :: i <= k < r ==> s[k] != '`') && (r < |s| ==> s[r] == '`')
    decreases |s| - i
  {
    if i == |s| || s[i] == '`' then i else NextTick(s, i + 1)
  }

  predicate HasInline(s: string, from: nat)
    requires from <= |s|
  {
    NextTick(s, from) < |s| && NextTick(s, NextTick(s, from) + 1) < |s|
  }

  function Inline(s: string, from: nat): seq<Segment>
    requires from <= |s|
    decreases |s| - from
  {
    if !HasInline(s, from) then (if from < |s| then [Text(s[from..])] else [])
    else
      var open := NextTick(s, from);
      var close := NextTick(s, open + 1);
      InlineFront(s, from, open, close) + Inline(s, close + 1)
  }

  /** The text before an inline code span, if any, and the span. */
  function InlineFront(s: string, from: nat, open: nat, close: nat): seq<Segment>
    requires from <= open < close < |s|
  {
    if open > from then [Text(s[from..open]), InlineCode(s[open..close + 1])] else [InlineCode(s[open..close + 1])]
  }

  function Segments(content: string, fences: seq<Span>, from: nat): seq<Segment>
    requires Fences(content, fences, from)
    decreases fences
  {
    if fences == [] then Inline(content[from..], 0)
    else Inline(content[from..fences[0].start], 0) + [CodeBlock(content[fences[0].start..fences[0].end])]
         + Segments(content, fences[1..], fences[0].end)
  }

  function Joined(segments: seq<Segment>): string {
    if segments == [] then "" else segments[0].text + Joined(segments[1..])
  }

  lemma {:induction false} JoinedSplit(a: seq<Segment>, b: seq<Segment>)
    ensures Joined(a + b) == Joined(a) + Joined(b)
  {
    if a == [] {
      assert a + b == b;
    } else {
      assert (a + b)[1..] == a[1..] + b;
      JoinedSplit(a[1..], b);
      AppendPiece(a[0].text, Joined(a[1..]), Joined(b));
    }
  }

  lemma {:induction false} InlineLosesNothing(s: string, from: nat)
    requires from <= |s|
    ensures Joined(Inline(s, from)) == s[from..]
    decreases |s| - from
  {
    hide NextTick, Joined, InlineFront;
    NoSegments();
    if HasInline(s, from) {
      var open := NextTick(s, from);
      var close := NextTick(s, open + 1);
      InlineLosesNothing(s, close + 1);
      FrontJoined(s, from, open, close, Inline(s, close + 1));
    } else if from < |s| {
      JoinedOne(Text(s[from..]));
    }
  }

  lemma NoSegments()
    ensures Joined([]) == ""
  {
  }

  lemma FrontJoined(s: string, from: nat, open: nat, close: nat, rest: seq<Segment>)
    requires from <= open < close < |s| && Joined(rest) == s[close + 1..]
    ensures Joined(InlineFront(s, from, open, close) + rest) == s[from..]
  {
    InlineFrontText(s, from, open, close);
    hide Joined, InlineFront;
    JoinedSplit(InlineFront(s, from, open, close), rest);
    SplitSlice(s, from, close + 1, |s|);
  }

  lemma InlineFrontText(s: string, from: nat, open: nat, close: nat)
    requires from <= open < close < |s|
    ensures Joined(InlineFront(s, from, open, close)) == s[from..close + 1]
  {
    hide Joined;
    var code := InlineCode(s[open..close + 1]);
    SplitSlice(s, from, open, close + 1);
    if open > from {
      JoinedTwo(Text(s[from..open]), code);
    } else {
      JoinedOne(code);
    }
  }

  lemma JoinedTwo(a: Segment, b: Segment)
    ensures Joined([a, b]) == a.text + b.text
  {
    assert [a, b][1..] == [b];
    JoinedOne(b);
  }

  lemma JoinedOne(segment: Segment)
    ensures Joined([segment]) == segment.text
  {
  }

  /** The segments of a page concatenate to the page. */
  lemma {:induction false} SegmentsLoseNothing(content: string, fences: seq<Span>, from: nat)
    requires Fences(content, fences, from)
    ensures Joined(Segments(content, fences, from)) == content[from..]
    decreases fences
  {
    if fences == [] {
      InlineLosesNothing(content[from..], 0);
      assert content[from..][0..] == content[from..];
    } else {
      var before, fence := content[from..fences[0].start], fences[0];
      InlineLosesNothing(before, 0);
      assert before[0..] == before;
      SegmentsLoseNothing(content, fences[1..], fence.end);
      hide Joined, Inline, Fences, Segments;
      BlockJoined(content, from, fence.start, fence.end, Inline(before, 0), Segments(content, fences[1..], fence.end));
    }
  }

  lemma ThreeSlices(content: string, from: nat, start: nat, end: nat)
    requires from <= start <= end <= |content|
    ensures content[from..start] + content[start..end] + content[end..] == content[from..]
  {
  }

  lemma BlockJoined(content: string, from: nat, start: nat, end: nat, before: seq<Segment>, rest: seq<Segment>)
    requires from <= start <= end <= |content| && Joined(before) == content[from..start] && Joined(rest) == content[end..]
    ensures Joined(before + [CodeBlock(content[start..end])] + rest) == content[from..]
  {
    hide *;
    var block := CodeBlock(content[start..end]);
    JoinedOne(block);
    JoinedSplit(before + [block], rest);
    JoinedSplit(before, [block]);
    ThreeSlices(content, from, start, end);
  }

  ghost function RewrittenText(s: string, f: Resolver): string {
    LinksAscend(s, 0);
    AscendingReady(s, Links(s, 0), 0);
    Rewritten(s, Links(s, 0), 0, f)
  }

  /** A page rewritten segment by segment. */
  ghost function RewrittenAll(segments: seq<Segment>, f: Resolver): string {
    if segments == [] then ""
    else (if segments[0].Text? then RewrittenText(segments[0].text, f) else segments[0].text) + RewrittenAll(segments[1..], f)
  }

  method RewriteLinks(content: string, f: Resolver) returns (out: string)
    ensures out == RewrittenAll(Segments(content, FencedBlocks(content, 0), 0), f)
  {
    hide FencedBlocks, Segments;
    out := "";
    var fences := FencedBlocks(content, 0);
    var segments := Segments(content, fences, 0);
    for i := 0 to |segments|
      invariant out + RewrittenAll(segments[i..], f) == RewrittenAll(segments, f)
    {
      var segment := segments[i];
      assert segments[i..][1..] == segments[i + 1..];
      var piece := segment.text;
      if segment.Text? {
        piece := RewriteLinksInSegment(segment.text, f);
      }
      AppendPiece(out, piece, RewrittenAll(segments[i + 1..], f));
      out := out + piece;
    }
    assert segments[|segments|..] == [];
  }

  /** A page in whose text no target resolves comes back unchanged. */
  lemma UnresolvedPageUnchanged(content: string, fences: seq<Span>, f: Resolver)
    requires Fences(content, fences, 0)
    requires forall segment, link :: segment in Segments(content, fences, 0) && segment.Text? && link in Links(segment.text, 0)
               ==> f(link.target) == link.target
    ensures RewrittenAll(Segments(content, fences, 0), f) == content
  {
    SegmentsLoseNothing(content, fences, 0);
    assert content[0..] == content;
    UnresolvedSegments(Segments(content, fences, 0), f);
  }

  lemma {:induction false} UnresolvedSegments(segments: seq<Segment>, f: Resolver)
    requires forall segment, link :: segment in segments && segment.Text? && link in Links(segment.text, 0)
               ==> f(link.target) == link.target
    ensures RewrittenAll(segments, f) == Joined(segments)
  {
    if segments != [] {
      UnresolvedSegments(segments[1..], f);
      if segments[0].Text? {
        var s := segments[0].text;
        LinksAscend(s, 0);
        AscendingReady(s, Links(s, 0), 0);
        UnresolvedIsIdentity(s, Links(s, 0), f);
      }
    }
  }

  // ----- when a rewritten stretch between code blocks has the same segments

  ghost function RewrittenSegments(segments: seq<Segment>, f: Resolver): (r: seq<Segment>)
    ensures |r| == |segments|
  {
    if segments == [] then []
    else [if segments[0].Text? then Text(RewrittenText(segments[0].text, f)) else segments[0]] + RewrittenSegments(segments[1..], f)
  }

  /** A backtick, anything but backticks, and a backtick. */
  predicate Coded(c: string) { |c| >= 2 && forall k :: 0 <= k < |c| ==> (c[k] == '`' <==> k == 0 || k == |c| - 1) }

  /** What the segments of a stretch look like: no text is empty, and none is followed by text. */
  predicate Shaped(segments: seq<Segment>) {
    segments == [] ||
    match segments[0]
    case Text(x) => x != "" && (|segments| > 1 ==> segments[1].InlineCode?) && Shaped(segments[1..])
    case InlineCode(c) => Coded(c) && Shaped(segments[1..])
    case CodeBlock(_) => false
  }

  /** Text holds no backtick, but for one in the last. */
  predicate Unticked(segments: seq<Segment>) {
    segments == [] ||
    ((segments[0].Text? ==> if |segments| > 1 then '`' !in segments[0].text else !HasInline(segments[0].text, 0))
     && Unticked(segments[1..]))
  }

  lemma TickIs(s: string, i: nat, r: nat)
    requires i <= r <= |s| && (forall k :: i <= k < r ==> s[k] != '`') && (r < |s| ==> s[r] == '`')
    ensures NextTick(s, i) == r
  {
  }

  lemma {:induction false} TickBy(s: string, i: nat, j: nat)
    requires i <= j < |s| && s[j] == '`'
    ensures NextTick(s, i) <= j
    decreases j - i
  {
    if s[i] != '`' {
      TickBy(s, i + 1, j);
    }
  }

  lemma InlineIs(s: string, from: nat, open: nat, close: nat)
    requires from <= open < close < |s| && NextTick(s, from) == open && NextTick(s, open + 1) == close
    ensures Inline(s, from) == InlineFront(s, from, open, close) + Inline(s, close + 1)
  {
    hide NextTick, InlineFront;
  }

  lemma InlineIsText(s: string, from: nat)
    requires from <= |s| && !HasInline(s, from)
    ensures Inline(s, from) == if from < |s| then [Text(s[from..])] else []
  {
  }

  /** From d on, s is t. */
  ghost predicate Behind(s: string, d: nat, t: string) { |s| == d + |t| && forall j :: 0 <= j < |t| ==> s[d + j] == t[j] }

  lemma TickBehind(s: string, d: nat, t: string, k: nat)
    requires Behind(s, d, t) && k <= |t|
    ensures d + k <= |s| && NextTick(s, d + k) == d + NextTick(t, k)
  {
    TickIs(s, d + k, d + NextTick(t, k)) by {
      forall i | d + k <= i < d + NextTick(t, k)
        ensures s[i] != '`'
      {
        assert s[d + (i - d)] == t[i - d];
      }
    }
  }

  function CodeFront(x: string, c: string): seq<Segment> { if x == "" then [InlineCode(c)] else [Text(x), InlineCode(c)] }

  lemma FrontBehind(s: string, d: nat, t: string, k: nat, open: nat, close: nat)
    requires Behind(s, d, t) && k <= open < close < |t|
    ensures InlineFront(s, d + k, d + open, d + close) == InlineFront(t, k, open, close)
  {
    SliceBehind(s, d, t, k, open);
    SliceBehind(s, d, t, open, close + 1);
    hide Behind;
  }

  lemma SliceBehind(s: string, d: nat, t: string, i: nat, j: nat)
    requires Behind(s, d, t) && i <= j <= |t|
    ensures d + j <= |s| && s[d + i..d + j] == t[i..j]
    ensures j == |t| ==> s[d + i..] == t[i..]
  {
  }

  /** What is found behind does not depend on what is before. */
  lemma {:induction false} InlineBehind(s: string, d: nat, t: string, k: nat)
    requires Behind(s, d, t) && k <= |t|
    ensures d + k <= |s| && Inline(s, d + k) == Inline(t, k)
    decreases |t| - k
  {
    hide *;
    HasInlineBehind(s, d, t, k);
    if HasInline(t, k) {
      var open, close := NextTick(t, k), NextTick(t, NextTick(t, k) + 1);
      InlineBehind(s, d, t, close + 1);
      FrontBehind(s, d, t, k, open, close);
      InlineIs(t, k, open, close);
      InlineIs(s, d + k, d + open, d + close);
    } else {
      InlineIsText(t, k);
      InlineIsText(s, d + k);
      SliceBehind(s, d, t, k, |t|);
    }
  }

  lemma HasInlineBehind(s: string, d: nat, t: string, k: nat)
    requires Behind(s, d, t) && k <= |t|
    ensures |s| == d + |t| && (HasInline(s, d + k) <==> HasInline(t, k))
    ensures HasInline(t, k) ==>
      var (open, close) := (NextTick(t, k), NextTick(t, NextTick(t, k) + 1));
      k <= open < close < |t| && NextTick(s, d + k) == d + open && NextTick(s, d + open + 1) == d + close
  {
    assert |s| == d + |t|;
    hide NextTick, Behind;
    TickBehind(s, d, t, k);
    if NextTick(t, k) < |t| {
      TickBehind(s, d, t, NextTick(t, k) + 1);
    }
  }

  /** Text, and behind it inline code. */
  ghost predicate CodeBehind(s: string, x: string, c: string, rest: string) {
    Coded(c) && x <= s && Behind(s, |x|, c + rest) && Behind(s, |x| + |c|, rest)
  }

  lemma CodeThere(x: string, c: string, rest: string)
    requires Coded(c)
    ensures CodeBehind(x + c + rest, x, c, rest)
  {
    hide Coded;
  }

  lemma TextAndCode(s: string, x: string, c: string, rest: string)
    requires CodeBehind(s, x, c, rest)
    ensures |c| >= 2 && |x| + |c| <= |s| && s[|x|] == '`' && Behind(s, |x| + |c|, rest)
    ensures '`' !in x ==> NextTick(s, 0) == |x| && NextTick(s, |x| + 1) == |x| + |c| - 1
    ensures InlineFront(s, 0, |x|, |x| + |c| - 1) == CodeFront(x, c)
  {
    assert forall k :: 0 <= k < |c| ==> (c + rest)[k] == c[k];
    assert forall k :: |x| <= k < |x| + |c| ==> s[k] == (c + rest)[k - |x|];
    assert s[0..|x|] == x && s[|x|..|x| + |c|] == c;
    if '`' !in x {
      assert forall k :: 0 <= k < |x| ==> s[k] == x[k];
      hide NextTick;
      TickIs(s, 0, |x|);
      TickIs(s, |x| + 1, |x| + |c| - 1);
    }
  }

  /** In front of inline code: text without backticks is found again, and other text is not. */
  lemma CodeFound(s: string, x: string, c: string, rest: string)
    requires CodeBehind(s, x, c, rest)
    ensures '`' !in x ==> Inline(s, 0) == CodeFront(x, c) + Inline(rest, 0)
    ensures '`' in x ==> Inline(s, 0) != [] && Inline(s, 0)[0] != Text(x)
  {
    hide *;
    TextAndCode(s, x, c, rest);
    if '`' !in x {
      InlineBehind(s, |x| + |c|, rest, 0);
      InlineIs(s, 0, |x|, |x| + |c| - 1);
    } else {
      TickedText(s, x, c, rest);
    }
  }

  lemma TickedText(s: string, x: string, c: string, rest: string)
    requires CodeBehind(s, x, c, rest) && '`' in x
    ensures Inline(s, 0) != [] && Inline(s, 0)[0] != Text(x)
  {
    TextAndCode(s, x, c, rest);
    var j :| 0 <= j < |x| && x[j] == '`';
    assert s[j] == x[j] && |x| <= |s|;
    hide NextTick, Coded, Inline, CodeBehind;
    TickBy(s, 0, j);
    var open := NextTick(s, 0);
    TickBy(s, open + 1, |x|);
    InlineIs(s, 0, open, NextTick(s, open + 1));
    assert open > 0 ==> InlineFront(s, 0, open, NextTick(s, open + 1))[0] == Text(s[0..open]) && |s[0..open]| == open;
  }

  lemma TextAlone(x: string)
    requires x != ""
    ensures Inline(x, 0) == [Text(x)] <==> !HasInline(x, 0)
  {
    assert x[0..] == x;
    if HasInline(x, 0) {
      var open, close := NextTick(x, 0), NextTick(x, NextTick(x, 0) + 1);
      InlineIs(x, 0, open, close);
      var front := InlineFront(x, 0, open, close);
      hide Inline, NextTick;
      assert Inline(x, 0)[0] == front[0];
      assert open > 0 ==> front[0] == Text(x[0..open]) && |x[0..open]| == open;
    }
  }

  lemma {:induction false} InlineAgain(segments: seq<Segment>)
    requires Shaped(segments)
    ensures Inline(Joined(segments), 0) == segments <==> Unticked(segments)
  {
    hide *;
    if segments == [] {
      NothingInline();
    } else {
      ShapedFront(segments);
      if segments[0].InlineCode? {
        InlineAgain(segments[1..]);
        CodeAgain(segments);
      } else if |segments| == 1 {
        TextAgain(segments);
      } else {
        InlineAgain(segments[2..]);
        TextAndCodeAgain(segments);
      }
    }
  }

  lemma ShapedFront(segments: seq<Segment>)
    requires segments != [] && Shaped(segments)
    ensures segments[0].InlineCode? ==> Coded(segments[0].text) && Shaped(segments[1..])
    ensures !segments[0].InlineCode? ==> segments[0].Text? && segments[0].text != ""
    ensures segments[0].Text? && |segments| > 1 ==> segments[1].InlineCode? && Coded(segments[1].text) && Shaped(segments[2..])
  {
    hide Coded;
    if |segments| > 1 {
      assert segments[1..][1..] == segments[2..];
    }
  }

  lemma SameAfter(front: seq<Segment>, a: seq<Segment>, b: seq<Segment>)
    ensures front + a == front + b <==> a == b
  {
    assert (front + a)[|front|..] == a && (front + b)[|front|..] == b;
  }

  lemma CodeAgain(segments: seq<Segment>)
    requires segments != [] && segments[0].InlineCode? && Coded(segments[0].text)
    requires Inline(Joined(segments[1..]), 0) == segments[1..] <==> Unticked(segments[1..])
    ensures Inline(Joined(segments), 0) == segments <==> Unticked(segments)
  {
    var c, rest, s := segments[0].text, segments[1..], Joined(segments);
    assert Unticked(segments) <==> Unticked(rest);
    assert "" + c + Joined(rest) == s;
    assert segments == CodeFront("", c) + rest;
    FoundAgain(segments, s, "", c, rest);
  }

  lemma FoundAgain(segments: seq<Segment>, s: string, x: string, c: string, rest: seq<Segment>)
    requires s == x + c + Joined(rest) && Coded(c) && segments == CodeFront(x, c) + rest
    ensures '`' !in x ==> (Inline(s, 0) == segments <==> Inline(Joined(rest), 0) == rest)
    ensures '`' in x ==> Inline(s, 0) != segments
  {
    var below, front := Joined(rest), CodeFront(x, c);
    CodeThere(x, c, below);
    assert '`' in x ==> segments[0] == Text(x);
    hide *;
    CodeFound(s, x, c, below);
    SameAfter(front, Inline(below, 0), rest);
  }

  lemma TextAgain(segments: seq<Segment>)
    requires |segments| == 1 && segments[0].Text? && segments[0].text != ""
    ensures Inline(Joined(segments), 0) == segments <==> Unticked(segments)
  {
    var x := segments[0].text;
    assert Unticked(segments) <==> !HasInline(x, 0) by { hide HasInline; }
    hide *;
    assert segments == [Text(x)];
    JoinedOne(Text(x));
    TextAlone(x);
  }

  lemma TextAndCodeAgain(segments: seq<Segment>)
    requires |segments| > 1 && segments[0].Text? && segments[0].text != "" && segments[1].InlineCode? && Coded(segments[1].text)
    requires Inline(Joined(segments[2..]), 0) == segments[2..] <==> Unticked(segments[2..])
    ensures Inline(Joined(segments), 0) == segments <==> Unticked(segments)
  {
    var x, c, rest, s := segments[0].text, segments[1].text, segments[2..], Joined(segments);
    UntickedFront(segments);
    JoinedFront(segments);
    assert segments == CodeFront(x, c) + rest;
    hide *;
    FoundAgain(segments, s, x, c, rest);
  }

  lemma UntickedFront(segments: seq<Segment>)
    requires |segments| > 1 && segments[0].Text? && segments[1].InlineCode?
    ensures Unticked(segments) <==> '`' !in segments[0].text && Unticked(segments[2..])
  {
    assert segments[1..][1..] == segments[2..];
    hide HasInline;
  }

  lemma JoinedFront(segments: seq<Segment>)
    requires |segments| > 1
    ensures Joined(segments) == segments[0].text + segments[1].text + Joined(segments[2..])
  {
    hide *;
    var rest := segments[1..];
    JoinedStep(segments);
    JoinedStep(rest);
    Associates(segments[0].text, rest[0].text, Joined(rest[1..]));
    assert segments[2..] == rest[1..];
  }

  lemma Associates(a: string, b: string, c: string)
    ensures a + (b + c) == a + b + c
  {
  }

  lemma JoinedStep(segments: seq<Segment>)
    requires segments != []
    ensures Joined(segments) == segments[0].text + Joined(segments[1..])
  {
  }

  lemma NothingInline()
    ensures Inline("", 0) == [] && Joined([]) == "" && Unticked([])
  {
  }

  lemma FrontShaped(s: string, from: nat, open: nat, close: nat, rest: seq<Segment>)
    requires from <= open < close < |s| && open == NextTick(s, from) && close == NextTick(s, open + 1) && Shaped(rest)
    ensures Shaped(InlineFront(s, from, open, close) + rest)
  {
    var c := s[open..close + 1];
    assert Coded(c) by { assert forall k :: 0 <= k < |c| ==> c[k] == s[open + k]; }
    hide NextTick, Coded;
    assert ([InlineCode(c)] + rest)[1..] == rest;
    assert Shaped([InlineCode(c)] + rest);
    if open > from {
      assert (InlineFront(s, from, open, close) + rest)[1..] == [InlineCode(c)] + rest;
    }
  }

  lemma Cut(s: string, from: nat)
    requires from <= |s| && HasInline(s, from)
    ensures NextTick(s, from) < NextTick(s, NextTick(s, from) + 1) < |s|
  {
    hide NextTick;
  }

  lemma TextShaped(x: string)
    ensures Shaped([]) && (x != "" ==> Shaped([Text(x)]))
  {
    assert [Text(x)][1..] == [];
  }

  /** The segments of a stretch are of that shape. */
  lemma {:induction false} InlineShaped(s: string, from: nat)
    requires from <= |s|
    ensures Shaped(Inline(s, from))
    decreases |s| - from
  {
    hide *;
    if HasInline(s, from) {
      Cut(s, from);
      var open, close := NextTick(s, from), NextTick(s, NextTick(s, from) + 1);
      InlineIs(s, from, open, close);
      InlineShaped(s, close + 1);
      FrontShaped(s, from, open, close, Inline(s, close + 1));
    } else {
      InlineIsText(s, from);
      TextShaped(s[from..]);
    }
  }

  lemma RewrittenNotEmpty(s: string, f: Resolver)
    requires s != ""
    ensures RewrittenText(s, f) != ""
  {
    LinksAscend(s, 0);
    AscendingReady(s, Links(s, 0), 0);
    hide Links;
  }

  lemma {:induction false} RewritingShapes(segments: seq<Segment>, f: Resolver)
    requires Shaped(segments)
    ensures Shaped(RewrittenSegments(segments, f)) && Joined(RewrittenSegments(segments, f)) == RewrittenAll(segments, f)
  {
    if segments != [] {
      var next := RewrittenSegments(segments, f);
      RewritingShapes(segments[1..], f);
      assert next[1..] == RewrittenSegments(segments[1..], f);
      if segments[0].Text? {
        RewrittenNotEmpty(segments[0].text, f);
      }
      hide RewrittenText;
    }
  }

  /** A stretch between code blocks: what is rewritten has the same segments, but for the new targets, if and
      only if no rewritten text holds a backtick, save the last, which may hold one. */
  lemma SegmentsAgainExactly(s: string, f: Resolver)
    ensures var segments := Inline(s, 0);
      Inline(RewrittenAll(segments, f), 0) == RewrittenSegments(segments, f) <==> Unticked(RewrittenSegments(segments, f))
  {
    InlineShaped(s, 0);
    hide *;
    RewritingShapes(Inline(s, 0), f);
    InlineAgain(RewrittenSegments(Inline(s, 0), f));
  }

  /** A link in front of inline code, to a page with a backtick in its name (the page of zh/`/b.md): the
      rewritten page has other segments. */
  lemma BacktickMovesCode()
    ensures var f: Resolver := (target: string) => if target == "b" then "zh-`-b" else target;
      var segments := Inline("[a](b)`c`", 0);
      && segments == [Text("[a](b)"), InlineCode("`c`")] && RewrittenAll(segments, f) == "[a](zh-`-b)`c`"
      && Inline("[a](zh-`-b)`c`", 0) != RewrittenSegments(segments, f)
  {
    var s, f: Resolver := "[a](b)`c`", (target: string) => if target == "b" then "zh-`-b" else target;
    hide *;
    CodePage();
    CodePageRewritten(f);
    SegmentsAgainExactly(s, f);
  }

  lemma CodePage()
    ensures Inline("[a](b)`c`", 0) == [Text("[a](b)"), InlineCode("`c`")]
  {
    CodeThere("[a](b)", "`c`", "");
    assert "[a](b)" + "`c`" + "" == "[a](b)`c`";
    assert CodeFront("[a](b)", "`c`") == [Text("[a](b)"), InlineCode("`c`")];
    assert '`' !in "[a](b)";
    hide *;
    CodeFound("[a](b)`c`", "[a](b)", "`c`", "");
    NothingInline();
  }

  lemma CodePageRewritten(f: Resolver)
    requires f("b") == "zh-`-b"
    ensures var segments := [Text("[a](b)"), InlineCode("`c`")];
      RewrittenAll(segments, f) == "[a](zh-`-b)`c`" && !Unticked(RewrittenSegments(segments, f))
  {
    var a, b, x := Text("[a](b)"), InlineCode("`c`"), "[a](zh-`-b)";
    OneLinkRewritten(f);
    assert x[7] == '`' && x + "`c`" == "[a](zh-`-b)`c`";
    TwoRewritten(a, b, f);
    hide *;
    TickedFirst(Text(x), b);
  }

  lemma TwoRewritten(a: Segment, b: Segment, f: Resolver)
    requires a.Text? && b.InlineCode?
    ensures RewrittenSegments([a, b], f) == [Text(RewrittenText(a.text, f)), b]
    ensures RewrittenAll([a, b], f) == RewrittenText(a.text, f) + b.text
  {
    assert [a, b][1..] == [b] && [b][1..] == [];
    hide RewrittenText;
    assert RewrittenAll([b][1..], f) == "" && RewrittenSegments([b][1..], f) == [];
    assert RewrittenAll([b], f) == b.text && RewrittenSegments([b], f) == [b];
  }

  lemma TickedFirst(a: Segment, b: Segment)
    requires a.Text? && '`' in a.text
    ensures !Unticked([a, b])
  {
  }

  lemma OneLinkRewritten(f: Resolver)
    requires f("b") == "zh-`-b"
    ensures RewrittenText("[a](b)", f) == "[a](zh-`-b)"
  {
    OneLinkText();
    var s, links := "[a](b)", Links("[a](b)", 0);
    LinksAscend(s, 0);
    AscendingReady(s, links, 0);
    hide Links;
    assert links[1..] == [] && s[6..] == "" && s[0..4] == "[a](";
  }

  // ----- the rewritten page, block by block

  /** Where the stretch in front of block k begins, and where it ends. */
  function StretchStart(fences: seq<Span>, from: nat, k: nat): nat
    requires k <= |fences|
  {
    if k == 0 then from else fences[k - 1].end
  }

  function StretchEnd(content: string, fences: seq<Span>, k: nat): nat
    requires k <= |fences|
  {
    if k == |fences| then |content| else fences[k].start
  }

  /** The page: a rewritten stretch in front of each block and one behind the last, the blocks as they were. */
  ghost predicate PageIs(content: string, fences: seq<Span>, from: nat, f: Resolver, stretches: seq<string>, blocks: seq<string>) {
    && |stretches| == |fences| + 1 && |blocks| == |fences|
    && (forall k :: 0 <= k < |fences| ==> StretchIs(content, fences, from, f, stretches[k], k) && BlockIs(content, fences, blocks[k], k))
    && StretchIs(content, fences, from, f, stretches[|fences|], |fences|)
  }

  ghost predicate StretchIs(content: string, fences: seq<Span>, from: nat, f: Resolver, stretch: string, k: nat)
    requires k <= |fences|
  {
    && StretchStart(fences, from, k) <= StretchEnd(content, fences, k) <= |content|
    && stretch == RewrittenAll(Inline(content[StretchStart(fences, from, k)..StretchEnd(content, fences, k)], 0), f)
  }

  ghost predicate BlockIs(content: string, fences: seq<Span>, block: string, k: nat)
    requires k < |fences|
  {
    fences[k].start <= fences[k].end <= |content| && block == content[fences[k].start..fences[k].end]
  }

  lemma {:induction false} RewrittenSplit(a: seq<Segment>, b: seq<Segment>, f: Resolver)
    ensures RewrittenAll(a + b, f) == RewrittenAll(a, f) + RewrittenAll(b, f)
  {
    hide RewrittenText;
    if a == [] {
      assert a + b == b;
    } else {
      assert (a + b)[1..] == a[1..] + b;
      RewrittenSplit(a[1..], b, f);
    }
  }

  lemma {:induction false} PageWoven(content: string, fences: seq<Span>, from: nat, f: Resolver)
    returns (stretches: seq<string>, blocks: seq<string>)
    requires Fences(content, fences, from)
    ensures PageIs(content, fences, from, f, stretches, blocks)
    ensures RewrittenAll(Segments(content, fences, from), f) == Weave(stretches, blocks)
    decreases fences
  {
    hide Inline, RewrittenAll;
    if fences == [] {
      stretches, blocks := [RewrittenAll(Inline(content[from..], 0), f)], [];
      assert content[from..|content|] == content[from..];
    } else {
      var first, rest := fences[0], fences[1..];
      var laterStretches, laterBlocks := PageWoven(content, rest, first.end, f);
      var stretch, block := Inline(content[from..first.start], 0), content[first.start..first.end];
      stretches := [RewrittenAll(stretch, f)] + laterStretches;
      blocks := [block] + laterBlocks;
      PageBehind(content, fences, from, f, stretches, blocks);
      BlockRewritten(stretch, block, Segments(content, rest, first.end), f);
      assert stretches[1..] == laterStretches && blocks[1..] == laterBlocks;
    }
  }

  lemma BlockRewritten(stretch: seq<Segment>, block: string, rest: seq<Segment>, f: Resolver)
    ensures RewrittenAll(stretch + [CodeBlock(block)] + rest, f) == RewrittenAll(stretch, f) + block + RewrittenAll(rest, f)
  {
    RewrittenSplit(stretch + [CodeBlock(block)], rest, f);
    RewrittenSplit(stretch, [CodeBlock(block)], f);
    assert [CodeBlock(block)][1..] == [];
    hide RewrittenText;
  }

  lemma PageBehind(content: string, fences: seq<Span>, from: nat, f: Resolver, stretches: seq<string>, blocks: seq<string>)
    requires fences != [] && Fences(content, fences, from) && stretches != [] && blocks != []
    requires PageIs(content, fences[1..], fences[0].end, f, stretches[1..], blocks[1..])
    requires StretchIs(content, fences, from, f, stretches[0], 0) && BlockIs(content, fences, blocks[0], 0)
    ensures PageIs(content, fences, from, f, stretches, blocks)
  {
    hide StretchIs, BlockIs;
    forall k: nat | 1 <= k <= |fences|
      ensures StretchIs(content, fences, from, f, stretches[k], k)
      ensures k < |fences| ==> BlockIs(content, fences, blocks[k], k)
    {
      assert StretchIs(content, fences[1..], fences[0].end, f, stretches[1..][k - 1], k - 1);
      assert k < |fences| ==> BlockIs(content, fences[1..], blocks[1..][k - 1], k - 1);
      OneFurther(content, fences, from, f, stretches[k], if k < |fences| then blocks[k] else "", k);
    }
  }

  lemma OneFurther(content: string, fences: seq<Span>, from: nat, f: Resolver, stretch: string, block: string, k: nat)
    requires 1 <= k <= |fences| && StretchIs(content, fences[1..], fences[0].end, f, stretch, k - 1)
    requires k < |fences| ==> BlockIs(content, fences[1..], block, k - 1)
    ensures StretchIs(content, fences, from, f, stretch, k)
    ensures k < |fences| ==> BlockIs(content, fences, block, k)
  {
    hide RewrittenAll, Inline;
  }

  /** The page that comes out: every block that the pattern matches stands in it unchanged, in its place
      between the rewritten stretches. */
  lemma PageTells(content: string, f: Resolver) returns (stretches: seq<string>, blocks: seq<string>)
    ensures PageIs(content, FencedBlocks(content, 0), 0, f, stretches, blocks)
    ensures RewrittenAll(Segments(content, FencedBlocks(content, 0), 0), f) == Weave(stretches, blocks)
    ensures BlocksAre(content, FencedBlocks(content, 0), 0)
  {
    BlocksExactly(content, 0);
    hide *;
    stretches, blocks := PageWoven(content, FencedBlocks(content, 0), 0, f);
  }

  // ----- the segments of a stretch, told on the stretch

  /** Two backticks at or behind from. */
  ghost predicate TwoTicks(s: string, from: nat) { exists i, j :: from <= i < j < |s| && s[i] == '`' && s[j] == '`' }

  lemma HasInlineExactly(s: string, from: nat)
    requires from <= |s|
    ensures HasInline(s, from) <==> TwoTicks(s, from)
  {
    var i := NextTick(s, from);
    if i < |s| {
      var j := NextTick(s, i + 1);
      hide NextTick;
      assert j < |s| ==> from <= i < j < |s| && s[i] == '`' && s[j] == '`';
    }
  }

  /** The segments found are the only ones that make up the stretch, text and inline code alternating, with no
      backtick in a text but perhaps one in the last. */
  lemma InlineExactly(s: string, segments: seq<Segment>)
    ensures segments == Inline(s, 0) <==> Shaped(segments) && Joined(segments) == s && Unticked(segments)
  {
    InlineShaped(s, 0);
    InlineLosesNothing(s, 0);
    assert s[0..] == s;
    hide Inline, Shaped, Unticked, Joined;
    InlineAgain(Inline(s, 0));
    if Shaped(segments) && Joined(segments) == s {
      InlineAgain(segments);
    }
  }

  /** Only text is rewritten. */
  lemma {:induction false} RewrittenAt(segments: seq<Segment>, f: Resolver, i: nat)
    requires i < |segments|
    ensures RewrittenSegments(segments, f)[i] ==
            if segments[i].Text? then Text(RewrittenText(segments[i].text, f)) else segments[i]
  {
    hide RewrittenText;
    if i > 0 {
      RewrittenAt(segments[1..], f, i - 1);
    }
  }
}
