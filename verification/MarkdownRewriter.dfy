/** Rewriting the links of a segment of Markdown text (docs/scripts/sync_docs_to_wiki.py,
    rewrite_links_in_segment). The resolver is an arbitrary function on targets that returns an unresolved
    target unchanged. Only targets change; and a rewritten segment still holds the same links exactly when
    every new target has balanced parentheses. */
module MarkdownRewriter {
  import opened Wrappers
  import opened PythonText
  import opened MarkdownLinks

  type Resolver = string -> string

  // ----- one segment

  /** The links lie in s one after another, the first target at or after pos. */
  ghost predicate Ready(s: string, links: seq<MarkdownLink>, pos: nat)
    decreases links
  {
    pos <= |s| &&
    (links != [] ==> Spans(s, links[0]) && pos <= TargetStart(links[0]) && Ready(s, links[1..], links[0].end))
  }

  /** The text from pos on with every target replaced. */
  ghost function Rewritten(s: string, links: seq<MarkdownLink>, pos: nat, f: Resolver): string
    requires Ready(s, links, pos)
    decreases links
  {
    if links == [] then s[pos..]
    else s[pos..TargetStart(links[0])] + (f(links[0].target) + ")") + Rewritten(s, links[1..], links[0].end, f)
  }

  lemma {:induction false} AscendingReady(s: string, links: seq<MarkdownLink>, pos: nat)
    requires Ascending(s, links, 0) && pos <= |s|
    requires links != [] ==> pos <= links[0].start
    ensures Ready(s, links, pos)
    decreases links
  {
    if links != [] {
      var rest := links[1..];
      assert Ascending(s, rest, 0);
      if rest != [] {
        assert links[0].end <= links[1].start;
      }
      AscendingReady(s, rest, links[0].end);
    }
  }

  lemma {:induction false} RewrittenGap(s: string, links: seq<MarkdownLink>, pos: nat, mid: nat, f: Resolver)
    requires Ready(s, links, pos) && pos <= mid <= |s|
    requires links != [] ==> mid <= TargetStart(links[0])
    ensures Ready(s, links, mid) && Rewritten(s, links, pos, f) == s[pos..mid] + Rewritten(s, links, mid, f)
  {
    if links == [] {
      SplitSlice(s, pos, mid, |s|);
    } else {
      var t := TargetStart(links[0]);
      assert Spans(s, links[0]) && 0 < t < links[0].end <= |s|;
      hide Spans, TargetStart;
      SplitSlice(s, pos, mid, t);
      var piece, tail := f(links[0].target) + ")", Rewritten(s, links[1..], links[0].end, f);
      AppendPiece(s[pos..mid], s[mid..t], piece + tail);
      AppendPiece(s[pos..t], piece, tail);
      AppendPiece(s[mid..t], piece, tail);
    }
  }

  lemma SplitSlice(s: string, a: nat, b: nat, c: nat)
    requires a <= b <= c <= |s|
    ensures s[a..c] == s[a..b] + s[b..c]
  {
  }

  method RewriteLinksInSegment(segment: string, f: Resolver) returns (out: string)
    ensures Ready(segment, Links(segment, 0), 0)
    ensures out == Rewritten(segment, Links(segment, 0), 0, f)
  {
    var links := IterMarkdownLinks(segment);
    LinksAscend(segment, 0);
    AscendingReady(segment, links, 0);
    hide Spans, Links;
    if links == [] {
      return segment;
    }
    out := "";
    var previousEnd: nat := 0;
    for i := 0 to |links|
      invariant previousEnd <= |segment| && (i < |links| ==> previousEnd <= links[i].start)
      invariant Ready(segment, links[i..], previousEnd)
      invariant out + Rewritten(segment, links[i..], previousEnd, f) == Rewritten(segment, links, 0, f)
    {
      var link := links[i];
      OneLink(segment, links, i, previousEnd, f);
      AppendPiece(out, segment[previousEnd..link.start] + (link.prefix + f(link.target) + link.suffix),
                  Rewritten(segment, links[i + 1..], link.end, f));
      out := out + (segment[previousEnd..link.start] + (link.prefix + f(link.target) + link.suffix));
      previousEnd := link.end;
      AscendingNext(segment, links, i);
    }
    assert links[|links|..] == [];
    out := out + segment[previousEnd..];
  }

  lemma AppendPiece(a: string, b: string, c: string)
    ensures a + b + c == a + (b + c)
  {
  }

  lemma AscendingNext(s: string, links: seq<MarkdownLink>, i: nat)
    requires Ascending(s, links, 0) && i < |links|
    ensures links[i].end <= |s| && (i + 1 < |links| ==> links[i].end <= links[i + 1].start)
  {
  }

  /** One turn of the loop: gap, prefix, new target, suffix. */
  lemma OneLink(s: string, links: seq<MarkdownLink>, i: nat, pos: nat, f: Resolver)
    requires Ascending(s, links, 0) && i < |links| && pos <= links[i].start && Ready(s, links[i..], pos)
    ensures links[i].start <= |s| && links[i].end <= |s| && Ready(s, links[i + 1..], links[i].end)
    ensures Rewritten(s, links[i..], pos, f)
         == s[pos..links[i].start] + (links[i].prefix + f(links[i].target) + links[i].suffix) + Rewritten(s, links[i + 1..], links[i].end, f)
  {
    var link, rest := links[i], links[i + 1..];
    assert links[i..][1..] == rest && links[i..][0] == link;
    var t := TargetStart(link);
    assert Spans(s, link);
    if rest != [] {
      assert link.end <= links[i + 1].start;
      assert links[i + 1] == rest[0] && Spans(s, rest[0]);
    }
    hide Spans, Ascending, TargetStart;
    SplitSlice(s, pos, link.start, t);
    AppendPiece(s[pos..t], f(link.target), ")");
    AppendPiece(s[pos..link.start], link.prefix, f(link.target));
    AppendPiece(s[pos..link.start], link.prefix + f(link.target), ")");
  }

  // ----- only targets change

  /** The text around the targets; `lead` goes before the first piece. */
  ghost function Around(s: string, links: seq<MarkdownLink>, pos: nat, lead: string): (pieces: seq<string>)
    requires Ready(s, links, pos)
    ensures |pieces| == |links| + 1
    decreases links
  {
    if links == [] then [lead + s[pos..]]
    else [lead + s[pos..TargetStart(links[0])]] + Around(s, links[1..], links[0].end, ")")
  }

  ghost function Weave(pieces: seq<string>, targets: seq<string>): string
    requires |pieces| == |targets| + 1
  {
    if targets == [] then pieces[0] else pieces[0] + targets[0] + Weave(pieces[1..], targets[1..])
  }

  ghost function Targets(links: seq<MarkdownLink>, f: Resolver): seq<string> {
    seq(|links|, i requires 0 <= i < |links| => f(links[i].target))
  }

  /** A rewriting is woven from the unchanging pieces around the new targets. */
  lemma {:induction false} RewrittenWoven(s: string, links: seq<MarkdownLink>, pos: nat, lead: string, f: Resolver)
    requires Ready(s, links, pos)
    ensures lead + Rewritten(s, links, pos, f) == Weave(Around(s, links, pos, lead), Targets(links, f))
    decreases links
  {
    hide Spans;
    if links != [] {
      var target, rest := f(links[0].target), links[1..];
      RewrittenWoven(s, rest, links[0].end, ")", f);
      assert Targets(links, f)[1..] == Targets(rest, f);
      WovenStep(lead, s[pos..TargetStart(links[0])], target, Rewritten(s, rest, links[0].end, f));
    }
  }

  lemma WovenStep(lead: string, gap: string, target: string, tail: string)
    ensures lead + (gap + (target + ")") + tail) == (lead + gap) + target + (")" + tail)
  {
  }

  lemma RewrittenFirst(s: string, links: seq<MarkdownLink>, pos: nat)
    requires Ready(s, links, pos)
    ensures pos <= |s| && (links == [] ==> Rewritten(s, links, pos, t => t) == s[pos..])
    ensures links != [] ==>
      var (link, t) := (links[0], TargetStart(links[0]));
      && pos <= t < link.end <= |s| && s[t..link.end - 1] == link.target && s[link.end - 1] == ')'
      && Ready(s, links[1..], link.end)
      && Rewritten(s, links, pos, t => t) == s[pos..t] + (link.target + ")") + Rewritten(s, links[1..], link.end, t => t)
  {
  }

  /** Replacing every target by itself gives back the text. */
  lemma {:induction false} RewrittenSame(s: string, links: seq<MarkdownLink>, pos: nat)
    requires Ready(s, links, pos)
    ensures Rewritten(s, links, pos, t => t) == s[pos..]
    decreases links
  {
    hide *;
    RewrittenFirst(s, links, pos);
    if links != [] {
      var link := links[0];
      var t := TargetStart(link);
      RewrittenSame(s, links[1..], link.end);
      assert s[link.end - 1..link.end] == ")";
      SplitSlice(s, pos, t, |s|);
      SplitSlice(s, t, link.end, |s|);
      SplitSlice(s, t, link.end - 1, link.end);
      AppendPiece(s[pos..t], s[t..link.end], s[link.end..]);
    }
  }

  /** The segment and its rewriting are woven from the same text pieces, around the old targets and
      around the new ones. */
  lemma OnlyTargetsChange(s: string, links: seq<MarkdownLink>, f: Resolver)
    requires Ready(s, links, 0)
    ensures s == Weave(Around(s, links, 0, ""), Targets(links, t => t))
    ensures Rewritten(s, links, 0, f) == Weave(Around(s, links, 0, ""), Targets(links, f))
  {
    RewrittenSame(s, links, 0);
    RewrittenWoven(s, links, 0, "", t => t);
    RewrittenWoven(s, links, 0, "", f);
    assert s[0..] == s && "" + s == s && "" + Rewritten(s, links, 0, f) == Rewritten(s, links, 0, f);
  }

  /** When no target resolves, rewriting is the identity. */
  lemma UnresolvedIsIdentity(s: string, links: seq<MarkdownLink>, f: Resolver)
    requires Ready(s, links, 0) && forall i :: 0 <= i < |links| ==> f(links[i].target) == links[i].target
    ensures Rewritten(s, links, 0, f) == s
  {
    OnlyTargetsChange(s, links, f);
    assert Targets(links, f) == Targets(links, t => t);
  }

  // ----- scanning the rewritten segment again

  /** Position i of s and position j of u face the same text, up to the replaced targets, and look
      back on the same character. */
  ghost predicate Aligned(s: string, links: seq<MarkdownLink>, i: nat, u: string, j: nat, f: Resolver) {
    && Ready(s, links, i) && j <= |u| && u[j..] == Rewritten(s, links, i, f)
    && (i == 0 <==> j == 0) && (i > 0 ==> s[i - 1] == u[j - 1])
  }

  function GapEnd(s: string, links: seq<MarkdownLink>): int { if links == [] then |s| else TargetStart(links[0]) }

  /** Inside the gap before the next target both texts agree and stay aligned. */
  lemma AlignedGap(s: string, links: seq<MarkdownLink>, i: nat, u: string, j: nat, f: Resolver, k: nat)
    requires Aligned(s, links, i, u, j, f) && i + k <= GapEnd(s, links) <= |s|
    ensures j + k <= |u| && u[j..j + k] == s[i..i + k] && Aligned(s, links, i + k, u, j + k, f)
  {
    GapTail(s, links, i, u, j, f, k);
    hide Ready, Rewritten, GapEnd;
    if k > 0 {
      LastOfSlice(s, i, u, j, k);
    }
  }

  lemma GapTail(s: string, links: seq<MarkdownLink>, i: nat, u: string, j: nat, f: Resolver, k: nat)
    requires Ready(s, links, i) && j <= |u| && u[j..] == Rewritten(s, links, i, f) && i + k <= GapEnd(s, links) <= |s|
    ensures Ready(s, links, i + k) && j + k <= |u|
    ensures u[j..j + k] == s[i..i + k] && u[j + k..] == Rewritten(s, links, i + k, f)
  {
    var mid, whole := i + k, u[j..];
    GapWithin(s, links, mid);
    hide *;
    RewrittenGap(s, links, i, mid, f);
    var tail := Rewritten(s, links, mid, f);
    GapPieces(s, i, u, j, k, whole, tail);
  }

  lemma GapPieces(s: string, i: nat, u: string, j: nat, k: nat, whole: string, tail: string)
    requires i + k <= |s| && j <= |u| && u[j..] == whole == s[i..i + k] + tail
    ensures j + k <= |u| && u[j..j + k] == s[i..i + k] && u[j + k..] == tail
  {
    TailSplits(u, j, k, s[i..i + k], tail);
  }

  lemma GapWithin(s: string, links: seq<MarkdownLink>, mid: nat)
    requires mid <= GapEnd(s, links) <= |s|
    ensures mid <= |s| && (links != [] ==> mid <= TargetStart(links[0]))
  {
  }

  lemma TailSplits(u: string, j: nat, k: nat, head: string, tail: string)
    requires j <= |u| && |head| == k && u[j..] == head + tail
    ensures j + k <= |u| && u[j..j + k] == head && u[j + k..] == tail
  {
    assert |u[j..]| == k + |tail|;
    assert u[j..j + k] == u[j..][..k] && u[j + k..] == u[j..][k..];
  }

  lemma LastOfSlice(s: string, i: nat, u: string, j: nat, k: nat)
    requires k > 0 && i + k <= |s| && j + k <= |u| && s[i..i + k] == u[j..j + k]
    ensures s[i + k - 1] == u[j + k - 1]
  {
    assert s[i..i + k][k - 1] == u[j..j + k][k - 1];
  }

  lemma AlignedChar(s: string, links: seq<MarkdownLink>, i: nat, u: string, j: nat, f: Resolver)
    requires Aligned(s, links, i, u, j, f) && i < GapEnd(s, links) <= |s|
    ensures j < |u| && u[j] == s[i] && Aligned(s, links, i + 1, u, j + 1, f)
  {
    AlignedGap(s, links, i, u, j, f, 1);
    assert u[j] == u[j..j + 1][0] == s[i..i + 1][0] == s[i];
  }

  /** Past the target: the closing parenthesis on both sides. */
  lemma AlignedTarget(s: string, links: seq<MarkdownLink>, i: nat, u: string, j: nat, f: Resolver)
    requires links != [] && Aligned(s, links, i, u, j, f) && i == TargetStart(links[0])
    ensures var m := j + |f(links[0].target)|;
            && m < |u| && u[j..m] == f(links[0].target) && u[m] == ')' == s[links[0].end - 1]
            && Ready(s, links[1..], links[0].end) && u[m + 1..] == Rewritten(s, links[1..], links[0].end, f)
  {
    var link, rest := links[0], links[1..];
    var target := f(link.target);
    assert Spans(s, link) && s[i..i] == [];
    hide Spans, Ready;
    var tail := Rewritten(s, rest, link.end, f);
    assert u[j..] == target + (")" + tail);
    hide *;
    TailSplits(u, j, |target|, target, ")" + tail);
    TailSplits(u, j + |target|, 1, ")", tail);
  }

  ghost predicate AllBalanced(links: seq<MarkdownLink>, f: Resolver) {
    forall i :: 0 <= i < |links| ==> Balanced(f(links[i].target))
  }

  lemma GapInRange(s: string, links: seq<MarkdownLink>, i: nat)
    requires Ready(s, links, i)
    ensures i <= GapEnd(s, links) <= |s|
    ensures links != [] ==> i < |s| && 0 < GapEnd(s, links) < |s| && s[GapEnd(s, links) - 1] == '('
    ensures GapEnd(s, links) == if links == [] then |s| else TargetStart(links[0])
  {
  }

  /** A target scan that starts in a gap ends on both sides or on neither, although targets changed. */
  lemma {:induction false} TargetEndsAlike(s: string, links: seq<MarkdownLink>, i: nat, u: string, j: nat, f: Resolver, depth: nat)
    requires Aligned(s, links, i, u, j, f) && AllBalanced(links, f)
    ensures TargetEnd(s, i, depth).None? <==> TargetEnd(u, j, depth).None?
    decreases |s| - i
  {
    hide Balanced, Aligned, Spans;
    AlignedStart(s, links, i, u, j, f);
    GapInRange(s, links, i);
    if i < GapEnd(s, links) {
      AlignedChar(s, links, i, u, j, f);
      if s[i] == '\\' {
        if i + 1 < GapEnd(s, links) {
          AlignedChar(s, links, i + 1, u, j + 1, f);
          TargetEndsAlike(s, links, i + 2, u, j + 2, f, depth);
        } else {
          EndOfText(s, links, i, u, j, f);
        }
      } else if s[i] == '(' {
        TargetEndsAlike(s, links, i + 1, u, j + 1, f, depth + 1);
      } else if s[i] == ')' {
        if depth > 0 {
          TargetEndsAlike(s, links, i + 1, u, j + 1, f, depth - 1);
        }
      } else {
        TargetEndsAlike(s, links, i + 1, u, j + 1, f, depth);
      }
    } else if links != [] {
      var m := j + |f(links[0].target)|;
      AlignedPast(s, links, i, u, j, f);
      ScanBalanced(s, i, links[0].end - 1, depth);
      ScanBalanced(u, j, m, depth);
      if depth > 0 {
        TargetEndsAlike(s, links[1..], links[0].end, u, m + 1, f, depth - 1);
      }
    } else {
      EndOfText(s, links, i, u, j, f);
    }
  }

  lemma AlignedStart(s: string, links: seq<MarkdownLink>, i: nat, u: string, j: nat, f: Resolver)
    requires Aligned(s, links, i, u, j, f)
    ensures Ready(s, links, i) && j <= |u|
  {
  }

  /** With no target left the texts end together. */
  lemma EndOfText(s: string, links: seq<MarkdownLink>, i: nat, u: string, j: nat, f: Resolver)
    requires Aligned(s, links, i, u, j, f) && links == []
    ensures |u| - j == |s| - i
  {
    assert |u[j..]| == |s[i..]|;
  }

  /** Both sides at a target: scan over it, past its closing parenthesis, aligned again. */
  lemma AlignedPast(s: string, links: seq<MarkdownLink>, i: nat, u: string, j: nat, f: Resolver)
    requires links != [] && Aligned(s, links, i, u, j, f) && i == TargetStart(links[0]) && AllBalanced(links, f)
    ensures var m := j + |f(links[0].target)|;
            && i <= links[0].end - 1 < |s| && s[links[0].end - 1] == ')' && Balanced(s[i..links[0].end - 1])
            && m < |u| && u[m] == ')' && u[j..m] == f(links[0].target) && Balanced(u[j..m])
            && Aligned(s, links[1..], links[0].end, u, m + 1, f) && AllBalanced(links[1..], f)
  {
    AlignedTarget(s, links, i, u, j, f);
    hide Balanced;
    assert Spans(s, links[0]) && Balanced(f(links[0].target));
  }

  // ----- labels

  /** Spaces that end before the limit end alike. */
  lemma {:induction false} SpacesAlike(s: string, i: nat, u: string, j: nat, n: nat, stop: nat)
    requires i + n <= |s| && j + n <= |u| && s[i..i + n] == u[j..j + n]
    requires i <= stop < i + n && !IsSpace(s[stop])
    ensures SkipSpaces(s, i) < i + n && SkipSpaces(u, j) - j == SkipSpaces(s, i) - i
    decreases n
  {
    assert s[i] == s[i..i + n][0] == u[j..j + n][0] == u[j];
    if IsSpace(s[i]) {
      SubSlice(s, i, i + n, 1, n);
      SubSlice(u, j, j + n, 1, n);
      SpacesAlike(s, i + 1, u, j + 1, n - 1, stop);
    }
  }

  /** Two texts that agree on n characters from i and j, with the same character before. */
  ghost predicate Agree(s: string, i: nat, u: string, j: nat, n: nat) {
    && i + n <= |s| && j + n <= |u| && s[i..i + n] == u[j..j + n]
    && (i == 0 <==> j == 0) && (i > 0 ==> s[i - 1] == u[j - 1])
  }

  lemma AgreeAt(s: string, i: nat, u: string, j: nat, n: nat, k: nat)
    requires Agree(s, i, u, j, n) && k < n
    ensures s[i + k] == u[j + k] && Agree(s, i + k, u, j + k, n - k) && Agree(s, i + k + 1, u, j + k + 1, n - k - 1)
  {
    assert s[i..i + n][k] == s[i + k] && u[j..j + n][k] == u[j + k];
    SubSlice(s, i, i + n, k, n);
    SubSlice(u, j, j + n, k, n);
    SubSlice(s, i, i + n, k + 1, n);
    SubSlice(u, j, j + n, k + 1, n);
    if k > 0 {
      assert s[i..i + n][k - 1] == s[i + k - 1] && u[j..j + n][k - 1] == u[j + k - 1];
    }
  }

  /** Whether a bracket closes a label is decided within the agreed text when a later character
      there is neither a space. */
  lemma ClosesIs(s: string, i: nat)
    requires i < |s| && SkipSpaces(s, i + 1) < |s|
    ensures ClosesLabel(s, i) <==> 0 < i && s[i] == ']' && s[i - 1] != '\\' && s[SkipSpaces(s, i + 1)] == '('
  {
  }

  lemma ClosesAlike(s: string, i: nat, u: string, j: nat, n: nat, stop: nat)
    requires Agree(s, i, u, j, n) && i < stop < i + n && !IsSpace(s[stop])
    ensures ClosesLabel(s, i) <==> ClosesLabel(u, j)
    ensures SkipSpaces(s, i + 1) < i + n && SkipSpaces(u, j + 1) - j == SkipSpaces(s, i + 1) - i
  {
    hide SkipSpaces, IsSpace, Agree, ClosesLabel;
    AgreeBounds(u, j, s, i, n);
    AgreeAt(s, i, u, j, n, 0);
    AgreeText(s, i + 1, u, j + 1, n - 1);
    SpacesAlike(s, i + 1, u, j + 1, n - 1, stop);
    SkipForward(s, i + 1);
    AgreeAt(s, i, u, j, n, SkipSpaces(s, i + 1) - i);
    AgreeBack(s, i, u, j, n);
    ClosesIs(s, i);
    ClosesIs(u, j);
  }

  /** Up to a bracket that closes a label, labels end alike. */
  lemma {:induction false} LabelEndsAlike(s: string, i: nat, u: string, j: nat, close: nat, paren: nat)
    requires i <= close < paren < |s| && s[close] == ']' && s[paren] == '(' && Agree(s, i, u, j, paren + 1 - i)
    requires LabelEnd(s, close) == Some(close)
    ensures LabelEnd(s, i).Some? && LabelEnd(s, i).value <= close
    ensures LabelEnd(u, j).Some? && LabelEnd(u, j).value - j == LabelEnd(s, i).value - i
    decreases close - i
  {
    var n := paren + 1 - i;
    hide *;
    MarksAreNoSpaces();
    AgreeBounds(u, j, s, i, n);
    ClosesAlike(s, i, u, j, n, if i < close then close else paren);
    LabelEndIs(s, i);
    LabelEndIs(u, j);
    if !ClosesLabel(s, i) {
      assert i != close by { LabelEndIs(s, close); }
      AgreeAt(s, i, u, j, n, 0);
      LabelEndsAlike(s, i + 1, u, j + 1, close, paren);
    }
  }

  lemma MarksAreNoSpaces()
    ensures !IsSpace(']') && !IsSpace('(')
  {
  }

  lemma LabelEndIs(s: string, i: nat)
    requires i < |s|
    ensures LabelEnd(s, i) == if ClosesLabel(s, i) then Some(i) else LabelEnd(s, i + 1)
    ensures LabelEnd(s, i) == Some(i) ==> ClosesLabel(s, i)
  {
    hide ClosesLabel;
  }

  // ----- links found again

  /** The same text to the end: labels end alike. */
  lemma {:induction false} LabelEndsAlikeInTail(s: string, i: nat, u: string, j: nat)
    requires 0 < i <= |s| && 0 < j <= |u| && s[i - 1..] == u[j - 1..]
    ensures LabelEnd(s, i).None? <==> LabelEnd(u, j).None?
    ensures LabelEnd(s, i).Some? ==> LabelEnd(u, j).value - j == LabelEnd(s, i).value - i
    decreases |s| - i
  {
    TailShift(s, i - 1, u, j - 1);
    if i < |s| {
      assert s[i - 1] == s[i - 1..][0] && s[i] == s[i - 1..][1] && u[j - 1] == u[j - 1..][0] && u[j] == u[j - 1..][1];
      TailShift(s, i, u, j);
      SpacesAlikeInTail(s, i + 1, u, j + 1);
      hide SkipSpaces;
      if !ClosesLabel(s, i) {
        LabelEndsAlikeInTail(s, i + 1, u, j + 1);
      }
    }
  }

  lemma TailShift(s: string, i: nat, u: string, j: nat)
    requires i <= |s| && j <= |u| && s[i..] == u[j..]
    ensures |s| - i == |u| - j
    ensures i < |s| ==> s[i] == u[j] && s[i + 1..] == u[j + 1..]
  {
    assert |s[i..]| == |u[j..]|;
    if i < |s| {
      assert s[i] == s[i..][0] == u[j..][0] == u[j];
      assert s[i + 1..] == s[i..][1..] && u[j + 1..] == u[j..][1..];
    }
  }

  lemma {:induction false} SpacesAlikeInTail(s: string, i: nat, u: string, j: nat)
    requires i <= |s| && j <= |u| && s[i..] == u[j..]
    ensures SkipSpaces(u, j) - j == SkipSpaces(s, i) - i
    ensures SkipSpaces(s, i) < |s| <==> SkipSpaces(u, j) < |u|
    ensures SkipSpaces(s, i) < |s| ==> s[SkipSpaces(s, i)] == u[SkipSpaces(u, j)]
    ensures s[SkipSpaces(s, i)..] == u[SkipSpaces(u, j)..]
    decreases |s| - i
  {
    TailShift(s, i, u, j);
    if i < |s| && IsSpace(s[i]) {
      SpacesAlikeInTail(s, i + 1, u, j + 1);
    }
  }

  lemma NoLinkMeans(s: string, p: nat)
    requires p < |s| && s[p] == '[' && LabelEnd(s, p + 1).Some?
    ensures LabelEnd(s, p + 1).value < |s|
    ensures LinkAt(s, p) == None <==> TargetEnd(s, SkipSpaces(s, LabelEnd(s, p + 1).value + 1) + 1, 0) == None
  {
    LabelEndFollowed(s, p, LabelEnd(s, p + 1).value);
    hide LabelEnd, SkipSpaces, TargetEnd, ClosesLabel;
  }

  /** Where the reference scan finds no link, neither does a scan of the rewritten text: after the
      last link. */
  lemma NoLinkInTail(s: string, i: nat, u: string, j: nat, f: Resolver)
    requires Aligned(s, [], i, u, j, f) && i < |s| && LinkAt(s, i) == None
    ensures LinkAt(u, j) == None
  {
    hide *;
    TailOf(s, i, u, j, f);
    TailShift(s, i, u, j);
    LabelEndsAlikeInTail(s, i + 1, u, j + 1);
    if s[i] == '[' && LabelEnd(s, i + 1).Some? {
      NoLinkMeans(s, i);
      NoLinkMeans(u, j);
      TargetOfTail(s, i, u, j, f, LabelEnd(s, i + 1).value);
    } else {
      NoLabelNone(u, j);
    }
  }

  lemma NoLabelNone(s: string, p: nat)
    requires p < |s| && (s[p] != '[' || LabelEnd(s, p + 1) == None)
    ensures LinkAt(s, p) == None
  {
  }

  lemma TargetOfTail(s: string, i: nat, u: string, j: nat, f: Resolver, close: nat)
    requires Aligned(s, [], i, u, j, f) && LabelEnd(s, i + 1) == Some(close)
    ensures i < close < |s| && j + (close - i) < |u|
    ensures TargetEnd(s, SkipSpaces(s, close + 1) + 1, 0).None? <==>
            TargetEnd(u, SkipSpaces(u, j + (close - i) + 1) + 1, 0).None?
  {
    hide *;
    LabelEndFollowed(s, i, close);
    AlignedInTail(s, i, u, j, f, close + 1 - i);
    var v := j + (close + 1 - i);
    TailOf(s, close + 1, u, v, f);
    SpacesAlikeInTail(s, close + 1, u, v);
    var paren := SkipSpaces(s, close + 1);
    AlignedInTail(s, close + 1, u, v, f, paren - close);
    NothingToBalance(f);
    TargetEndsAlike(s, [], paren + 1, u, v + (paren - close), f, 0);
  }

  lemma AlignedInTail(s: string, i: nat, u: string, j: nat, f: Resolver, k: nat)
    requires Aligned(s, [], i, u, j, f) && i + k <= |s|
    ensures j + k <= |u| && Aligned(s, [], i + k, u, j + k, f)
  {
    hide *;
    AlignedStart(s, [], i, u, j, f);
    GapInRange(s, [], i);
    AlignedGap(s, [], i, u, j, f, k);
  }

  lemma NothingToBalance(f: Resolver)
    ensures AllBalanced([], f)
  {
  }

  lemma TailOf(s: string, i: nat, u: string, j: nat, f: Resolver)
    requires Aligned(s, [], i, u, j, f)
    ensures i <= |s| && j <= |u| && u[j..] == s[i..]
  {
  }

  /** Before and at the next link: the texts agree up to its opening parenthesis. */
  lemma GapAgrees(s: string, links: seq<MarkdownLink>, i: nat, u: string, j: nat, f: Resolver, n: nat)
    requires Aligned(s, links, i, u, j, f) && i + n <= GapEnd(s, links) <= |s|
    ensures Agree(s, i, u, j, n)
  {
    AlignedGap(s, links, i, u, j, f, n);
  }

  /** Before the next link, no position starts a link on the other side either. */
  lemma NoLinkBefore(s: string, links: seq<MarkdownLink>, i: nat, p: nat, u: string, j: nat, f: Resolver)
    requires Aligned(s, links, i, u, j, f) && links != [] && AllBalanced(links, f)
    requires i < p && LinkAt(s, p) == Some(links[0]) && LinkAt(s, i) == None
    ensures LinkAt(u, j) == None
  {
    hide *;
    var close, paren, end := LinkAtParts(s, p);
    LabelOfGap(s, links, i, p, u, j, f, close, paren);
    if s[i] == '[' {
      var c := LabelEnd(s, i + 1).value;
      NoLinkMeans(s, i);
      NoLinkMeans(u, j);
      TargetOfGap(s, links, i, u, j, f, c, close, paren);
    } else {
      NoLabelNone(u, j);
    }
  }

  lemma LabelOfGap(s: string, links: seq<MarkdownLink>, i: nat, p: nat, u: string, j: nat, f: Resolver, close: nat, paren: nat)
    requires Aligned(s, links, i, u, j, f) && links != [] && TargetStart(links[0]) == paren + 1
    requires i <= p < close < paren < |s| && s[close] == ']' && s[paren] == '(' && LabelEnd(s, p + 1) == Some(close)
    ensures j < |u| && s[i] == u[j]
    ensures LabelEnd(s, i + 1).Some? && LabelEnd(s, i + 1).value <= close
    ensures LabelEnd(u, j + 1).Some? && LabelEnd(u, j + 1).value - j == LabelEnd(s, i + 1).value - i
  {
    hide *;
    var n := paren + 1 - i;
    AlignedStart(s, links, i, u, j, f);
    GapInRange(s, links, i);
    GapAgrees(s, links, i, u, j, f, n);
    AgreeBounds(u, j, s, i, n);
    AgreeAt(s, i, u, j, n, 0);
    LabelEndAt(s, p + 1, close);
    LabelEndsAlike(s, i + 1, u, j + 1, close, paren);
  }

  lemma AgreeText(s: string, i: nat, u: string, j: nat, n: nat)
    requires Agree(s, i, u, j, n)
    ensures i + n <= |s| && j + n <= |u| && s[i..i + n] == u[j..j + n]
  {
  }

  lemma AgreeBack(s: string, i: nat, u: string, j: nat, n: nat)
    requires Agree(s, i, u, j, n)
    ensures (i == 0 <==> j == 0) && i <= |s| && j <= |u| && (i > 0 ==> s[i - 1] == u[j - 1])
  {
  }

  lemma AgreeBounds(u: string, j: nat, s: string, i: nat, n: nat)
    requires Agree(s, i, u, j, n)
    ensures i + n <= |s| && j + n <= |u|
  {
  }

  lemma {:induction false} LabelEndAt(s: string, i: nat, close: nat)
    requires LabelEnd(s, i) == Some(close)
    ensures LabelEnd(s, close) == Some(close)
    decreases close - i
  {
    if i < close {
      LabelEndAt(s, i + 1, close);
    }
  }

  lemma TargetOfGap(s: string, links: seq<MarkdownLink>, i: nat, u: string, j: nat, f: Resolver, c: nat, close: nat, paren: nat)
    requires Aligned(s, links, i, u, j, f) && links != [] && AllBalanced(links, f)
    requires i < c <= close < paren < |s| && s[close] == ']' && s[paren] == '(' && TargetStart(links[0]) == paren + 1
    requires LabelEnd(s, i + 1) == Some(c)
    ensures j + (c - i) < |u|
    ensures TargetEnd(s, SkipSpaces(s, c + 1) + 1, 0).None? <==>
            TargetEnd(u, SkipSpaces(u, j + (c - i) + 1) + 1, 0).None?
  {
    hide *;
    var at, v := SkipSpaces(s, c + 1), j + (c - i);
    SpacesOfGap(s, links, i, u, j, f, c, close, paren);
    AlignedStart(s, links, i, u, j, f);
    GapInRange(s, links, i);
    AlignedGap(s, links, i, u, j, f, at + 1 - i);
    TargetEndsAlike(s, links, at + 1, u, j + (at + 1 - i), f, 0);
    assert SkipSpaces(u, v + 1) + 1 == j + (at + 1 - i);
  }

  lemma SpacesOfGap(s: string, links: seq<MarkdownLink>, i: nat, u: string, j: nat, f: Resolver, c: nat, close: nat, paren: nat)
    requires Aligned(s, links, i, u, j, f) && links != []
    requires i < c <= close < paren < |s| && s[close] == ']' && s[paren] == '(' && TargetStart(links[0]) == paren + 1
    ensures j + (c - i) < |u| && c < SkipSpaces(s, c + 1) <= paren
    ensures SkipSpaces(u, j + (c - i) + 1) - j == SkipSpaces(s, c + 1) - i
  {
    hide *;
    var n := paren + 1 - i;
    AlignedStart(s, links, i, u, j, f);
    GapInRange(s, links, i);
    GapAgrees(s, links, i, u, j, f, n);
    AgreeBounds(u, j, s, i, n);
    AgreeAt(s, i, u, j, n, c - i);
    NotSpaces();
    SkipForward(s, c + 1);
    ClosesAlike(s, c, u, j + (c - i), n - (c - i), if c < close then close else paren);
  }

  lemma NotSpaces()
    ensures !IsSpace(']') && !IsSpace('(')
  {
  }

  lemma SkipForward(s: string, i: nat)
    requires i <= |s|
    ensures i <= SkipSpaces(s, i) <= |s|
  {
  }

  /** The same links, prefix by prefix, with the new targets. */
  ghost predicate SameLinks(found: seq<MarkdownLink>, links: seq<MarkdownLink>, f: Resolver) {
    && |found| == |links|
    && forall i :: 0 <= i < |links| ==> found[i].prefix == links[i].prefix && found[i].target == f(links[i].target)
  }

  /** At a link, the other side has the same link with the new target. */
  lemma LinkAgain(s: string, links: seq<MarkdownLink>, p: nat, u: string, j: nat, f: Resolver)
    requires Aligned(s, links, p, u, j, f) && links != [] && AllBalanced(links, f) && LinkAt(s, p) == Some(links[0])
    ensures LinkAt(u, j).Some?
    ensures var again := LinkAt(u, j).value;
            && Links(u, j) == [again] + Links(u, again.end)
            && again.prefix == links[0].prefix && again.target == f(links[0].target)
            && Aligned(s, links[1..], links[0].end, u, again.end, f) && AllBalanced(links[1..], f)
  {
    hide *;
    var close, paren, end := LinkAtParts(s, p);
    LabelEndAt(s, p + 1, close);
    LabelOfGap(s, links, p, p, u, j, f, close, paren);
    SpacesOfGap(s, links, p, u, j, f, close, close, paren);
    AlignedStart(s, links, p, u, j, f);
    GapInRange(s, links, p);
    AlignedGap(s, links, p, u, j, f, paren + 1 - p);
    var t := j + (paren + 1 - p);
    AlignedPast(s, links, paren + 1, u, t, f);
    var m := t + |f(links[0].target)|;
    TargetExactly(u, t, m);
    LinkFound(u, j, j + (close - p), m);
    PrefixAgain(s, links, p, u, j, f, paren);
  }

  /** The label with its exclamation mark, if it has one. */
  lemma PrefixAgain(s: string, links: seq<MarkdownLink>, p: nat, u: string, j: nat, f: Resolver, paren: nat)
    requires Aligned(s, links, p, u, j, f) && links != [] && p <= paren < |s| && TargetStart(links[0]) == paren + 1
    ensures j + (paren + 1 - p) <= |u|
    ensures u[if j > 0 && u[j - 1] == '!' then j - 1 else j..j + (paren + 1 - p)]
         == s[if p > 0 && s[p - 1] == '!' then p - 1 else p..paren + 1]
  {
    AlignedGap(s, links, p, u, j, f, paren + 1 - p);
    hide Rewritten, Ready, Spans;
    if p > 0 {
      SplitSlice(s, p - 1, p, paren + 1);
      SplitSlice(u, j - 1, j, j + (paren + 1 - p));
      assert s[p - 1..p] == [s[p - 1]] == u[j - 1..j];
    }
  }

  lemma {:induction false} RescanFrom(s: string, from: nat, u: string, j: nat, f: Resolver)
    requires from <= |s| && Aligned(s, Links(s, from), from, u, j, f) && AllBalanced(Links(s, from), f)
    ensures SameLinks(Links(u, j), Links(s, from), f)
    decreases |s| - from
  {
    hide Aligned, LinkAt, AllBalanced, Spans;
    var links := Links(s, from);
    AlignedStart(s, links, from, u, j, f);
    GapInRange(s, links, from);
    if from == |s| {
      EndOfText(s, links, from, u, j, f);
    } else {
      match LinkAt(s, from)
      case Some(link) =>
        LinkAgain(s, links, from, u, j, f);
        assert links[1..] == Links(s, link.end);
        RescanFrom(s, link.end, u, LinkAt(u, j).value.end, f);
      case None =>
        assert links == Links(s, from + 1);
        if links == [] {
          NoLinkInTail(s, from, u, j, f);
        } else {
          var p := NextLink(s, from);
          var close, paren, end := LinkAtParts(s, p);
          NoLinkBefore(s, links, from, p, u, j, f);
        }
        AlignedChar(s, links, from, u, j, f);
        RescanFrom(s, from + 1, u, j + 1, f);
    }
  }

  lemma {:induction false} NextLink(s: string, from: nat) returns (p: nat)
    requires Links(s, from) != []
    ensures p >= from && LinkAt(s, p) == Some(Links(s, from)[0])
    ensures LinkAt(s, from) == None ==> p > from
    decreases |s| - from
  {
    if LinkAt(s, from).Some? {
      p := from;
    } else {
      p := NextLink(s, from + 1);
    }
  }

  /** The rewritten segment holds the same links with the new targets if and only if every new
      target has balanced parentheses. */
  lemma RescanExactly(s: string, f: Resolver)
    requires Ready(s, Links(s, 0), 0)
    ensures SameLinks(Links(Rewritten(s, Links(s, 0), 0, f), 0), Links(s, 0), f) <==> AllBalanced(Links(s, 0), f)
  {
    var u := Rewritten(s, Links(s, 0), 0, f);
    if AllBalanced(Links(s, 0), f) {
      assert u[0..] == u;
      RescanFrom(s, 0, u, 0, f);
    }
    if SameLinks(Links(u, 0), Links(s, 0), f) {
      LinksAscend(u, 0);
      forall i | 0 <= i < |Links(s, 0)|
        ensures Balanced(f(Links(s, 0)[i].target))
      {
        assert Spans(u, Links(u, 0)[i]);
      }
    }
  }

  /** A new target that closes its link early (the page of zh/)/b.md): the rewritten segment holds another
      link. */
  lemma TargetCanCloseEarly()
    ensures Links("[a](b)", 0) == [MarkdownLink(0, 6, "[a](", "b", ")")] && Ready("[a](b)", Links("[a](b)", 0), 0)
    ensures var f: Resolver := (target: string) => if target == "b" then "zh-)-b" else target;
      !SameLinks(Links(Rewritten("[a](b)", Links("[a](b)", 0), 0, f), 0), Links("[a](b)", 0), f)
  {
    var s, f: Resolver := "[a](b)", (target: string) => if target == "b" then "zh-)-b" else target;
    OneLinkText();
    LinksAscend(s, 0);
    AscendingReady(s, Links(s, 0), 0);
    ClosesEarly();
    assert f(Links(s, 0)[0].target) == "zh-)-b";
    hide Balanced;
    RescanExactly(s, f);
  }

  lemma ClosesEarly()
    ensures !Balanced("zh-)-b")
  {
    assert "zh-)-b"[1..] == "h-)-b" && "h-)-b"[1..] == "-)-b" && "-)-b"[1..] == ")-b";
    assert !Balanced(")-b");
    assert !Balanced("-)-b");
  }

  lemma OneLinkText()
    ensures Links("[a](b)", 0) == [MarkdownLink(0, 6, "[a](", "b", ")")]
  {
    var s := "[a](b)";
    assert !ClosesLabel(s, 1) && SkipSpaces(s, 3) == 3 && ClosesLabel(s, 2);
    assert LabelEnd(s, 1) == LabelEnd(s, 2) == Some(2);
    assert TargetEnd(s, 4, 0) == TargetEnd(s, 5, 0) == Some(5);
    assert s[0..4] == "[a](" && s[4..5] == "b";
    assert LinkAt(s, 0) == Some(MarkdownLink(0, 6, "[a](", "b", ")"));
    assert Links(s, 6) == [];
  }

  /** Rewriting an already rewritten segment changes nothing, when new targets are balanced and the
      resolver leaves them alone. */
  lemma RewriteIdempotent(s: string, f: Resolver)
    requires Ready(s, Links(s, 0), 0) && AllBalanced(Links(s, 0), f)
    requires forall i :: 0 <= i < |Links(s, 0)| ==> f(f(Links(s, 0)[i].target)) == f(Links(s, 0)[i].target)
    ensures var u := Rewritten(s, Links(s, 0), 0, f);
            Ready(u, Links(u, 0), 0) && Rewritten(u, Links(u, 0), 0, f) == u
  {
    var u := Rewritten(s, Links(s, 0), 0, f);
    RescanExactly(s, f);
    LinksAscend(u, 0);
    AscendingReady(u, Links(u, 0), 0);
    UnresolvedIsIdentity(u, Links(u, 0), f);
  }
}
