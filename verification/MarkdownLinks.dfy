/** The Markdown link scanner and rewriter of the wiki sync (docs/scripts/sync_docs_to_wiki.py).
    The scanner jumps ahead after a failed attempt; it is proved to find exactly the links that a
    scan of every position from the left would find, each with a balanced target. */
module MarkdownLinks {
  import opened Wrappers
  import opened PythonText

  // ----- what the scanners look for

  function SkipSpaces(s: string, i: nat): (j: nat)
    requires i <= |s|
    ensures i <= j <= |s|
    decreases |s| - i
  {
    if i < |s| && IsSpace(s[i]) then SkipSpaces(s, i + 1) else i
  }

  /** An unescaped closing bracket that only spaces separate from an opening parenthesis. */
  predicate ClosesLabel(s: string, i: nat) {
    && 0 < i < |s| && s[i] == ']' && s[i - 1] != '\\'
    && SkipSpaces(s, i + 1) < |s| && s[SkipSpaces(s, i + 1)] == '('
  }

  /** The first such bracket at or after i. */
  function LabelEnd(s: string, i: nat): (r: Option<nat>)
    ensures r.Some? ==> i <= r.value && ClosesLabel(s, r.value)
    decreases |s| - i
  {
    if i >= |s| then None else if ClosesLabel(s, i) then Some(i) else LabelEnd(s, i + 1)
  }

  /** The parenthesis that ends the target, scanning from i with `depth` parentheses open. */
  function TargetEnd(s: string, i: nat, depth: nat): (r: Option<nat>)
    ensures r.Some? ==> i <= r.value < |s| && s[r.value] == ')'
    decreases |s| - i
  {
    if i >= |s| then None
    else if s[i] == '\\' then TargetEnd(s, i + 2, depth)
    else if s[i] == '(' then TargetEnd(s, i + 1, depth + 1)
    else if s[i] == ')' then (if depth == 0 then Some(i) else TargetEnd(s, i + 1, depth - 1))
    else TargetEnd(s, i + 1, depth)
  }

  datatype MarkdownLink = MarkdownLink(start: nat, end: nat, prefix: string, target: string, suffix: string)

  /** The link whose label opens at p, if there is one. */
  function LinkAt(s: string, p: nat): (r: Option<MarkdownLink>)
    ensures r.Some? ==> p < r.value.end <= |s|
  {
    if p >= |s| || s[p] != '[' then None
    else
      match LabelEnd(s, p + 1)
      case None => None
      case Some(close) =>
        var target := SkipSpaces(s, close + 1) + 1;
        match TargetEnd(s, target, 0)
        case None => None
        case Some(end) =>
          var start := if p > 0 && s[p - 1] == '!' then p - 1 else p;
          Some(MarkdownLink(start, end + 1, s[start..target], s[target..end], ")"))
  }

  /** The reference scan: try every position from the left, resume after each link. */
  function Links(s: string, from: nat): seq<MarkdownLink>
    decreases |s| - from
  {
    if from >= |s| then []
    else match LinkAt(s, from)
      case Some(link) => [link] + Links(s, link.end)
      case None => Links(s, from + 1)
  }

  // ----- the scanners

  /** str.find for one character. */
  method FindChar(s: string, c: char, from: nat) returns (r: Option<nat>)
    ensures r.Some? ==> from <= r.value < |s| && s[r.value] == c
    ensures forall i :: from <= i < (if r.Some? then r.value else |s|) ==> s[i] != c
  {
    var i := from;
    while i < |s|
      invariant from <= i
      invariant forall j :: from <= j < i && j < |s| ==> s[j] != c
    {
      if s[i] == c {
        return Some(i);
      }
      i := i + 1;
    }
    return None;
  }

  lemma {:induction false} LabelEndSkip(s: string, from: nat, upto: nat)
    requires from <= upto
    requires forall i :: from <= i < upto ==> !ClosesLabel(s, i)
    ensures LabelEnd(s, from) == LabelEnd(s, upto)
    decreases upto - from
  {
    if from < upto {
      LabelEndSkip(s, from + 1, upto);
    }
  }

  method PassSpaces(content: string, from: nat) returns (index: nat)
    requires from <= |content|
    ensures index == SkipSpaces(content, from)
  {
    index := from;
    while index < |content| && IsSpace(content[index])
      invariant from <= index <= |content|
      invariant SkipSpaces(content, index) == SkipSpaces(content, from)
    {
      index := index + 1;
    }
  }

  method FindLabelEnd(content: string, labelStart: nat) returns (r: Option<nat>)
    ensures r == LabelEnd(content, labelStart + 1)
  {
    var index := labelStart + 1;
    while index < |content|
      invariant labelStart < index
      invariant LabelEnd(content, index) == LabelEnd(content, labelStart + 1)
    {
      var close := FindChar(content, ']', index);
      if close.None? {
        LabelEndSkip(content, index, |content|);
        return None;
      }
      LabelEndSkip(content, index, close.value);
      if content[close.value - 1] == '\\' {
        index := close.value + 1;
        continue;
      }
      var lookahead := PassSpaces(content, close.value + 1);
      if lookahead < |content| && content[lookahead] == '(' {
        return close;
      }
      index := close.value + 1;
    }
    return None;
  }

  method FindTargetEnd(content: string, targetStart: nat) returns (r: Option<nat>)
    ensures r == TargetEnd(content, targetStart, 0)
  {
    var depth: nat := 0;
    var index := targetStart;
    while index < |content|
      invariant TargetEnd(content, index, depth) == TargetEnd(content, targetStart, 0)
    {
      var character := content[index];
      if character == '\\' {
        index := index + 2;
        continue;
      }
      if character == '(' {
        depth := depth + 1;
      } else if character == ')' {
        if depth == 0 {
          return Some(index);
        }
        depth := depth - 1;
      }
      index := index + 1;
    }
    return None;
  }

  lemma {:induction false} LinksSkip(s: string, from: nat, upto: nat)
    requires from <= upto <= |s|
    requires forall p :: from <= p < upto ==> LinkAt(s, p) == None
    ensures Links(s, from) == Links(s, upto)
    decreases upto - from
  {
    if from < upto {
      LinksSkip(s, from + 1, upto);
    }
  }

  /** After a target that never ends, no bracket inside the label can open a link either. */
  lemma LabelHoldsNoLink(s: string, p: nat, close: nat, q: nat)
    requires LabelEnd(s, p + 1) == Some(close) && p <= q <= close
    requires TargetEnd(s, SkipSpaces(s, close + 1) + 1, 0) == None
    ensures LinkAt(s, q) == None
  {
    hide *;
    LabelEndFollowed(s, p, close);
    if q < close {
      LabelEndNone(s, p + 1, close);
      LabelEndSkip(s, p + 1, q + 1);
    }
    TargetNoneNoLink(s, q, close);
  }

  lemma TargetNoneNoLink(s: string, q: nat, close: nat)
    requires close < |s| && (LabelEnd(s, q + 1) == Some(close) || (q == close && s[q] == ']'))
    requires TargetEnd(s, SkipSpaces(s, close + 1) + 1, 0) == None
    ensures LinkAt(s, q) == None
  {
    hide LabelEnd, TargetEnd, SkipSpaces, ClosesLabel;
  }

  lemma JumpPastLabel(s: string, p: nat, close: nat)
    requires LabelEnd(s, p + 1) == Some(close)
    requires TargetEnd(s, SkipSpaces(s, close + 1) + 1, 0) == None
    ensures close < |s| && Links(s, p) == Links(s, close + 1)
  {
    assert ClosesLabel(s, close);
    hide LabelEnd, ClosesLabel, TargetEnd, SkipSpaces, LinkAt, Links;
    forall q | p <= q < close + 1
      ensures LinkAt(s, q) == None
    {
      LabelHoldsNoLink(s, p, close, q);
    }
    LinksSkip(s, p, close + 1);
  }

  lemma {:induction false} LabelEndNone(s: string, from: nat, close: nat)
    requires LabelEnd(s, from) == Some(close)
    ensures forall i :: from <= i < close ==> !ClosesLabel(s, i)
    decreases close - from
  {
    if from < close {
      LabelEndNone(s, from + 1, close);
    }
  }

  /** The scanner, jumps included, yields exactly the links of the reference scan. */
  method IterMarkdownLinks(content: string) returns (links: seq<MarkdownLink>)
    ensures links == Links(content, 0)
  {
    hide LabelEnd, TargetEnd, SkipSpaces, ClosesLabel, LinkAt, Links;
    links := [];
    var index := 0;
    LinksDone(content, |content|);
    while index < |content|
      invariant links + Links(content, index) == Links(content, 0)
    {
      var labelStart := FindChar(content, '[', index);
      if labelStart.None? {
        JumpToBracket(content, index, |content|);
        return;
      }
      var p := labelStart.value;
      JumpToBracket(content, index, p);
      var linkStart := if p > 0 && content[p - 1] == '!' then p - 1 else p;
      var labelEnd := FindLabelEnd(content, p);
      if labelEnd.None? {
        NoLabelNoLink(content, p);
        index := p + 1;
        continue;
      }
      // the label end was accepted because an opening parenthesis follows: no further check is needed
      LabelEndFollowed(content, p, labelEnd.value);
      var paren := PassSpaces(content, labelEnd.value + 1);
      var targetStart := paren + 1;
      var targetEnd := FindTargetEnd(content, targetStart);
      if targetEnd.None? {
        JumpPastLabel(content, p, labelEnd.value);
        index := labelEnd.value + 1;
        continue;
      }
      LinkFound(content, p, labelEnd.value, targetEnd.value);
      var link := MarkdownLink(linkStart, targetEnd.value + 1, content[linkStart..targetStart],
                               content[targetStart..targetEnd.value], ")");
      AppendLink(links, link, Links(content, targetEnd.value + 1));
      links := links + [link];
      index := targetEnd.value + 1;
    }
    LinksDone(content, index);
  }

  lemma AppendLink(links: seq<MarkdownLink>, link: MarkdownLink, rest: seq<MarkdownLink>)
    ensures links + [link] + rest == links + ([link] + rest)
  {
  }

  lemma LinksDone(s: string, from: nat)
    requires from >= |s|
    ensures Links(s, from) == []
  {
  }

  lemma JumpToBracket(s: string, from: nat, upto: nat)
    requires from <= upto <= |s| && forall i :: from <= i < upto ==> s[i] != '['
    ensures Links(s, from) == Links(s, upto)
  {
    LinksSkip(s, from, upto);
  }

  lemma NoLabelNoLink(s: string, p: nat)
    requires p < |s| && LabelEnd(s, p + 1) == None
    ensures Links(s, p) == Links(s, p + 1)
  {
  }

  lemma LabelEndFollowed(s: string, p: nat, close: nat)
    requires LabelEnd(s, p + 1) == Some(close)
    ensures p < close < |s| && s[close] == ']' && SkipSpaces(s, close + 1) < |s| && s[SkipSpaces(s, close + 1)] == '('
  {
  }

  lemma LinkFound(s: string, p: nat, close: nat, end: nat)
    requires p < |s| && s[p] == '[' && LabelEnd(s, p + 1) == Some(close)
    requires var target := SkipSpaces(s, close + 1) + 1; TargetEnd(s, target, 0) == Some(end)
    ensures var start, target := if p > 0 && s[p - 1] == '!' then p - 1 else p, SkipSpaces(s, close + 1) + 1;
            && target <= end < |s|
            && var link := MarkdownLink(start, end + 1, s[start..target], s[target..end], ")");
               LinkAt(s, p) == Some(link) && Links(s, p) == [link] + Links(s, end + 1)
  {
    hide SkipSpaces, TargetEnd, LabelEnd;
  }

  // ----- what a target is

  /** Unescaped parentheses balance, and no escape dangles: an independent grammar. */
  ghost predicate Balanced(t: string)
    decreases |t|, 1
  {
    || t == []
    || (t[0] == '\\' && |t| >= 2 && Balanced(t[2..]))
    || (t[0] == '(' && exists k :: SplitsAt(t, k))
    || (t[0] != '\\' && t[0] != '(' && t[0] != ')' && Balanced(t[1..]))
  }

  /** The opening parenthesis at the front is closed at k, with balanced text inside and after. */
  ghost predicate SplitsAt(t: string, k: int)
    decreases |t|, 0
  {
    1 <= k < |t| && t[k] == ')' && Balanced(t[1..k]) && Balanced(t[k + 1..])
  }

  lemma BalancedCases(t: string)
    requires Balanced(t) && t != []
    ensures t[0] != ')'
    ensures t[0] == '\\' ==> |t| >= 2 && Balanced(t[2..])
    ensures t[0] == '(' ==> exists k :: SplitsAt(t, k)
    ensures t[0] != '\\' && t[0] != '(' ==> Balanced(t[1..])
  {
  }

  lemma BalancedEscape(t: string)
    requires |t| >= 2 && t[0] == '\\' && Balanced(t[2..])
    ensures Balanced(t)
  {
  }

  lemma BalancedSplit(t: string, k: int)
    requires t != [] && t[0] == '(' && 1 <= k < |t| && t[k] == ')' && Balanced(t[1..k]) && Balanced(t[k + 1..])
    ensures Balanced(t)
  {
    assert SplitsAt(t, k);
  }

  lemma BalancedPlain(t: string)
    requires t != [] && t[0] != '\\' && t[0] != '(' && t[0] != ')' && Balanced(t[1..])
    ensures Balanced(t)
  {
  }

  lemma SubSlice(s: string, i: nat, k: nat, a: nat, b: nat)
    requires i <= k <= |s| && a <= b <= k - i
    ensures s[i..k][a..b] == s[i + a..i + b]
  {
    var x, y := s[i..k][a..b], s[i + a..i + b];
    assert |x| == |y| && forall j :: 0 <= j < |x| ==> x[j] == y[j];
  }

  /** Scanning over a balanced text leaves the depth as it was. */
  lemma {:induction false} ScanBalanced(s: string, i: nat, end: nat, depth: nat)
    requires i <= end <= |s| && Balanced(s[i..end])
    ensures TargetEnd(s, i, depth) == TargetEnd(s, end, depth)
    decreases end - i
  {
    hide Balanced;
    var t := s[i..end];
    if t != [] {
      BalancedCases(t);
      assert t[0] == s[i];
      if t[0] == '\\' {
        SubSlice(s, i, end, 2, |t|);
        ScanBalanced(s, i + 2, end, depth);
      } else if t[0] == '(' {
        var k :| SplitsAt(t, k);
        assert t[k] == s[i + k];
        SubSlice(s, i, end, 1, k);
        SubSlice(s, i, end, k + 1, |t|);
        ScanBalanced(s, i + 1, i + k, depth + 1);
        ScanBalanced(s, i + k + 1, end, depth);
      } else {
        SubSlice(s, i, end, 1, |t|);
        ScanBalanced(s, i + 1, end, depth);
      }
    }
  }

  /** The scan first reaches the parenthesis that closes one level, over a balanced text. */
  lemma {:induction false} FirstEnd(s: string, i: nat, depth: nat) returns (k: nat)
    requires TargetEnd(s, i, depth).Some?
    ensures i <= k < |s| && s[k] == ')' && Balanced(s[i..k])
    ensures if depth == 0 then TargetEnd(s, i, depth) == Some(k)
            else TargetEnd(s, i, depth) == TargetEnd(s, k + 1, depth - 1)
    decreases |s| - i
  {
    hide Balanced;
    if s[i] == '\\' {
      k := FirstEnd(s, i + 2, depth);
      EscapeInFront(s, i, k);
    } else if s[i] == '(' {
      var inner := FirstEnd(s, i + 1, depth + 1);
      k := FirstEnd(s, inner + 1, depth);
      GroupInFront(s, i, inner, k);
    } else if s[i] == ')' {
      k := i;
      NothingBalanced(s, i);
    } else {
      k := FirstEnd(s, i + 1, depth);
      PlainInFront(s, i, k);
    }
  }

  lemma EscapeInFront(s: string, i: nat, k: nat)
    requires i + 2 <= k <= |s| && s[i] == '\\' && Balanced(s[i + 2..k])
    ensures Balanced(s[i..k])
  {
    hide Balanced;
    SubSlice(s, i, k, 2, k - i);
    BalancedEscape(s[i..k]);
  }

  lemma GroupInFront(s: string, i: nat, inner: nat, k: nat)
    requires i < inner < k <= |s| && s[i] == '(' && s[inner] == ')'
    requires Balanced(s[i + 1..inner]) && Balanced(s[inner + 1..k])
    ensures Balanced(s[i..k])
  {
    hide Balanced;
    SubSlice(s, i, k, 1, inner - i);
    SubSlice(s, i, k, inner - i + 1, k - i);
    BalancedSplit(s[i..k], inner - i);
  }

  lemma PlainInFront(s: string, i: nat, k: nat)
    requires i < k <= |s| && s[i] != '\\' && s[i] != '(' && s[i] != ')' && Balanced(s[i + 1..k])
    ensures Balanced(s[i..k])
  {
    hide Balanced;
    SubSlice(s, i, k, 1, k - i);
    BalancedPlain(s[i..k]);
  }

  lemma NothingBalanced(s: string, i: nat)
    requires i <= |s|
    ensures Balanced(s[i..i])
  {
  }

  /** The scanner finds the end of a target exactly where a balanced text is followed by ')'. */
  lemma TargetExactly(s: string, i: nat, r: nat)
    ensures TargetEnd(s, i, 0) == Some(r) <==> i <= r < |s| && s[r] == ')' && Balanced(s[i..r])
  {
    if TargetEnd(s, i, 0) == Some(r) {
      var k := FirstEnd(s, i, 0);
    }
    if i <= r < |s| && s[r] == ')' && Balanced(s[i..r]) {
      ScanBalanced(s, i, r, 0);
    }
  }

  // ----- what the links are

  function TargetStart(link: MarkdownLink): int { link.end - 1 - |link.target| }

  /** A link as its parts show it: the spanned text, a balanced target, a closing parenthesis. */
  ghost predicate Spans(s: string, link: MarkdownLink) {
    && link.start < TargetStart(link) < link.end <= |s|
    && s[link.start..link.end] == link.prefix + link.target + link.suffix
    && link.prefix == s[link.start..TargetStart(link)]
    && link.target == s[TargetStart(link)..link.end - 1]
    && s[link.end - 1] == ')' && s[TargetStart(link) - 1] == '('
    && link.suffix == ")" && Balanced(link.target)
  }

  lemma LinkAtSpans(s: string, p: nat)
    requires LinkAt(s, p).Some?
    ensures Spans(s, LinkAt(s, p).value)
    ensures var start := LinkAt(s, p).value.start; start == p || (start == p - 1 && s[p - 1] == '!')
  {
    var close, paren, end := LinkAtParts(s, p);
    var start := if p > 0 && s[p - 1] == '!' then p - 1 else p;
    hide LinkAt, Spans;
    PartsSpan(s, start, paren + 1, end);
  }

  lemma PartsSpan(s: string, start: nat, target: nat, end: nat)
    requires start < target <= end < |s| && s[end] == ')' && s[target - 1] == '(' && Balanced(s[target..end])
    ensures Spans(s, MarkdownLink(start, end + 1, s[start..target], s[target..end], ")"))
  {
    assert |s[target..end]| == end - target;
    assert s[start..end + 1] == s[start..target] + s[target..end] + ")";
  }

  /** Where the pieces of a link are: the label's end, the opening parenthesis, the target's end. */
  lemma LinkAtParts(s: string, p: nat) returns (close: nat, paren: nat, end: nat)
    requires LinkAt(s, p).Some?
    ensures s[p] == '[' && p < close < paren < end < |s| && s[close] == ']' && s[paren] == '(' && s[end] == ')'
    ensures LabelEnd(s, p + 1) == Some(close) && SkipSpaces(s, close + 1) == paren && TargetEnd(s, paren + 1, 0) == Some(end)
    ensures Balanced(s[paren + 1..end])
    ensures var start := if p > 0 && s[p - 1] == '!' then p - 1 else p;
            LinkAt(s, p) == Some(MarkdownLink(start, end + 1, s[start..paren + 1], s[paren + 1..end], ")"))
    ensures TargetStart(LinkAt(s, p).value) == paren + 1 && LinkAt(s, p).value.end == end + 1
  {
    close := LabelEnd(s, p + 1).value;
    LabelEndFollowed(s, p, close);
    paren := SkipSpaces(s, close + 1);
    end := TargetEnd(s, paren + 1, 0).value;
    TargetExactly(s, paren + 1, end);
    hide LabelEnd, TargetEnd, SkipSpaces, ClosesLabel, Balanced;
  }

  /** Links come in ascending order without overlap, the leading exclamation mark included. */
  ghost predicate Ascending(s: string, links: seq<MarkdownLink>, from: nat) {
    && (forall i :: 0 <= i < |links| ==> Spans(s, links[i]) && from <= links[i].start)
    && forall i, j :: 0 <= i < j < |links| ==> links[i].end <= links[j].start
  }

  lemma {:induction false} LinksAscend(s: string, from: nat)
    requires from == 0 || from > |s| || s[from - 1] != '!'
    ensures Ascending(s, Links(s, from), from)
    decreases |s| - from
  {
    hide LinkAt;
    if from < |s| {
      match LinkAt(s, from)
      case Some(link) =>
        LinkAtSpans(s, from);
        LinksAscend(s, link.end);
      case None =>
        if s[from] != '!' {
          LinksAscend(s, from + 1);
        } else {
          LinksAfterMark(s, from + 1);
        }
    }
  }

  /** After an exclamation mark only the first link can reach back one place. */
  lemma {:induction false} LinksAfterMark(s: string, from: nat)
    requires 0 < from <= |s|
    ensures Ascending(s, Links(s, from), from - 1)
    decreases |s| - from
  {
    hide LinkAt;
    if from < |s| {
      match LinkAt(s, from)
      case Some(link) =>
        LinkAtSpans(s, from);
        LinksAscend(s, link.end);
      case None =>
        LinksAfterMark(s, from + 1);
    }
  }

  ghost predicate Covers(links: seq<MarkdownLink>, p: nat) {
    exists i :: 0 <= i < |links| && links[i].start <= p < links[i].end
  }

  /** No link is missed: wherever one can start, a yielded link covers the place. */
  lemma {:induction false} EveryLinkCovered(s: string, from: nat, p: nat)
    requires from <= p && LinkAt(s, p).Some?
    ensures Covers(Links(s, from), p)
    decreases |s| - from
  {
    hide LinkAt;
    match LinkAt(s, from)
    case Some(link) =>
      LinkAtSpans(s, from);
      if p < link.end {
        assert Links(s, from)[0] == link;
      } else {
        EveryLinkCovered(s, link.end, p);
        var i :| 0 <= i < |Links(s, link.end)| && Links(s, link.end)[i].start <= p < Links(s, link.end)[i].end;
        assert Links(s, from)[i + 1] == Links(s, link.end)[i];
      }
    case None =>
      EveryLinkCovered(s, from + 1, p);
  }

  // ----- what a link is, told on the text

  /** An unescaped closing bracket with nothing but white space between it and an opening parenthesis. */
  ghost predicate LabelEnds(s: string, close: nat, paren: nat) {
    && 0 < close < paren < |s| && s[close] == ']' && s[close - 1] != '\\' && s[paren] == '('
    && forall k :: close < k < paren ==> IsSpace(s[k])
  }

  /** A bracket at p, the first such closing bracket behind it, and behind the parenthesis a balanced target up
      to the parenthesis that closes it. */
  ghost predicate LinkParts(s: string, p: nat, close: nat, paren: nat, end: nat) {
    && p < close && LabelEnds(s, close, paren) && s[p] == '['
    && (forall c: nat, q: nat :: p < c < close ==> !LabelEnds(s, c, q))
    && paren < end < |s| && s[end] == ')' && Balanced(s[paren + 1..end])
  }

  lemma {:induction false} SpacesSkipped(s: string, i: nat)
    requires i <= |s|
    ensures forall k :: i <= k < SkipSpaces(s, i) ==> IsSpace(s[k])
    ensures SkipSpaces(s, i) < |s| ==> !IsSpace(s[SkipSpaces(s, i)])
    decreases |s| - i
  {
    if i < |s| && IsSpace(s[i]) {
      SpacesSkipped(s, i + 1);
    }
  }

  lemma LabelEndsExactly(s: string, close: nat)
    ensures ClosesLabel(s, close) <==> exists paren: nat :: LabelEnds(s, close, paren)
    ensures forall paren: nat :: LabelEnds(s, close, paren) ==> SkipSpaces(s, close + 1) == paren
  {
    assert !IsSpace('(');
    if close < |s| {
      SpacesSkipped(s, close + 1);
      var q := SkipSpaces(s, close + 1);
      hide SkipSpaces, IsSpace;
      if ClosesLabel(s, close) {
        assert LabelEnds(s, close, q);
      }
      forall paren: nat | LabelEnds(s, close, paren)
        ensures q == paren
      {
      }
    }
  }

  lemma {:induction false} FirstLabelEnd(s: string, from: nat, close: nat)
    requires from <= close && ClosesLabel(s, close) && forall i :: from <= i < close ==> !ClosesLabel(s, i)
    ensures LabelEnd(s, from) == Some(close)
    decreases close - from
  {
    hide ClosesLabel;
    LabelEndSkip(s, from, close);
    ClosesWithin(s, close);
  }

  lemma ClosesWithin(s: string, close: nat)
    requires ClosesLabel(s, close)
    ensures close < |s|
  {
  }

  /** There is a link at p if and only if its parts are there; it starts at an exclamation mark in front. */
  lemma LinkExactly(s: string, p: nat, link: MarkdownLink)
    ensures LinkAt(s, p) == Some(link) <==> exists close: nat, paren: nat, end: nat ::
      LinkParts(s, p, close, paren, end) && IsLink(s, p, paren, end, link)
  {
    if LinkAt(s, p) == Some(link) {
      var close, paren, end := LinkAtParts(s, p);
      PartsThere(s, p, close, paren, end);
      assert IsLink(s, p, paren, end, link);
    }
    if close: nat, paren: nat, end: nat :| LinkParts(s, p, close, paren, end) && IsLink(s, p, paren, end, link) {
      PartsMakeLink(s, p, close, paren, end, link);
    }
  }

  ghost predicate IsLink(s: string, p: nat, paren: nat, end: nat, link: MarkdownLink) {
    var start := if 0 < p <= |s| && s[p - 1] == '!' then p - 1 else p;
    && start <= paren < end < |s|
    && link == MarkdownLink(start, end + 1, s[start..paren + 1], s[paren + 1..end], ")")
  }

  lemma PartsThere(s: string, p: nat, close: nat, paren: nat, end: nat)
    requires p < |s| && s[p] == '[' && LabelEnd(s, p + 1) == Some(close) && close < |s| && SkipSpaces(s, close + 1) == paren
    requires paren < end < |s| && s[end] == ')' && Balanced(s[paren + 1..end])
    ensures LinkParts(s, p, close, paren, end)
  {
    hide Balanced, SkipSpaces, ClosesLabel, LabelEnds;
    LabelEndNone(s, p + 1, close);
    LabelEndsExactly(s, close);
    forall c: nat, q: nat | p < c < close
      ensures !LabelEnds(s, c, q)
    {
      LabelEndsExactly(s, c);
    }
  }

  lemma PartsMakeLink(s: string, p: nat, close: nat, paren: nat, end: nat, link: MarkdownLink)
    requires LinkParts(s, p, close, paren, end) && IsLink(s, p, paren, end, link)
    ensures LinkAt(s, p) == Some(link)
  {
    forall c: nat | p < c < close
      ensures !ClosesLabel(s, c)
    {
      LabelEndsExactly(s, c);
    }
    LabelEndsExactly(s, close);
    hide Balanced, SkipSpaces, ClosesLabel, LabelEnd, TargetEnd, LinkAt;
    FirstLabelEnd(s, p + 1, close);
    TargetExactly(s, paren + 1, end);
    LinkFound(s, p, close, end);
  }

  /** The links found: at each place, from the left, the link there, and on behind it; else one place on. */
  lemma LinksTell(s: string, from: nat)
    ensures from >= |s| ==> Links(s, from) == []
    ensures forall link :: LinkAt(s, from) == Some(link) ==> Links(s, from) == [link] + Links(s, link.end)
    ensures from < |s| && LinkAt(s, from).None? ==> Links(s, from) == Links(s, from + 1)
  {
    hide LinkAt;
  }
}
