/** Cutting streamed text into sentences for speech (astrbot/core/astr_agent_run_util.py,
    _run_agent_feeder). The code splits its buffer with a pattern and batches the pieces; it is proved
    to compute a reference cut that is defined on the text alone, and the chunks are proved to depend
    on how the stream is cut into pieces in exactly one situation. */
module SentenceFeeder {
  import opened PythonText
  import opened Selections
  import opened Wrappers

  const MIN_CHUNK := 10

  predicate IsDelim(c: char) {
    c == '.' || c == '!' || c == '?' || c == '\n' || c == '\U{3002}' || c == '\U{FF01}' || c == '\U{FF1F}'
  }

  // ----- the reference

  /** A run of delimiters ends at e. */
  predicate RunEndsAt(text: string, e: nat) {
    0 < e <= |text| && IsDelim(text[e - 1]) && (e == |text| || !IsDelim(text[e]))
  }

  /** The first place at or after e, at least MIN_CHUNK, where a run of delimiters ends. */
  function ChunkEnd(text: string, e: nat): (r: Option<nat>)
    ensures r.Some? ==> e <= r.value <= |text| && MIN_CHUNK <= r.value && RunEndsAt(text, r.value)
    ensures forall k :: e <= k < (if r.Some? then r.value else |text| + 1) ==> !(MIN_CHUNK <= k && RunEndsAt(text, k))
    decreases |text| + 1 - e
  {
    if e > |text| then None
    else if MIN_CHUNK <= e && RunEndsAt(text, e) then Some(e)
    else ChunkEnd(text, e + 1)
  }

  datatype Cut = Cut(chunks: seq<string>, rest: string)

  /** Cuts a text: the shortest chunk of at least ten characters that ends with a run of delimiters,
      then the same for what follows. */
  function CutText(text: string): Cut
    decreases |text|
  {
    match ChunkEnd(text, 0)
    case None => Cut([], text)
    case Some(e) =>
      var later := CutText(text[e..]);
      Cut([text[..e]] + later.chunks, later.rest)
  }

  // ----- re.split with a captured run of delimiters

  function NextDelim(s: string, i: nat): (j: nat)
    requires i <= |s|
    ensures i <= j <= |s| && (j < |s| ==> IsDelim(s[j]))
    ensures forall k :: i <= k < j ==> !IsDelim(s[k])
    decreases |s| - i
  {
    if i == |s| || IsDelim(s[i]) then i else NextDelim(s, i + 1)
  }

  function RunStop(s: string, i: nat): (j: nat)
    requires i <= |s|
    ensures i <= j <= |s| && (j < |s| ==> !IsDelim(s[j]))
    ensures forall k :: i <= k < j ==> IsDelim(s[k])
    decreases |s| - i
  {
    if i == |s| || !IsDelim(s[i]) then i else RunStop(s, i + 1)
  }

  /** Text, delimiters, text, delimiters, ..., text from position i on. */
  function SplitFrom(s: string, i: nat): (parts: seq<string>)
    requires i <= |s|
    ensures |parts| >= 1
    decreases |s| - i
  {
    var d := NextDelim(s, i);
    if d == |s| then [s[i..]]
    else
      var e := RunStop(s, d);
      [s[i..d], s[d..e]] + SplitFrom(s, e)
  }

  // ----- the feeder

  function Spoken(chunks: seq<string>): seq<string> {
    if chunks == [] then []
    else Spoken(chunks[..|chunks| - 1]) + (if Blank(chunks[|chunks| - 1]) then [] else [chunks[|chunks| - 1]])
  }

  class Feeder {
    var buffer: string
    /** Chunks put to the text queue; None is the end marker. */
    var queue: seq<Option<string>>
    /** Every chunk cut off so far, blank ones included. */
    ghost var chunks: seq<string>

    ghost predicate Valid()
      reads this`queue, this`chunks
    {
      queue == Queued(Spoken(chunks))
    }

    constructor ()
      ensures Valid() && buffer == "" && chunks == []
    {
      buffer, queue, chunks := "", [], [];
    }

    /** Puts a finished chunk to the queue unless it is blank. */
    method Emit(chunk: string)
      requires Valid()
      modifies this`queue, this`chunks
      ensures Valid() && chunks == old(chunks) + [chunk]
    {
      QueuedMore(chunks, chunk);
      if !Blank(chunk) {
        queue := queue + [Some(chunk)];
      }
      chunks := chunks + [chunk];
    }

    /** One piece of the stream. */
    method Feed(text: string)
      requires Valid()
      modifies this
      ensures Valid()
      ensures chunks == old(chunks) + FeedCut(old(buffer), text).chunks
      ensures buffer == FeedCut(old(buffer), text).rest
    {
      hide *;
      FeedCutIs(buffer, text);
      if text == "" {
        assert chunks + [] == chunks;
        return;
      }
      buffer := buffer + text;
      ghost var whole := buffer;
      var parts := SplitFrom(buffer, 0);
      if |parts| > 1 {
        var tempBuffer := "";
        var i := 0;
        ghost var emitted: seq<string> := [];
        ProgressStarts(whole);
        while i < |parts| - 1
          invariant 0 <= i < |parts| && Progress(whole, parts[i..], tempBuffer, emitted)
          invariant Valid() && chunks == old(chunks) + emitted
        {
          DropTwo(parts, i);
          ProgressStep(whole, parts[i..], tempBuffer, emitted);
          var fullSentence := parts[i] + parts[i + 1];
          tempBuffer := tempBuffer + fullSentence;
          if |tempBuffer| >= MIN_CHUNK {
            Emit(tempBuffer);
            AppendChunk(old(chunks), emitted, tempBuffer);
            emitted := emitted + [tempBuffer];
            tempBuffer := "";
          }
          i := i + 2;
        }
        DropTwo(parts, i);
        ProgressEnds(whole, parts[i..], tempBuffer, emitted);
        buffer := tempBuffer + parts[|parts| - 1];
      } else {
        NoDelimNoCut(buffer);
      }
    }

    /** The end of the stream: what is left is spoken unless it is blank; a failed stream loses it.
        Either way the end marker follows. */
    method Finish(failed: bool)
      requires Valid()
      modifies this
      ensures buffer == old(buffer) && chunks == old(chunks)
      ensures queue == Queued(Spoken(chunks) + (if failed || Blank(buffer) then [] else [buffer])) + [None]
    {
      if !failed {
        if !Blank(buffer) {
          queue := queue + [Some(buffer)];
        }
      }
      queue := queue + [None];
    }
  }

  function Queued(chunks: seq<string>): seq<Option<string>> {
    seq(|chunks|, i requires 0 <= i < |chunks| => Some(chunks[i]))
  }

  function Prepend(front: seq<string>, cut: Cut): Cut { Cut(front + cut.chunks, cut.rest) }

  /** What one piece does to the buffer: cut the buffer and the piece together. */
  function FeedCut(buffer: string, text: string): Cut {
    if text == "" then Cut([], buffer) else CutText(buffer + text)
  }

  /** The sentences held back so far: short, and ending where a run of delimiters ends. */
  ghost predicate Pending(buffer: string, pos: nat, temp: string) {
    && pos <= |buffer| && |temp| < MIN_CHUNK
    && (pos > 0 ==> IsDelim(buffer[pos - 1]) && (pos < |buffer| ==> !IsDelim(buffer[pos])))
    && (temp != "" ==> pos > 0 && IsDelim(temp[|temp| - 1]))
  }

  lemma QueuedMore(chunks: seq<string>, chunk: string)
    ensures Queued(Spoken(chunks + [chunk])) == Queued(Spoken(chunks)) + (if Blank(chunk) then [] else [Some(chunk)])
  {
    assert (chunks + [chunk])[..|chunks|] == chunks && (chunks + [chunk])[|chunks|] == chunk;
    var spoken := Spoken(chunks);
    assert Spoken(chunks + [chunk]) == spoken + (if Blank(chunk) then [] else [chunk]);
    hide Spoken, Blank;
    if Blank(chunk) {
      assert spoken + [] == spoken;
    } else {
      assert Queued(spoken + [chunk]) == Queued(spoken) + [Some(chunk)];
    }
  }

  lemma PrependNothing(cut: Cut)
    ensures Prepend([], cut) == cut
  {
    assert [] + cut.chunks == cut.chunks;
  }

  lemma FeedCutIs(buffer: string, text: string)
    ensures text == "" ==> FeedCut(buffer, text) == Cut([], buffer)
    ensures text != "" ==> FeedCut(buffer, text) == CutText(buffer + text)
  {
  }

  lemma DropTwo(parts: seq<string>, i: nat)
    requires i < |parts|
    ensures |parts[i..]| == |parts| - i && parts[i..][0] == parts[i]
    ensures i + 1 < |parts| ==> parts[i..][1] == parts[i + 1] && parts[i + 2..] == parts[i..][2..]
  {
  }

  lemma NothingInFront(text: string)
    ensures "" + text == text
  {
  }

  lemma AppendChunk(before: seq<string>, emitted: seq<string>, chunk: string)
    ensures before + emitted + [chunk] == before + (emitted + [chunk])
  {
  }

  lemma PrependRest(front: seq<string>, rest: string)
    ensures Prepend(front, Cut([], rest)) == Cut(front, rest)
  {
    assert front + [] == front;
  }

  lemma PrependMore(front: seq<string>, chunk: string, cut: Cut)
    ensures Prepend(front, Prepend([chunk], cut)) == Prepend(front + [chunk], cut)
  {
    assert front + ([chunk] + cut.chunks) == front + [chunk] + cut.chunks;
  }

  /** Where the loop over the split parts stands: the parts still to come split the buffer from
      some position, and the cut of the whole buffer is what was emitted and the cut of the rest. */
  ghost predicate Progress(s: string, parts: seq<string>, temp: string, emitted: seq<string>) {
    exists pos: nat :: ProgressAt(s, pos, parts, temp, emitted)
  }

  ghost predicate ProgressAt(s: string, pos: nat, parts: seq<string>, temp: string, emitted: seq<string>) {
    && Pending(s, pos, temp) && parts == SplitFrom(s, pos)
    && CutText(s) == Prepend(emitted, CutText(temp + s[pos..]))
  }

  lemma ProgressStarts(s: string)
    ensures SplitFrom(s, 0)[0..] == SplitFrom(s, 0) && Progress(s, SplitFrom(s, 0), "", [])
  {
    assert "" + s[0..] == s;
    PrependNothing(CutText(s));
    hide CutText, SplitFrom;
    assert ProgressAt(s, 0, SplitFrom(s, 0), "", []);
  }

  lemma ProgressStep(s: string, parts: seq<string>, temp: string, emitted: seq<string>)
    requires |parts| > 1 && Progress(s, parts, temp, emitted)
    ensures |parts| > 2
    ensures var longer := temp + (parts[0] + parts[1]);
            if |longer| >= MIN_CHUNK then Progress(s, parts[2..], "", emitted + [longer])
            else Progress(s, parts[2..], longer, emitted)
  {
    var pos: nat :| ProgressAt(s, pos, parts, temp, emitted);
    PartsStep(s, pos);
    SentenceStep(s, pos, temp);
    hide CutText, SplitFrom, NextDelim, RunStop, Pending;
    var next := RunStop(s, NextDelim(s, pos));
    var longer := temp + (parts[0] + parts[1]);
    if |longer| >= MIN_CHUNK {
      PrependMore(emitted, longer, CutText(s[next..]));
      NothingInFront(s[next..]);
      assert ProgressAt(s, next, parts[2..], "", emitted + [longer]);
    } else {
      assert ProgressAt(s, next, parts[2..], longer, emitted);
    }
  }

  lemma ProgressEnds(s: string, parts: seq<string>, temp: string, emitted: seq<string>)
    requires |parts| == 1 && Progress(s, parts, temp, emitted)
    ensures CutText(s) == Cut(emitted, temp + parts[0])
  {
    var pos: nat :| ProgressAt(s, pos, parts, temp, emitted);
    LastPart(s, pos, temp);
    PrependRest(emitted, temp + s[pos..]);
  }

  lemma PartsStep(s: string, pos: nat)
    requires pos <= |s| && |SplitFrom(s, pos)| > 1
    ensures var d, parts := NextDelim(s, pos), SplitFrom(s, pos);
            && d < |s| && d < RunStop(s, d) <= |s| && |parts| > 2
            && parts[2..] == SplitFrom(s, RunStop(s, d))
            && parts[0] + parts[1] == s[pos..RunStop(s, d)]
  {
  }

  lemma FirstChunkEnd(text: string, e: nat)
    requires MIN_CHUNK <= e <= |text| && RunEndsAt(text, e)
    requires forall k :: MIN_CHUNK <= k < e ==> !RunEndsAt(text, k)
    ensures ChunkEnd(text, 0) == Some(e)
  {
    var r := ChunkEnd(text, 0);
    hide ChunkEnd;
    assert r.Some?;
  }

  /** One sentence more: either it completes the first chunk, or no chunk ends yet. */
  lemma SentenceStep(s: string, pos: nat, temp: string)
    requires Pending(s, pos, temp) && NextDelim(s, pos) < |s|
    ensures var next := RunStop(s, NextDelim(s, pos));
            var longer := temp + s[pos..next];
            && pos < next <= |s| && longer + s[next..] == temp + s[pos..]
            && (|longer| >= MIN_CHUNK ==> Pending(s, next, "") && CutText(temp + s[pos..]) == Prepend([longer], CutText(s[next..])))
            && (|longer| < MIN_CHUNK ==> Pending(s, next, longer))
  {
    hide CutText, SplitFrom;
    var d := NextDelim(s, pos);
    var next := RunStop(s, d);
    assert pos < next && IsDelim(s[next - 1]);
    hide NextDelim, RunStop, IsDelim;
    var longer := temp + s[pos..next];
    assert s[pos..] == s[pos..next] + s[next..];
    assert temp + s[pos..] == longer + s[next..];
    assert longer[|longer| - 1] == s[next - 1];
    if |longer| >= MIN_CHUNK {
      FirstChunkIs(s, pos, temp, next);
    }
  }

  lemma FirstChunkIs(s: string, pos: nat, temp: string, next: nat)
    requires Pending(s, pos, temp) && NextDelim(s, pos) < |s| && next == RunStop(s, NextDelim(s, pos))
    requires |temp| + next - pos >= MIN_CHUNK && pos < next <= |s|
    ensures CutText(temp + s[pos..]) == Prepend([temp + s[pos..next]], CutText(s[next..]))
  {
    hide *;
    var text, e := temp + s[pos..], |temp| + next - pos;
    OneRunEnd(s, pos, temp, next);
    FirstChunkEnd(text, e);
    FirstChunkCut(text, e);
    assert text[..e] == temp + s[pos..next] && text[e..] == s[next..];
  }

  lemma FirstChunkCut(text: string, e: nat)
    requires e <= |text| && ChunkEnd(text, 0) == Some(e)
    ensures CutText(text) == Prepend([text[..e]], CutText(text[e..]))
  {
  }

  /** Only the end of the new sentence can end the chunk. */
  lemma OneRunEnd(s: string, pos: nat, temp: string, next: nat)
    requires Pending(s, pos, temp) && NextDelim(s, pos) < |s| && next == RunStop(s, NextDelim(s, pos))
    requires |temp| + next - pos >= MIN_CHUNK && pos < next <= |s|
    ensures var text, e := temp + s[pos..], |temp| + next - pos;
            && RunEndsAt(text, e)
            && forall k :: MIN_CHUNK <= k < e ==> !RunEndsAt(text, k)
  {
    var d := NextDelim(s, pos);
    var text, e := temp + s[pos..], |temp| + next - pos;
    hide NextDelim, RunStop, IsDelim;
    forall k | MIN_CHUNK <= k < e
      ensures !RunEndsAt(text, k)
    {
      assert |temp| < k;
      assert text[k - 1] == s[pos + (k - 1 - |temp|)] && text[k] == s[pos + (k - |temp|)];
    }
    assert text[e - 1] == s[next - 1];
    assert e < |text| ==> text[e] == s[next];
  }

  lemma LastPart(s: string, pos: nat, temp: string)
    requires Pending(s, pos, temp) && |SplitFrom(s, pos)| == 1
    ensures SplitFrom(s, pos) == [s[pos..]] && CutText(temp + s[pos..]) == Cut([], temp + s[pos..])
  {
    assert NextDelim(s, pos) == |s|;
    var text := temp + s[pos..];
    forall k | MIN_CHUNK <= k <= |text|
      ensures !RunEndsAt(text, k)
    {
      assert text[k - 1] == s[pos + (k - 1 - |temp|)];
    }
  }

  lemma NoDelimNoCut(s: string)
    requires |SplitFrom(s, 0)| == 1
    ensures CutText(s) == Cut([], s)
  {
    assert NextDelim(s, 0) == |s|;
  }

  // ----- whole streams

  function Whole(pieces: seq<string>): string {
    if pieces == [] then "" else Whole(pieces[..|pieces| - 1]) + pieces[|pieces| - 1]
  }

  /** The chunks cut off and the text held back after a stream of pieces. */
  function Stream(pieces: seq<string>): Cut {
    if pieces == [] then Cut([], "")
    else
      var before := Stream(pieces[..|pieces| - 1]);
      Prepend(before.chunks, FeedCut(before.rest, pieces[|pieces| - 1]))
  }

  /** The feeder over a whole stream; `failed` says that the stream ended with an error. */
  method RunAgentFeeder(pieces: seq<string>, failed: bool) returns (queue: seq<Option<string>>)
    ensures var stream := Stream(pieces);
            queue == Queued(Spoken(stream.chunks) + (if failed || Blank(stream.rest) then [] else [stream.rest])) + [None]
  {
    var feeder := new Feeder();
    for i := 0 to |pieces|
      invariant feeder.Valid() && Cut(feeder.chunks, feeder.buffer) == Stream(pieces[..i])
    {
      assert pieces[..i + 1][..i] == pieces[..i];
      hide CutText, Spoken, Queued;
      feeder.Feed(pieces[i]);
    }
    assert pieces[..|pieces|] == pieces;
    feeder.Finish(failed);
    queue := feeder.queue;
  }

  // ----- nothing is lost, and what chunks and the buffer look like

  function Concat(chunks: seq<string>): string {
    if chunks == [] then "" else chunks[0] + Concat(chunks[1..])
  }

  lemma {:induction false} ConcatSplit(a: seq<string>, b: seq<string>)
    ensures Concat(a + b) == Concat(a) + Concat(b)
  {
    if a == [] {
      assert a + b == b;
    } else {
      assert (a + b)[1..] == a[1..] + b;
      ConcatSplit(a[1..], b);
      assert a[0] + (Concat(a[1..]) + Concat(b)) == a[0] + Concat(a[1..]) + Concat(b);
    }
  }

  /** A chunk is at least ten characters long and ends in a delimiter. */
  ghost predicate WellCut(chunk: string) { |chunk| >= MIN_CHUNK && IsDelim(chunk[|chunk| - 1]) }

  /** What is held back: up to nine characters that end in a delimiter, or none, then no delimiter. */
  ghost predicate HeldBack(rest: string) {
    exists k: nat :: k < MIN_CHUNK && k <= |rest| && (k > 0 ==> IsDelim(rest[k - 1])) && NoDelim(rest[k..])
  }

  ghost predicate NoDelim(text: string) { forall i :: 0 <= i < |text| ==> !IsDelim(text[i]) }

  lemma {:induction false} CutShape(text: string)
    ensures var cut := CutText(text);
            && Concat(cut.chunks) + cut.rest == text
            && (forall i :: 0 <= i < |cut.chunks| ==> WellCut(cut.chunks[i]))
            && HeldBack(cut.rest)
    decreases |text|
  {
    hide HeldBack, WellCut, Concat;
    match ChunkEnd(text, 0)
    case None =>
      NothingCut(text);
    case Some(e) =>
      CutShape(text[e..]);
      FirstChunkShape(text, e, CutText(text[e..]));
  }

  lemma NothingCut(text: string)
    requires ChunkEnd(text, 0) == None
    ensures Concat([]) + text == text && HeldBack(text)
  {
    NothingInFront(text);
    var k := LastDelim(text);
  }

  lemma FirstChunkShape(text: string, e: nat, later: Cut)
    requires e <= |text| && MIN_CHUNK <= e && RunEndsAt(text, e)
    requires Concat(later.chunks) + later.rest == text[e..]
    requires forall i :: 0 <= i < |later.chunks| ==> WellCut(later.chunks[i])
    ensures var chunks := [text[..e]] + later.chunks;
            Concat(chunks) + later.rest == text && forall i :: 0 <= i < |chunks| ==> WellCut(chunks[i])
  {
    assert text[..e][e - 1] == text[e - 1];
    assert WellCut(text[..e]);
    ConcatSplit([text[..e]], later.chunks);
    ConcatOne(text[..e]);
    hide Concat, WellCut, RunEndsAt;
    Associate(text[..e], Concat(later.chunks), later.rest);
    assert text == text[..e] + text[e..];
  }

  lemma ConcatOne(chunk: string)
    ensures Concat([chunk]) == chunk
  {
  }

  lemma Associate(a: string, b: string, c: string)
    ensures a + b + c == a + (b + c)
  {
  }

  /** Just after the last delimiter, which lies within the first nine characters if no chunk ends. */
  lemma {:induction false} LastDelim(text: string) returns (k: nat)
    requires ChunkEnd(text, 0) == None
    ensures k < MIN_CHUNK && k <= |text| && (k > 0 ==> IsDelim(text[k - 1])) && NoDelim(text[k..])
  {
    k := |text|;
    while k > 0 && !IsDelim(text[k - 1])
      invariant k <= |text| && NoDelim(text[k..])
    {
      k := k - 1;
      assert text[k..] == [text[k]] + text[k + 1..];
    }
    if k > 0 && k < |text| {
      assert text[k] == text[k..][0];
    }
    assert k > 0 ==> RunEndsAt(text, k);
  }

  /** However the text arrives in pieces: chunks and held-back text concatenate to all of it, every
      chunk is well cut, and the held-back text has no chunk in it. */
  lemma {:induction false} StreamShape(pieces: seq<string>)
    ensures var stream := Stream(pieces);
            && Concat(stream.chunks) + stream.rest == Whole(pieces)
            && (forall i :: 0 <= i < |stream.chunks| ==> WellCut(stream.chunks[i]))
            && HeldBack(stream.rest)
  {
    if pieces == [] {
      CutShape("");
    } else {
      var before, text := Stream(pieces[..|pieces| - 1]), pieces[|pieces| - 1];
      StreamShape(pieces[..|pieces| - 1]);
      hide CutText, HeldBack, WellCut, Concat;
      var step := FeedCut(before.rest, text);
      StepShape(before.rest, text);
      ConcatSplit(before.chunks, step.chunks);
      Associate(Concat(before.chunks), Concat(step.chunks), step.rest);
      Associate(Concat(before.chunks), before.rest, text);
    }
  }

  lemma StepShape(rest: string, text: string)
    requires HeldBack(rest)
    ensures var step := FeedCut(rest, text);
            && Concat(step.chunks) + step.rest == rest + text
            && (forall i :: 0 <= i < |step.chunks| ==> WellCut(step.chunks[i]))
            && HeldBack(step.rest)
  {
    CutShape(rest + text);
    hide CutText, HeldBack, WellCut;
    NothingInFront(rest);
    assert text == "" ==> rest + text == rest;
  }

  // ----- when the way the stream is cut into pieces matters

  lemma RunEndsBefore(p: string, q: string, e: nat)
    requires e < |p| || (e == |p| && (q == "" || !IsDelim(q[0])))
    ensures RunEndsAt(p + q, e) <==> RunEndsAt(p, e)
  {
    assert e < |p| ==> (p + q)[e] == p[e];
    assert 0 < e ==> (p + q)[e - 1] == p[e - 1];
    assert e == |p| && q != "" ==> (p + q)[e] == q[0];
  }

  /** More text cuts on from what was held back, unless the next character would lengthen the run of
      delimiters at which the last chunk was just cut. */
  lemma {:induction false} CutAppend(p: string, q: string)
    requires CutText(p).rest == "" && CutText(p).chunks != [] ==> q == "" || !IsDelim(q[0])
    ensures CutText(p + q) == Prepend(CutText(p).chunks, CutText(CutText(p).rest + q))
    decreases |p|
  {
    match ChunkEnd(p, 0)
    case None =>
      PrependNothing(CutText(p + q));
    case Some(e) =>
      if e == |p| {
        assert p[e..] == "";
        assert CutText("") == Cut([], "");
      }
      FirstChunkStays(p, q, e);
      CutAppend(p[e..], q);
      var later := CutText(p[e..]);
      hide ChunkEnd, RunEndsAt;
      PrependTwice([p[..e]], later.chunks, CutText(later.rest + q));
  }

  lemma PrependTwice(a: seq<string>, b: seq<string>, cut: Cut)
    ensures Prepend(a, Prepend(b, cut)) == Prepend(a + b, cut)
  {
    assert a + (b + cut.chunks) == a + b + cut.chunks;
  }

  lemma FirstChunkStays(p: string, q: string, e: nat)
    requires ChunkEnd(p, 0) == Some(e) && (e == |p| ==> q == "" || !IsDelim(q[0]))
    ensures CutText(p + q) == Prepend([p[..e]], CutText(p[e..] + q))
  {
    EndStays(p, q, e);
    hide *;
    FirstChunkCut(p + q, e);
    SliceStays(p, q, e);
  }

  lemma SliceStays(p: string, q: string, e: nat)
    requires e <= |p|
    ensures (p + q)[..e] == p[..e] && (p + q)[e..] == p[e..] + q
  {
  }

  lemma EndStays(p: string, q: string, e: nat)
    requires ChunkEnd(p, 0) == Some(e) && (e == |p| ==> q == "" || !IsDelim(q[0]))
    ensures e <= |p| && ChunkEnd(p + q, 0) == Some(e)
  {
    assert forall k :: MIN_CHUNK <= k < e ==> !RunEndsAt(p, k);
    assert e <= |p| && RunEndsAt(p, e);
    hide RunEndsAt, ChunkEnd, IsDelim;
    forall k | MIN_CHUNK <= k <= e
      ensures RunEndsAt(p + q, k) <==> RunEndsAt(p, k)
    {
      RunEndsBefore(p, q, k);
    }
    FirstChunkEnd(p + q, e);
  }

  /** In the excluded situation the chunks cut so far are not those of the text read at once. */
  lemma {:induction false} CutBroken(p: string, q: string)
    requires CutText(p).rest == "" && CutText(p).chunks != [] && q != "" && IsDelim(q[0])
    ensures !(CutText(p).chunks <= CutText(p + q).chunks)
    decreases |p|
  {
    var e := ChunkEnd(p, 0).value;
    forall k | MIN_CHUNK <= k < e
      ensures !RunEndsAt(p + q, k)
    {
      RunEndsBefore(p, q, k);
    }
    if e < |p| {
      RunEndsBefore(p, q, e);
      FirstChunkEnd(p + q, e);
      assert (p + q)[..e] == p[..e] && (p + q)[e..] == p[e..] + q;
      var a, b := CutText(p).chunks, CutText(p + q).chunks;
      assert a <= b ==> a[1..] <= b[1..];
      assert a[1..] == CutText(p[e..]).chunks && b[1..] == CutText(p[e..] + q).chunks;
      CutBroken(p[e..], q);
    } else {
      assert (p + q)[|p|] == q[0];
      assert !RunEndsAt(p + q, e);
      if CutText(p + q).chunks != [] {
        assert |CutText(p + q).chunks[0]| != |p|;
        assert CutText(p).chunks[0] == p[..|p|] == p;
      }
    }
  }

  /** Piece k starts with a delimiter right where the stream's last chunk ended. */
  ghost predicate StreamCutsARun(pieces: seq<string>, k: nat) {
    && k < |pieces| && pieces[k] != "" && IsDelim(pieces[k][0])
    && Stream(pieces[..k]).rest == "" && Stream(pieces[..k]).chunks != []
  }

  lemma {:induction false} WholeSplit(pieces: seq<string>, k: nat)
    requires k <= |pieces|
    ensures Whole(pieces) == Whole(pieces[..k]) + Whole(pieces[k..])
  {
    if k == |pieces| {
      assert pieces[..k] == pieces && pieces[k..] == [];
    } else {
      var n := |pieces| - 1;
      WholeSplit(pieces[..n], k);
      assert pieces[..n][..k] == pieces[..k] && pieces[..n][k..] == pieces[k..][..n - k];
      assert pieces[k..][n - k] == pieces[n];
    }
  }

  lemma {:induction false} WholeStart(pieces: seq<string>)
    requires pieces != [] && pieces[0] != ""
    ensures Whole(pieces) != "" && Whole(pieces)[0] == pieces[0][0]
  {
    if |pieces| > 1 {
      WholeStart(pieces[..|pieces| - 1]);
    } else {
      assert pieces[..0] == [];
    }
  }

  lemma {:induction false} ChunksGrow(pieces: seq<string>, k: nat)
    requires k <= |pieces|
    ensures Stream(pieces[..k]).chunks <= Stream(pieces).chunks
  {
    if k < |pieces| {
      ChunksGrow(pieces[..|pieces| - 1], k);
      assert pieces[..|pieces| - 1][..k] == pieces[..k];
    } else {
      assert pieces[..k] == pieces;
    }
  }

  lemma {:induction false} StreamExactlyItself(pieces: seq<string>)
    ensures Stream(pieces) == CutText(Whole(pieces)) <==> forall k: nat :: !StreamCutsARun(pieces, k)
    decreases |pieces|, |pieces| + 1, 0
  {
    if pieces == [] {
      assert CutText("") == Cut([], "");
    } else {
      var n := |pieces| - 1;
      var front, last := pieces[..n], pieces[n];
      StreamExactlyItself(front);
      forall k: nat | k < n
        ensures StreamCutsARun(pieces, k) <==> StreamCutsARun(front, k)
      {
        assert front[..k] == pieces[..k];
      }
      hide CutText, StreamCutsARun;
      if k: nat :| StreamCutsARun(pieces, k) {
        BadCutShows(pieces, k);
      } else {
        LastPieceGood(pieces);
      }
    }
  }

  lemma LastPieceGood(pieces: seq<string>)
    requires pieces != [] && forall k: nat :: !StreamCutsARun(pieces, k)
    requires Stream(pieces[..|pieces| - 1]) == CutText(Whole(pieces[..|pieces| - 1]))
    ensures Stream(pieces) == CutText(Whole(pieces))
  {
    var n := |pieces| - 1;
    var p := Whole(pieces[..n]);
    assert !StreamCutsARun(pieces, n);
    hide CutText;
    if pieces[n] == "" {
      assert p + "" == p;
      PrependRest(CutText(p).chunks, CutText(p).rest);
    } else {
      CutAppend(p, pieces[n]);
    }
  }

  lemma {:induction false} BadCutShows(pieces: seq<string>, k: nat)
    requires StreamCutsARun(pieces, k)
    ensures Stream(pieces) != CutText(Whole(pieces))
    decreases |pieces|, k, 1
  {
    var front := pieces[..k];
    WholeSplit(pieces, k);
    WholeStart(pieces[k..]);
    ChunksGrow(pieces, k);
    hide CutText;
    var p, q := Whole(front), Whole(pieces[k..]);
    if Stream(front) == CutText(p) {
      CutBroken(p, q);
    } else {
      // an earlier piece already cut a run: show that one
      StreamDiffersEarly(pieces, k);
    }
  }

  lemma {:induction false} StreamDiffersEarly(pieces: seq<string>, k: nat)
    requires k < |pieces| && Stream(pieces[..k]) != CutText(Whole(pieces[..k]))
    ensures Stream(pieces) != CutText(Whole(pieces))
    decreases |pieces|, k, 0
  {
    StreamExactlyItself(pieces[..k]);
    var j: nat :| StreamCutsARun(pieces[..k], j);
    assert pieces[..k][..j] == pieces[..j];
    assert StreamCutsARun(pieces, j);
    BadCutShows(pieces, j);
  }

  /** Piece k starts with a delimiter, and the text before it ends with a chunk. */
  ghost predicate CutsARun(pieces: seq<string>, k: nat) {
    && k < |pieces| && pieces[k] != "" && IsDelim(pieces[k][0])
    && CutText(Whole(pieces[..k])).rest == "" && CutText(Whole(pieces[..k])).chunks != []
  }

  /** As long as the stream has cut no run, both conditions say the same of the next piece. */
  lemma SameCondition(pieces: seq<string>, k: nat)
    requires forall j: nat :: j < k ==> !StreamCutsARun(pieces, j)
    ensures StreamCutsARun(pieces, k) <==> CutsARun(pieces, k)
  {
    if k < |pieces| {
      forall j: nat
        ensures !StreamCutsARun(pieces[..k], j)
      {
        if j < k {
          assert pieces[..k][..j] == pieces[..j] && pieces[..k][j] == pieces[j];
          assert !StreamCutsARun(pieces, j);
        }
      }
      StreamExactlyItself(pieces[..k]);
    }
  }

  /** The stream cuts like the whole text read at once if and only if no piece starts with a delimiter
      where the text before it ends with a chunk. */
  lemma StreamExactly(pieces: seq<string>)
    ensures Stream(pieces) == CutText(Whole(pieces)) <==> forall k: nat :: !CutsARun(pieces, k)
  {
    StreamExactlyItself(pieces);
    hide Stream, CutText, Whole, StreamCutsARun, CutsARun;
    var n := 0;
    while n < |pieces| && !StreamCutsARun(pieces, n)
      invariant n <= |pieces| && forall j: nat :: j < n ==> !StreamCutsARun(pieces, j)
    {
      n := n + 1;
    }
    forall k: nat
      ensures (forall j: nat :: j < k ==> !StreamCutsARun(pieces, j)) ==> (StreamCutsARun(pieces, k) <==> CutsARun(pieces, k))
      ensures k >= |pieces| ==> !StreamCutsARun(pieces, k) && !CutsARun(pieces, k)
    {
      if forall j: nat :: j < k ==> !StreamCutsARun(pieces, j) {
        SameCondition(pieces, k);
      }
      PieceExists(pieces, k);
    }
  }

  lemma PieceExists(pieces: seq<string>, k: nat)
    ensures StreamCutsARun(pieces, k) || CutsARun(pieces, k) ==> k < |pieces|
  {
  }

  /** A run of two full stops that arrives in two pieces. */
  lemma RunCanBeCut()
    ensures var pieces := ["a sentence.", "."]; CutsARun(pieces, 1) && Stream(pieces) != CutText(Whole(pieces))
  {
    var p: string := "a sentence.";
    var pieces: seq<string> := [p, "."];
    assert pieces[..1] == [p] && |[p][..0]| == 0;
    assert Whole([p]) == p;
    assert RunEndsAt(p, 11) && forall e :: MIN_CHUNK <= e < 11 ==> !RunEndsAt(p, e);
    assert ChunkEnd(p, 0) == Some(11);
    assert p[11..] == "" && CutText("") == Cut([], "");
    assert CutsARun(pieces, 1);
    StreamExactly(pieces);
  }

  // ----- the cut and the queue, told on the text

  /** A run of delimiters ends at e. */
  ghost predicate Stops(text: string, e: nat) {
    && 0 < e <= |text| && text[e - 1] in {'.', '!', '?', '\n', '\U{3002}', '\U{FF01}', '\U{FF1F}'}
    && (e < |text| ==> text[e] !in {'.', '!', '?', '\n', '\U{3002}', '\U{FF01}', '\U{FF1F}'})
  }

  lemma StopsExactly(text: string, e: nat)
    ensures RunEndsAt(text, e) <==> Stops(text, e)
  {
  }

  function StartOf(ends: seq<nat>, k: nat): nat
    requires k <= |ends|
  {
    if k == 0 then 0 else ends[k - 1]
  }

  /** Chunk k: from the end of the one before to the first place at least ten characters on where a run of
      delimiters ends. */
  ghost predicate ChunkIs(text: string, chunk: string, ends: seq<nat>, k: nat)
    requires k < |ends|
  {
    var start := StartOf(ends, k);
    && start + 10 <= ends[k] <= |text| && chunk == text[start..ends[k]]
    && Stops(text, ends[k]) && forall e: nat :: start + 10 <= e < ends[k] ==> !Stops(text, e)
  }

  /** The chunks, and what is left, in which there is no such place. */
  ghost predicate CutIs(text: string, cut: Cut, ends: seq<nat>) {
    && |cut.chunks| == |ends| && (forall k: nat :: k < |ends| ==> ChunkIs(text, cut.chunks[k], ends, k))
    && StartOf(ends, |ends|) <= |text| && cut.rest == text[StartOf(ends, |ends|)..]
    && forall e: nat :: StartOf(ends, |ends|) + 10 <= e <= |text| ==> !Stops(text, e)
  }

  function Shifted(ends: seq<nat>, d: nat): seq<nat> { seq(|ends|, k requires 0 <= k < |ends| => ends[k] + d) }

  lemma ShiftedStart(ends: seq<nat>, d: nat, k: nat)
    requires k <= |ends|
    ensures StartOf([d] + Shifted(ends, d), k + 1) == StartOf(ends, k) + d
    ensures k < |ends| ==> ([d] + Shifted(ends, d))[k + 1] == ends[k] + d
  {
  }

  lemma StopsBehind(text: string, d: nat, e: nat)
    requires d <= |text| && 0 < e
    ensures Stops(text[d..], e) <==> Stops(text, d + e)
  {
  }

  lemma ChunkBehind(text: string, chunk: string, ends: seq<nat>, d: nat, k: nat)
    requires d <= |text| && k < |ends| && ChunkIs(text[d..], chunk, ends, k)
    ensures |Shifted(ends, d)| == |ends| && ChunkIs(text, chunk, [d] + Shifted(ends, d), k + 1)
  {
    ShiftedStart(ends, d, k);
    forall e: nat | 0 < e
      ensures Stops(text[d..], e) <==> Stops(text, d + e)
    {
      StopsBehind(text, d, e);
    }
    var start, end := StartOf(ends, k), ends[k];
    assert text[d..][start..end] == text[d + start..d + end];
    hide Stops, Shifted;
    forall e: nat | start + d + 10 <= e < end + d
      ensures !Stops(text, e)
    {
      assert !Stops(text[d..], e - d);
    }
  }

  /** What the cut of a text is. */
  lemma {:induction false} CutTells(text: string) returns (ends: seq<nat>)
    ensures CutIs(text, CutText(text), ends)
    decreases |text|
  {
    FirstEnd(text);
    ends := [];
    if ChunkEnd(text, 0).Some? {
      var d := ChunkEnd(text, 0).value;
      var later := CutTells(text[d..]);
      ends := [d] + Shifted(later, d);
      hide ChunkEnd;
      CutBehind(text, CutText(text[d..]), later, d);
    }
  }

  lemma FirstEnd(text: string)
    ensures var first := ChunkEnd(text, 0);
      && (first.Some? ==> 10 <= first.value <= |text| && Stops(text, first.value))
      && forall e: nat :: 10 <= e < (if first.Some? then first.value else |text| + 1) ==> !Stops(text, e)
  {
    forall e: nat
      ensures RunEndsAt(text, e) <==> Stops(text, e)
    {
      StopsExactly(text, e);
    }
    hide Stops, RunEndsAt;
  }

  lemma CutBehind(text: string, cut: Cut, ends: seq<nat>, d: nat)
    requires 10 <= d <= |text| && CutIs(text[d..], cut, ends)
    requires Stops(text, d) && forall e: nat :: 10 <= e < d ==> !Stops(text, e)
    ensures CutIs(text, Prepend([text[..d]], cut), [d] + Shifted(ends, d))
  {
    var all := [d] + Shifted(ends, d);
    assert ChunkIs(text, text[..d], all, 0);
    ShiftedStart(ends, d, |ends|);
    assert text[d..][StartOf(ends, |ends|)..] == text[d + StartOf(ends, |ends|)..];
    hide Stops, ChunkIs, Shifted;
    assert |Shifted(ends, d)| == |ends| by { ShiftedLength(ends, d); }
    forall k: nat | k < |all|
      ensures ChunkIs(text, ([text[..d]] + cut.chunks)[k], all, k)
    {
      if k > 0 {
        ChunkBehind(text, cut.chunks[k - 1], ends, d, k - 1);
      }
    }
    forall e: nat | StartOf(ends, |ends|) + d + 10 <= e <= |text|
      ensures !Stops(text, e)
    {
      StopsBehind(text, d, e - d);
    }
  }

  lemma ShiftedLength(ends: seq<nat>, d: nat)
    ensures |Shifted(ends, d)| == |ends|
  {
  }

  /** Of the chunks those are spoken that are not white space throughout. */
  lemma {:induction false} SpokenTells(chunks: seq<string>) returns (at: seq<nat>)
    ensures Picked(chunks, Spoken(chunks), at)
    ensures forall i: nat :: i in at <==> i < |chunks| && exists j :: 0 <= j < |chunks[i]| && !IsSpace(chunks[i][j])
  {
    at := [];
    if chunks != [] {
      var n := |chunks| - 1;
      var front, last := chunks[..n], chunks[n];
      var before := SpokenTells(front);
      assert chunks == front + [last];
      PickedMore(front, Spoken(front), before, last, !Blank(last));
      at := before + if !Blank(last) then [n] else [];
      hide Picked, IsSpace;
      assert Spoken(chunks) == Spoken(front) + if !Blank(last) then [last] else [];
    }
  }

  /** One piece more: nothing for an empty one; otherwise the text held back is cut together with it, and the
      rest is held back. */
  lemma StreamTells(pieces: seq<string>, piece: string) returns (cut: Cut, ends: seq<nat>)
    ensures var (before, after) := (Stream(pieces), Stream(pieces + [piece]));
      && (piece == "" ==> after == before)
      && (piece != "" ==> CutIs(before.rest + piece, cut, ends) && after.chunks == before.chunks + cut.chunks && after.rest == cut.rest)
    ensures Stream([]) == Cut([], "")
  {
    var before := Stream(pieces);
    assert (pieces + [piece])[..|pieces|] == pieces;
    assert before.chunks + [] == before.chunks;
    cut := CutText(before.rest + piece);
    ends := CutTells(before.rest + piece);
    hide CutText, CutIs;
  }
}
