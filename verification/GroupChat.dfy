/** The group chat buffer (astrbot/builtin_stars/astrbot/group_chat_context.py): two parallel deques
    per session, a trim, a request that takes what was said before its prompt, a reset. Ghost state
    records where each message went; the invariant says that it went to exactly one place. Each
    method models one stretch of code between awaits. Configuration, message formatting and the fresh
    record id are parameters. */
module GroupChat {
  import opened Wrappers

  // ----- Python slices

  function SliceBound(n: nat, i: int): nat
    ensures SliceBound(n, i) <= n
  {
    if i < 0 then (if n + i < 0 then 0 else n + i) else if i > n then n else i
  }

  /** s[:i] */
  function Upto<T>(s: seq<T>, i: int): seq<T> { s[..SliceBound(|s|, i)] }

  /** s[i:] */
  function From<T>(s: seq<T>, i: int): seq<T> { s[SliceBound(|s|, i)..] }

  // ----- the prompt position

  function IndexIn(ids: seq<string>, id: string): (r: Option<nat>)
    ensures r.Some? ==> r.value < |ids| && ids[r.value] == id && id !in ids[..r.value]
    ensures r.None? <==> id !in ids
  {
    if ids == [] then None
    else if ids[0] == id then Some(0)
    else
      var rest := IndexIn(ids[1..], id);
      if rest.None? then None
      else
        assert ids[..rest.value + 1] == [ids[0]] + ids[1..][..rest.value];
        Some(rest.value + 1)
  }

  /** What a request finds: the index of its own record, or else the index it remembers. */
  function PromptIndex(ids: seq<string>, recordId: Option<string>, rawIdx: int): int {
    if recordId.Some? && recordId.value in ids then IndexIn(ids, recordId.value).value else rawIdx
  }

  /** Whether a request takes anything from the buffer at all. */
  predicate Proceeds(records: seq<string>, ids: seq<string>, recordId: Option<string>, rawIdx: int) {
    && (recordId.Some? || rawIdx >= 0)
    && records != []
    && PromptIndex(ids, recordId, rawIdx) < |records|
  }

  /** The request finds its own record, or remembers an index that the buffer reaches. */
  ghost predicate Takes(s: Session, recordId: Option<string>, rawIdx: int) {
    (recordId.Some? && recordId.value in s.ids) || 0 <= rawIdx < |s.records|
  }

  /** What it takes for its prompt: its own record where it is first found, or the one at that index. */
  ghost predicate PromptIs(s: Session, recordId: Option<string>, rawIdx: int, p: int) {
    && 0 <= p < |s.records| == |s.ids|
    && if recordId.Some? && recordId.value in s.ids then s.ids[p] == recordId.value && recordId.value !in s.ids[..p] else p == rawIdx
  }

  lemma TakesExactly(s: Session, recordId: Option<string>, rawIdx: int)
    requires |s.records| == |s.ids| && (recordId.Some? ==> rawIdx >= 0)
    ensures Proceeds(s.records, s.ids, recordId, rawIdx) <==> Takes(s, recordId, rawIdx)
    ensures Takes(s, recordId, rawIdx) ==> PromptIs(s, recordId, rawIdx, PromptIndex(s.ids, recordId, rawIdx))
  {
  }

  // ----- where messages go

  datatype Entry = Entry(id: string, text: string)

  /** What became of a message that left the buffer. */
  datatype Fate = Trimmed | Injected(request: nat) | Consumed(request: nat) | Cleared

  datatype Request = Request(session: string, injected: seq<string>)

  /** The texts of the messages that went into request r, in order. */
  function Texts(log: seq<Entry>, gone: seq<Fate>, r: nat): seq<string>
    requires |gone| <= |log|
  {
    if gone == [] then []
    else
      var n := |gone| - 1;
      Texts(log, gone[..n], r) + (if gone[n] == Injected(r) then [log[n].text] else [])
  }

  lemma {:induction false} TextsLonger(log: seq<Entry>, more: seq<Entry>, gone: seq<Fate>, r: nat)
    requires |gone| <= |log|
    ensures Texts(log + more, gone, r) == Texts(log, gone, r)
  {
    if gone != [] {
      TextsLonger(log, more, gone[..|gone| - 1], r);
    }
  }

  /** Messages that leave for other places do not change what went into r. */
  lemma {:induction false} TextsOther(log: seq<Entry>, gone: seq<Fate>, fates: seq<Fate>, r: nat)
    requires |gone| + |fates| <= |log| && Injected(r) !in fates
    ensures Texts(log, gone + fates, r) == Texts(log, gone, r)
  {
    if fates == [] {
      assert gone + fates == gone;
    } else {
      var n := |fates| - 1;
      assert fates[n] in fates;
      assert (gone + fates)[..|gone| + n] == gone + fates[..n];
      TextsOther(log, gone, fates[..n], r);
    }
  }

  function Repeat(fate: Fate, n: nat): seq<Fate> { seq(n, _ => fate) }

  /** Messages that leave for r are added to it in order. */
  lemma {:induction false} TextsInjected(log: seq<Entry>, gone: seq<Fate>, n: nat, r: nat)
    requires |gone| + n <= |log|
    ensures Texts(log, gone + Repeat(Injected(r), n), r) == Texts(log, gone, r) + seq(n, i requires 0 <= i < n => log[|gone| + i].text)
  {
    if n == 0 {
      assert gone + Repeat(Injected(r), 0) == gone;
    } else {
      var all := gone + Repeat(Injected(r), n);
      assert all[..|all| - 1] == gone + Repeat(Injected(r), n - 1);
      TextsInjected(log, gone, n - 1, r);
    }
  }

  lemma {:induction false} TextsNone(log: seq<Entry>, gone: seq<Fate>, r: nat)
    requires |gone| <= |log| && Injected(r) !in gone
    ensures Texts(log, gone, r) == []
  {
    TextsOther(log, [], gone, r);
    assert [] + gone == gone;
  }

  // ----- one session

  /** A session: the two deques, everything ever recorded, and where what left the buffer went. */
  datatype Session = Session(records: seq<string>, ids: seq<string>, log: seq<Entry>, gone: seq<Fate>)

  /** The buffer is exactly the last messages of the log, ids and texts aligned. */
  ghost predicate Suffix(s: Session) {
    && |s.records| == |s.ids| && |s.log| == |s.gone| + |s.records|
    && forall i :: 0 <= i < |s.records| ==> s.log[|s.gone| + i] == Entry(s.ids[i], s.records[i])
  }

  /** Every fate refers to a request made, and every request holds exactly the messages sent into it. */
  ghost predicate Accounted(session: string, log: seq<Entry>, gone: seq<Fate>, requests: seq<Request>) {
    && |gone| <= |log|
    && (forall i :: 0 <= i < |gone| && gone[i].Injected? ==> gone[i].request < |requests|)
    && (forall i :: 0 <= i < |gone| && gone[i].Consumed? ==> gone[i].request < |requests|)
    && forall r: nat :: r < |requests| ==>
         Texts(log, gone, r) == if requests[r].session == session then requests[r].injected else []
  }

  /** Every recorded message is in exactly one place. */
  ghost predicate Sound(name: string, s: Session, requests: seq<Request>) {
    Suffix(s) && Accounted(name, s.log, s.gone, requests)
  }

  /** How many of the oldest records a trim drops. */
  function Excess(n: nat, max: nat): nat { if n > max then n - max else 0 }

  /** A message is recorded and the buffer trimmed to the limit. */
  function Recorded(s: Session, entry: Entry, limit: nat): Session {
    var records, ids := s.records + [entry.text], s.ids + [entry.id];
    var excess := Excess(|records|, limit);
    Session(records[excess..], if excess <= |ids| then ids[excess..] else [], s.log + [entry], s.gone + Repeat(Trimmed, excess))
  }

  /** Request r takes the messages before the prompt and drops the prompt itself. */
  function Answered(s: Session, r: nat, prompt: nat): Session
    requires prompt < |s.records| && prompt < |s.ids|
  {
    Session(s.records[prompt + 1..], s.ids[prompt + 1..], s.log, s.gone + Taken(r, prompt))
  }

  function Reset(s: Session): Session { Session([], [], s.log, s.gone + Repeat(Cleared, |s.records|)) }

  /** The buffer after a message: the last texts and ids of the old ones and the new one, as many as there are
      or the limit allows; what is trimmed is only what the limit leaves no room for. */
  ghost predicate HoldsLatest(s: Session, t: Session, entry: Entry, limit: nat) {
    var all := |s.records| + 1;
    var n := if all <= limit then all else limit;
    && |s.ids| == |s.records| && |t.records| == |t.ids| == n
    && t.records == (s.records + [entry.text])[all - n..] && t.ids == (s.ids + [entry.id])[all - n..]
    && t.log == s.log + [entry] && t.gone == s.gone + seq(all - n, _ => Trimmed)
  }

  lemma RecordedHolds(s: Session, entry: Entry, limit: nat)
    requires |s.records| == |s.ids|
    ensures HoldsLatest(s, Recorded(s, entry, limit), entry, limit)
  {
  }

  lemma RecordedSound(name: string, s: Session, requests: seq<Request>, entry: Entry, limit: nat)
    requires Sound(name, s, requests) && limit > 0
    ensures Sound(name, Recorded(s, entry, limit), requests)
    ensures var t := Recorded(s, entry, limit); 0 < |t.records| == |t.ids| <= limit && t.ids[|t.ids| - 1] == entry.id
  {
    RecordedAligned(s, entry, limit);
    hide Suffix;
    RecordAccounted(name, s.log, s.gone, requests, entry);
    LeaveAccounted(name, s.log + [entry], s.gone, requests, Trimmed, Excess(|s.records| + 1, limit));
  }

  lemma RecordedIs(s: Session, entry: Entry, limit: nat)
    requires |s.records| == |s.ids|
    ensures var all := |s.records| + 1;
      var n := if all <= limit then all else limit;
      && Recorded(s, entry, limit).records == (s.records + [entry.text])[all - n..]
      && Recorded(s, entry, limit).ids == (s.ids + [entry.id])[all - n..]
  {
  }

  lemma RecordedAligned(s: Session, entry: Entry, limit: nat)
    requires Suffix(s) && limit > 0
    ensures var t := Recorded(s, entry, limit);
      && Suffix(t) && 0 < |t.records| == |t.ids| <= limit && t.ids[|t.ids| - 1] == entry.id
      && |s.gone| + Excess(|s.records| + 1, limit) <= |s.log + [entry]|
  {
    var t, excess := Recorded(s, entry, limit), Excess(|s.records| + 1, limit);
    forall i | 0 <= i < |t.records|
      ensures t.log[|t.gone| + i] == Entry(t.ids[i], t.records[i])
    {
      var k := excess + i;
      assert t.records[i] == (s.records + [entry.text])[k] && t.ids[i] == (s.ids + [entry.id])[k];
      assert k < |s.records| ==> s.log[|s.gone| + k] == Entry(s.ids[k], s.records[k]);
    }
  }

  lemma AnsweredSound(name: string, s: Session, requests: seq<Request>, prompt: nat)
    requires Sound(name, s, requests) && prompt < |s.records|
    ensures Sound(name, Answered(s, |requests|, prompt), requests + [Request(name, s.records[..prompt])])
  {
    RequestAccounted(name, s.log, s.gone, requests, prompt, s.records[..prompt]);
  }

  lemma ResetSound(name: string, s: Session, requests: seq<Request>)
    requires Sound(name, s, requests)
    ensures Sound(name, Reset(s), requests)
  {
    LeaveAccounted(name, s.log, s.gone, requests, Cleared, |s.records|);
  }

  lemma OthersSound(name: string, s: Session, requests: seq<Request>, request: Request)
    requires Sound(name, s, requests) && request.session != name
    ensures Sound(name, s, requests + [request])
  {
    OtherRequestAccounted(name, s.log, s.gone, requests, request);
  }

  lemma RecordAccounted(session: string, log: seq<Entry>, gone: seq<Fate>, requests: seq<Request>, entry: Entry)
    requires Accounted(session, log, gone, requests)
    ensures Accounted(session, log + [entry], gone, requests)
  {
    forall r: nat | r < |requests|
      ensures Texts(log + [entry], gone, r) == Texts(log, gone, r)
    {
      TextsLonger(log, [entry], gone, r);
    }
  }

  lemma LeaveAccounted(session: string, log: seq<Entry>, gone: seq<Fate>, requests: seq<Request>, fate: Fate, n: nat)
    requires Accounted(session, log, gone, requests) && |gone| + n <= |log| && (fate.Trimmed? || fate.Cleared?)
    ensures Accounted(session, log, gone + Repeat(fate, n), requests)
  {
    forall r: nat | r < |requests|
      ensures Texts(log, gone + Repeat(fate, n), r) == Texts(log, gone, r)
    {
      TextsOther(log, gone, Repeat(fate, n), r);
    }
  }

  /** The fates a request deals out: what is before the prompt is injected, the prompt is consumed. */
  function Taken(r: nat, prompt: nat): seq<Fate> { Repeat(Injected(r), prompt) + [Consumed(r)] }

  lemma RequestAccounted(session: string, log: seq<Entry>, gone: seq<Fate>, requests: seq<Request>, prompt: nat, injected: seq<string>)
    requires Accounted(session, log, gone, requests) && |gone| + prompt < |log| && |injected| == prompt
    requires forall i :: 0 <= i < prompt ==> log[|gone| + i].text == injected[i]
    ensures Accounted(session, log, gone + Taken(|requests|, prompt), requests + [Request(session, injected)])
  {
    hide Texts;
    var now := |requests|;
    var more := gone + Taken(now, prompt);
    assert more == gone + Repeat(Injected(now), prompt) + [Consumed(now)];
    forall r: nat | r < now
      ensures Texts(log, more, r) == Texts(log, gone, r)
    {
      TextsOther(log, gone, Taken(now, prompt), r);
    }
    TextsNone(log, gone, now);
    TextsInjected(log, gone, prompt, now);
    TextsOther(log, gone + Repeat(Injected(now), prompt), [Consumed(now)], now);
    assert seq(prompt, i requires 0 <= i < prompt => log[|gone| + i].text) == injected;
  }

  lemma OtherRequestAccounted(session: string, log: seq<Entry>, gone: seq<Fate>, requests: seq<Request>, request: Request)
    requires Accounted(session, log, gone, requests) && request.session != session
    ensures Accounted(session, log, gone, requests + [request])
  {
    TextsNone(log, gone, |requests|);
  }

  // ----- the context

  /** The extras an event carries; only HandleMessage writes them. */
  class ChatEvent {
    var recordId: Option<string>
    var rawIdx: int

    ghost predicate Valid()
      reads this
    {
      recordId.Some? ==> rawIdx >= 0
    }

    constructor ()
      ensures Valid() && recordId == None && rawIdx == -1
    {
      recordId, rawIdx := None, -1;
    }
  }

  const DEFAULT_GROUP_MESSAGE_MAX_CNT := 300

  /** The configured limit; what is no positive number falls back to the default. */
  function PositiveInt(parsed: Option<int>, fallback: nat): (n: nat)
    ensures fallback > 0 ==> n > 0
  {
    if parsed.Some? && parsed.value > 0 then parsed.value else fallback
  }

  function Default<T>(m: map<string, seq<T>>, key: string): seq<T> { if key in m then m[key] else [] }

  method TrimLeft(records: seq<string>, max: nat, ids: seq<string>) returns (keptRecords: seq<string>, keptIds: seq<string>)
    requires |records| == |ids|
    ensures |keptRecords| == |keptIds| == if |records| <= max then |records| else max
    ensures keptRecords == records[|records| - |keptRecords|..] && keptIds == ids[|ids| - |keptIds|..]
  {
    keptRecords, keptIds := records, ids;
    ghost var dropped: nat := 0;
    while |keptRecords| > max
      invariant dropped <= |records| && (dropped > 0 ==> dropped <= |records| - max)
      invariant keptRecords == records[dropped..] && keptIds == ids[dropped..]
    {
      keptRecords := keptRecords[1..];
      if keptIds != [] {
        keptIds := keptIds[1..];
      }
      dropped := dropped + 1;
    }
  }

  class GroupChatContext {
    var rawRecords: map<string, seq<string>>
    var recordIds: map<string, seq<string>>
    /** Every message ever recorded, per session. */
    ghost var logs: map<string, seq<Entry>>
    /** Where the messages that left the buffer went, per session, oldest first. */
    ghost var gone: map<string, seq<Fate>>
    ghost var requests: seq<Request>

    ghost function SessionOf(name: string): Session
      reads this
    {
      Session(Default(rawRecords, name), Default(recordIds, name), Default(logs, name), Default(gone, name))
    }

    /** On every run: each session's buffer is the tail of its log, deques aligned, and every recorded
        message is in exactly one place. */
    ghost predicate Valid()
      reads this
    {
      forall name :: Sound(name, SessionOf(name), requests)
    }

    constructor ()
      ensures Valid() && requests == [] && forall name :: SessionOf(name) == Session([], [], [], [])
    {
      rawRecords, recordIds := map[], map[];
      logs, gone, requests := map[], map[], [];
    }

    /** Replaces one session's deques and, in the ghost state, its history. */
    method Store(umo: string, records: seq<string>, ids: seq<string>, ghost after: Session)
      requires after.records == records && after.ids == ids
      modifies this`rawRecords, this`recordIds, this`logs, this`gone
      ensures SessionOf(umo) == after
      ensures forall name :: name != umo ==> SessionOf(name) == old(SessionOf(name))
    {
      rawRecords, recordIds := rawRecords[umo := records], recordIds[umo := ids];
      logs, gone := logs[umo := after.log], gone[umo := after.gone];
    }

    method HandleMessage(event: ChatEvent, umo: string, isGroup: bool, message: string, id: string, maxCnt: Option<int>)
      requires Valid() && event.Valid()
      modifies this, event
      ensures Valid() && event.Valid()
      ensures requests == old(requests) && forall name :: name != umo ==> SessionOf(name) == old(SessionOf(name))
      ensures !isGroup ==> SessionOf(umo) == old(SessionOf(umo)) && event.recordId == old(event.recordId)
      ensures isGroup ==>
        var limit := PositiveInt(maxCnt, DEFAULT_GROUP_MESSAGE_MAX_CNT);
        && SessionOf(umo) == Recorded(old(SessionOf(umo)), Entry(id, message), limit)
        && HoldsLatest(old(SessionOf(umo)), SessionOf(umo), Entry(id, message), if maxCnt.Some? && maxCnt.value > 0 then maxCnt.value else 300)
        && event.recordId == Some(id) && 0 <= event.rawIdx < |SessionOf(umo).ids|
        && event.rawIdx == |SessionOf(umo).records| - 1 && SessionOf(umo).ids[event.rawIdx] == id
    {
      hide Sound, Accounted, Texts, Suffix, Recorded, Default, HoldsLatest;
      if !isGroup {
        return;
      }
      ghost var before := SessionOf(umo);
      var limit := PositiveInt(maxCnt, DEFAULT_GROUP_MESSAGE_MAX_CNT);
      RecordedSound(umo, before, requests, Entry(id, message), limit);
      SoundAligned(umo, before, requests);
      var records := Default(rawRecords, umo) + [message];
      var ids := Default(recordIds, umo) + [id];
      records, ids := TrimLeft(records, limit, ids);
      RecordedIs(before, Entry(id, message), limit);
      RecordedHolds(before, Entry(id, message), limit);
      Store(umo, records, ids, Recorded(before, Entry(id, message), limit));
      event.recordId, event.rawIdx := Some(id), |records| - 1;
    }

    /** The texts that go into a request; empty when nothing is injected. */
    method OnReqLlm(event: ChatEvent, umo: string) returns (injected: seq<string>)
      requires Valid() && event.Valid()
      modifies this
      ensures Valid()
      ensures forall name :: name != umo ==> SessionOf(name) == old(SessionOf(name))
      ensures !Takes(old(SessionOf(umo)), event.recordId, event.rawIdx) ==>
        injected == [] && SessionOf(umo) == old(SessionOf(umo)) && requests == old(requests)
      ensures Takes(old(SessionOf(umo)), event.recordId, event.rawIdx) ==>
        var s := old(SessionOf(umo));
        var p := PromptIndex(s.ids, event.recordId, event.rawIdx);
        && PromptIs(s, event.recordId, event.rawIdx, p)
        && injected == s.records[..p] && requests == old(requests) + [Request(umo, injected)]
        && SessionOf(umo) == Answered(s, |old(requests)|, p)
        && SessionOf(umo).records == s.records[p + 1..] && SessionOf(umo).ids == s.ids[p + 1..]
    {
      hide Sound, Accounted, Texts, Suffix, Taken;
      injected := [];
      if event.recordId.None? && event.rawIdx < 0 {
        return;
      }
      ghost var before := SessionOf(umo);
      SoundAligned(umo, before, requests);
      TakesExactly(before, event.recordId, event.rawIdx);
      hide Takes, PromptIs;
      var records := Default(rawRecords, umo);
      if records == [] {
        return;
      }
      var ids := Default(recordIds, umo);
      var promptIdx := event.rawIdx;
      if event.recordId.Some? && event.recordId.value in ids {
        promptIdx := IndexIn(ids, event.recordId.value).value;
      }
      if promptIdx >= |records| {
        return;
      }
      SlicesMeet(records, ids, promptIdx);
      injected := Upto(records, promptIdx);
      hide Upto, From, SliceBound;
      ghost var request := Request(umo, injected);
      AnsweredSound(umo, before, requests, promptIdx);
      forall name | name != umo
        ensures Sound(name, SessionOf(name), requests + [request])
      {
        OthersSound(name, SessionOf(name), requests, request);
      }
      Store(umo, From(records, promptIdx + 1), if ids != [] then From(ids, promptIdx + 1) else [],
            Answered(before, |requests|, promptIdx));
      requests := requests + [request];
      forall name
        ensures Sound(name, SessionOf(name), requests)
      {
        assert name != umo ==> SessionOf(name) == old(SessionOf(name));
      }
    }

    method RemoveSession(umo: string) returns (count: nat)
      requires Valid()
      modifies this
      ensures Valid() && requests == old(requests)
      ensures forall name :: name != umo ==> SessionOf(name) == old(SessionOf(name))
      ensures SessionOf(umo) == Reset(old(SessionOf(umo))) && count == |old(SessionOf(umo).records)|
      ensures var s := old(SessionOf(umo)); SessionOf(umo) == Session([], [], s.log, s.gone + seq(count, _ => Cleared))
      ensures umo !in rawRecords && umo !in recordIds
    {
      hide Sound, Accounted, Texts;
      ResetSound(umo, SessionOf(umo), requests);
      ghost var after := Reset(SessionOf(umo));
      count := |Default(rawRecords, umo)|;
      rawRecords, recordIds := rawRecords - {umo}, recordIds - {umo};
      gone := gone[umo := after.gone];
      assert SessionOf(umo) == after;
      forall name
        ensures name != umo ==> SessionOf(name) == old(SessionOf(name))
        ensures Sound(name, SessionOf(name), requests)
      {
        assert name != umo ==> SessionOf(name) == old(SessionOf(name));
      }
    }
  }

  lemma SlicesMeet(records: seq<string>, ids: seq<string>, p: nat)
    requires p < |records| == |ids|
    ensures Upto(records, p) == records[..p] && From(records, p + 1) == records[p + 1..] && From(ids, p + 1) == ids[p + 1..]
  {
  }

  lemma SoundAligned(name: string, s: Session, requests: seq<Request>)
    requires Sound(name, s, requests)
    ensures |s.records| == |s.ids|
  {
  }

  // ----- whose message a request consumes

  /** Record ids are fresh. */
  ghost predicate DistinctIds(log: seq<Entry>) {
    forall i, j :: 0 <= i < j < |log| ==> log[i].id != log[j].id
  }

  /** The position in the log of the message that a request of message j consumes. */
  function ConsumedAt(s: Session, j: nat, rawIdx: nat): nat
    requires j < |s.log|
  {
    |s.gone| + if s.log[j].id in s.ids then IndexIn(s.ids, s.log[j].id).value else rawIdx
  }

  lemma Buffered(s: Session, j: nat)
    requires Suffix(s) && DistinctIds(s.log) && j < |s.log|
    ensures s.log[j].id in s.ids <==> j >= |s.gone|
    ensures j >= |s.gone| ==> IndexIn(s.ids, s.log[j].id) == Some(j - |s.gone|)
  {
    var id, n := s.log[j].id, |s.gone|;
    assert forall k :: 0 <= k < |s.ids| ==> s.log[n + k].id == s.ids[k];
    assert j >= n ==> s.ids[j - n] == id;
  }

  /** The request of message j, sent whenever it may be: it takes something exactly if its message is still
      buffered or the buffer reaches the index it remembers; and what it consumes is its own message if and
      only if that is still buffered. Otherwise it is another's, which is then in no request. */
  lemma OwnMessageConsumedExactly(name: string, s: Session, requests: seq<Request>, j: nat, rawIdx: nat)
    requires Sound(name, s, requests) && DistinctIds(s.log) && j < |s.log|
    ensures Proceeds(s.records, s.ids, Some(s.log[j].id), rawIdx)
       <==> j >= |s.gone| || rawIdx < |s.records|
    ensures Proceeds(s.records, s.ids, Some(s.log[j].id), rawIdx) ==>
      var p := PromptIndex(s.ids, Some(s.log[j].id), rawIdx);
      var k := ConsumedAt(s, j, rawIdx);
      && 0 <= p < |s.records| == |s.ids| && k < |s.log|
      && (k == j <==> j >= |s.gone|)
      && |s.gone| <= k < |Answered(s, |requests|, p).gone| && Answered(s, |requests|, p).gone[k] == Consumed(|requests|)
  {
    hide Accounted;
    Buffered(s, j);
  }

  /** A run that shows it: with room for one message, the second trims the first, and the request of the
      first then consumes the second, whose own request finds nothing. */
  method StaleRequest() returns (context: GroupChatContext, injected: seq<string>, later: seq<string>)
    ensures injected == [] && later == []
    ensures context.SessionOf("group") == Session([], [], [Entry("1", "a"), Entry("2", "b")], [Trimmed, Consumed(0)])
  {
    hide *;
    StaleStates();
    StaleIndex();
    context := new GroupChatContext();
    var first := new ChatEvent();
    var second := new ChatEvent();
    context.HandleMessage(first, "group", true, "a", "1", Some(1));
    context.HandleMessage(second, "group", true, "b", "2", Some(1));
    injected := context.OnReqLlm(first, "group");
    later := context.OnReqLlm(second, "group");
  }

  lemma StaleIndex()
    ensures PositiveInt(Some(1), DEFAULT_GROUP_MESSAGE_MAX_CNT) == 1
    ensures forall log, gone :: Takes(Session(["b"], ["2"], log, gone), Some("1"), 0) && !Takes(Session([], [], log, gone), Some("2"), 0)
    ensures PromptIndex(["2"], Some("1"), 0) == 0
  {
  }

  lemma StaleStates()
    ensures var one := Recorded(Session([], [], [], []), Entry("1", "a"), 1);
      var two := Recorded(one, Entry("2", "b"), 1);
      && one == Session(["a"], ["1"], [Entry("1", "a")], [])
      && two == Session(["b"], ["2"], [Entry("1", "a"), Entry("2", "b")], [Trimmed])
      && Answered(two, 0, 0) == Session([], [], [Entry("1", "a"), Entry("2", "b")], [Trimmed, Consumed(0)])
  {
    assert Repeat(Trimmed, 1) == [Trimmed] && Repeat(Trimmed, 0) == [] && Taken(0, 0) == [Consumed(0)];
  }
}
