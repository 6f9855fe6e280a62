/** Checkpoints in a saved conversation (astrbot/core/agent/message.py): loading binds each one to the
    message before it, saving puts it back behind that message. */
module Checkpoints {
  import opened Selections
  import opened Wrappers

  datatype Role = System | User | Assistant | Tool | Unknown(name: string)

  /** A part marked no-save is for the provider only. */
  datatype Part = Part(text: string, noSave: bool)

  datatype Content = NoContent | Text(text: string) | Parts(parts: seq<Part>)

  /** An item of a saved history. A checkpoint without an id is one whose content does not validate. */
  datatype Item =
    | Checkpoint(id: Option<string>)
    | Plain(role: Role, content: Content, toolCalls: Option<string>, toolCallId: Option<string>, noSave: bool)

  /** A message as a value. */
  datatype Msg = Msg(role: Role, content: Content, toolCalls: Option<string>, toolCallId: Option<string>, noSave: bool,
                     checkpointAfter: Option<string>)

  class Message {
    const role: Role
    const content: Content
    const toolCalls: Option<string>
    const toolCallId: Option<string>
    var noSave: bool
    var checkpointAfter: Option<string>

    constructor (item: Item)
      requires item.Plain?
      ensures Value() == Load(item).(noSave := false)
    {
      role, content, toolCalls, toolCallId := item.role, item.content, item.toolCalls, item.toolCallId;
      noSave, checkpointAfter := false, None;
    }

    function Value(): Msg
      reads this
    {
      Msg(role, content, toolCalls, toolCallId, noSave, checkpointAfter)
    }
  }

  // ----- single items

  /** What the message model accepts; anything else raises ValidationError. */
  predicate Acceptable(item: Item) {
    item.Plain? ==> !item.role.Unknown? && (item.content != NoContent || (item.role.Assistant? && item.toolCalls.Some?))
  }

  /** A message of an unknown role, or without content where it is no assistant's with tool calls. */
  ghost predicate Refused(item: Item) {
    item.Plain? && (item.role.Unknown? || (item.content.NoContent? && (!item.role.Assistant? || item.toolCalls.None?)))
  }

  lemma AcceptableExactly(item: Item)
    ensures Acceptable(item) <==> !Refused(item)
  {
  }

  /** Loading reads the marks back, on the message and on its parts. */
  function Load(item: Item): Msg
    requires item.Plain?
  {
    Msg(item.role, item.content, item.toolCalls, item.toolCallId, item.noSave, None)
  }

  function SavedParts(parts: seq<Part>): seq<Part> {
    if parts == [] then [] else
      SavedParts(parts[..|parts| - 1]) + if parts[|parts| - 1].noSave then [] else [parts[|parts| - 1]]
  }

  /** What is saved of the content. */
  function Writing(content: Content): Content {
    if content.Parts? then Parts(SavedParts(content.parts)) else content
  }

  /** The message itself, and its checkpoint behind it. */
  function DumpOne(m: Msg): seq<Item> {
    [Plain(m.role, Writing(m.content), m.toolCalls, m.toolCallId, false)]
    + if m.checkpointAfter.Some? then [Checkpoint(m.checkpointAfter)] else []
  }

  // ----- whole histories

  /** One more item of the history. */
  function BindOne(messages: seq<Msg>, item: Item): seq<Msg> {
    match item
    case Checkpoint(id) =>
      if id.Some? && messages != [] then messages[|messages| - 1 := messages[|messages| - 1].(checkpointAfter := id)] else messages
    case Plain(_, _, _, _, _) => messages + [Load(item)]
  }

  function BindAll(history: seq<Item>): seq<Msg> {
    if history == [] then [] else BindOne(BindAll(history[..|history| - 1]), history[|history| - 1])
  }

  function DumpAll(messages: seq<Msg>): seq<Item> {
    if messages == [] then [] else DumpAll(messages[..|messages| - 1]) + DumpOne(messages[|messages| - 1])
  }

  function Strip(history: seq<Item>): seq<Item> {
    if history == [] then [] else
      Strip(history[..|history| - 1]) + if history[|history| - 1].Checkpoint? then [] else [history[|history| - 1]]
  }

  ghost predicate Values(messages: seq<Message>, values: seq<Msg>)
    reads messages
  {
    |messages| == |values| && forall i :: 0 <= i < |messages| ==> messages[i].Value() == values[i]
  }

  /** Loading; None stands for the exception of an item that does not validate. */
  method BindCheckpointMessages(history: seq<Item>) returns (r: Option<seq<Message>>)
    ensures r.None? <==> exists i :: 0 <= i < |history| && Refused(history[i])
    ensures r.Some? ==> fresh(r.value) && Values(r.value, BindAll(history))
  {
    var messages: seq<Message> := [];
    for i := 0 to |history|
      invariant forall j :: 0 <= j < i ==> !Refused(history[j])
      invariant fresh(messages) && Values(messages, BindAll(history[..i]))
      invariant forall j, k :: 0 <= j < k < |messages| ==> messages[j] != messages[k]
    {
      assert history[..i + 1][..i] == history[..i];
      var item := history[i];
      if item.Checkpoint? {
        if item.id.Some? && messages != [] {
          messages[|messages| - 1].checkpointAfter := item.id;
        }
        continue;
      }
      AcceptableExactly(item);
      if !Acceptable(item) {
        return None;
      }
      var message := new Message(item);
      if item.noSave {
        message.noSave := true;
      }
      messages := messages + [message];
    }
    assert history[..|history|] == history;
    return Some(messages);
  }

  method DumpMessagesWithCheckpoints(messages: seq<Message>, ghost values: seq<Msg>) returns (dumped: seq<Item>)
    requires Values(messages, values)
    ensures dumped == DumpAll(values)
  {
    dumped := [];
    for i := 0 to |messages|
      invariant dumped == DumpAll(values[..i])
    {
      assert values[..i + 1][..i] == values[..i] && messages[i].Value() == values[i];
      var message := messages[i];
      dumped := dumped + [Plain(message.role, Writing(message.content), message.toolCalls, message.toolCallId, false)];
      if message.checkpointAfter.Some? {
        dumped := dumped + [Checkpoint(message.checkpointAfter)];
      }
    }
    assert values[..|messages|] == values;
  }

  // ----- what a load and a save make of a history

  function Resave(history: seq<Item>): seq<Item> { DumpAll(BindAll(history)) }

  /** An item without what is marked no-save, and without the marks. */
  function Unmarked(item: Item): Item {
    if item.Plain? then item.(content := Writing(item.content), noSave := false) else item
  }

  function UnmarkedAll(history: seq<Item>): (r: seq<Item>)
    ensures |r| == |history| && forall i :: 0 <= i < |r| ==> r[i] == Unmarked(history[i])
  {
    seq(|history|, i requires 0 <= i < |history| => Unmarked(history[i]))
  }

  lemma DumpLoad(item: Item)
    requires item.Plain?
    ensures DumpOne(Load(item)) == [Unmarked(item)]
  {
  }

  /** The history a load and a save leave behind, written down directly: the last element decides. */
  lemma ResaveStep(history: seq<Item>, item: Item)
    ensures item.Plain? ==> Resave(history + [item]) == Resave(history) + [Unmarked(item)]
    ensures item.Checkpoint? && (item.id.None? || Resave(history) == []) ==> Resave(history + [item]) == Resave(history)
    ensures item.Checkpoint? && item.id.Some? && Resave(history) != [] ==>
      var h := Resave(history);
      Resave(history + [item]) == (if h[|h| - 1].Checkpoint? then h[..|h| - 1] else h) + [item]
  {
    assert (history + [item])[..|history|] == history;
    var ms := BindAll(history);
    if item.Plain? {
      DumpLoad(item);
      assert (ms + [Load(item)])[..|ms|] == ms;
    } else if item.id.Some? && ms != [] {
      var n := |ms| - 1;
      var bound := ms[n := ms[n].(checkpointAfter := item.id)];
      assert bound[..n] == ms[..n];
    }
  }

  predicate MarkedContent(content: Content) {
    content.Parts? && exists i :: 0 <= i < |content.parts| && content.parts[i].noSave
  }

  /** Marked no-save, or a part of it is. */
  predicate Marked(item: Item)
    requires item.Plain?
  {
    item.noSave || MarkedContent(item.content)
  }

  /** No checkpoint in front, none behind another, all of them with an id, no message and no part of one
      marked no-save. */
  ghost predicate Canonical(history: seq<Item>) {
    && (history != [] ==> history[0].Plain?)
    && (forall i :: 0 <= i < |history| ==> if history[i].Plain? then !Marked(history[i]) else history[i].id.Some?)
    && (forall i :: 0 < i < |history| && history[i].Checkpoint? ==> history[i - 1].Plain?)
  }

  lemma {:induction false} SavedAll(parts: seq<Part>)
    requires forall i :: 0 <= i < |parts| ==> !parts[i].noSave
    ensures SavedParts(parts) == parts
  {
    if parts != [] {
      SavedAll(parts[..|parts| - 1]);
    }
  }

  lemma {:induction false} SavedUnmarked(parts: seq<Part>)
    ensures forall i :: 0 <= i < |SavedParts(parts)| ==> !SavedParts(parts)[i].noSave
  {
    if parts != [] {
      SavedUnmarked(parts[..|parts| - 1]);
    }
  }

  /** Saving drops the marked parts, and changes exactly the content that has one. */
  lemma WritingExactly(content: Content)
    ensures !MarkedContent(Writing(content))
    ensures Writing(content) == content <==> !MarkedContent(content)
  {
    if content.Parts? {
      SavedUnmarked(content.parts);
      if !MarkedContent(content) {
        SavedAll(content.parts);
      }
    }
  }

  lemma CanonicalStep(history: seq<Item>, item: Item)
    ensures Canonical(history + [item]) <==>
      && Canonical(history)
      && if item.Plain? then !Marked(item) else item.id.Some? && history != [] && history[|history| - 1].Plain?
  {
    var h := history + [item];
    assert h[|history|] == item && forall i :: 0 <= i < |history| ==> h[i] == history[i];
  }

  lemma UnmarkedExactly(item: Item)
    ensures item.Plain? ==> !Marked(Unmarked(item)) && (Unmarked(item) == item <==> !Marked(item))
  {
    if item.Plain? {
      WritingExactly(item.content);
    }
  }

  lemma CanonicalEnd(history: seq<Item>)
    requires Canonical(history) && history != [] && history[|history| - 1].Checkpoint?
    ensures var front := history[..|history| - 1]; Canonical(front) && front != [] && front[|front| - 1].Plain?
  {
  }

  lemma {:induction false} ResaveCanonical(history: seq<Item>)
    ensures Canonical(Resave(history))
  {
    if history != [] {
      hide Resave, Canonical;
      var front, item := history[..|history| - 1], history[|history| - 1];
      assert history == front + [item];
      ResaveCanonical(front);
      ResaveStep(front, item);
      var h := Resave(front);
      UnmarkedExactly(item);
      CanonicalStep(h, Unmarked(item));
      if h != [] && h[|h| - 1].Checkpoint? {
        CanonicalEnd(h);
        CanonicalStep(h[..|h| - 1], item);
      }
    }
  }

  lemma {:induction false} CanonicalKept(history: seq<Item>)
    requires Canonical(history)
    ensures Resave(history) == history
  {
    if history != [] {
      hide Resave, Canonical;
      var front, item := history[..|history| - 1], history[|history| - 1];
      assert history == front + [item];
      CanonicalStep(front, item);
      UnmarkedExactly(item);
      CanonicalKept(front);
      ResaveStep(front, item);
    }
  }

  /** Loading and saving leaves exactly the canonical histories unchanged, and makes every history
      canonical; so doing it twice is doing it once. */
  lemma ResaveExactly(history: seq<Item>)
    ensures Resave(history) == history <==> Canonical(history)
    ensures Resave(Resave(history)) == Resave(history)
  {
    hide Resave, Canonical;
    ResaveCanonical(history);
    CanonicalKept(Resave(history));
    if Canonical(history) {
      CanonicalKept(history);
    }
  }

  /** A saved message with a part marked no-save loses that part. */
  lemma MarkedPartIsDropped()
    ensures var (kept, marked) := (Part("persisted", false), Part("temporary", true));
      Resave([Plain(User, Parts([kept, marked]), None, None, false)]) == [Plain(User, Parts([kept]), None, None, false)]
  {
    var kept, marked := Part("persisted", false), Part("temporary", true);
    var item := Plain(User, Parts([kept, marked]), None, None, false);
    assert [kept, marked][..1] == [kept] && [kept][..0] == [];
    assert SavedParts([kept]) == [kept] && SavedParts([kept, marked]) == [kept];
    ResaveStep([], item);
    assert [] + [item] == [item];
  }

  lemma StripStep(history: seq<Item>, item: Item)
    ensures Strip(history + [item]) == Strip(history) + if item.Checkpoint? then [] else [item]
  {
    assert (history + [item])[..|history|] == history;
  }

  lemma StripDrops(history: seq<Item>)
    requires history != [] && history[|history| - 1].Checkpoint?
    ensures Strip(history[..|history| - 1]) == Strip(history)
  {
    assert Strip(history[..|history| - 1]) + [] == Strip(history[..|history| - 1]);
  }

  lemma ResaveStrips(history: seq<Item>, item: Item)
    ensures Strip(Resave(history + [item])) == Strip(Resave(history)) + if item.Checkpoint? then [] else [Unmarked(item)]
  {
    hide Resave, Strip;
    var h := Resave(history);
    ResaveStep(history, item);
    if item.Plain? {
      StripStep(h, Unmarked(item));
    } else if item.id.Some? && h != [] {
      var rest := if h[|h| - 1].Checkpoint? then h[..|h| - 1] else h;
      assert Strip(rest) == Strip(h) by {
        if h[|h| - 1].Checkpoint? {
          StripDrops(h);
        }
      }
      StripStep(rest, item);
    }
  }

  /** All other messages stay, in order, without what is marked no-save. */
  lemma {:induction false} MessagesStay(history: seq<Item>)
    ensures Strip(Resave(history)) == UnmarkedAll(Strip(history))
  {
    hide Resave, UnmarkedAll;
    if history == [] {
      NothingStays();
    } else {
      var front, item := history[..|history| - 1], history[|history| - 1];
      assert history == front + [item];
      MessagesStay(front);
      ResaveStrips(front, item);
      StripStep(front, item);
    }
  }

  lemma NothingStays()
    ensures Strip(Resave([])) == UnmarkedAll(Strip([])) == []
  {
  }

  lemma {:induction false} PlainsOnly(history: seq<Item>)
    requires forall i :: 0 <= i < |history| ==> history[i].Plain?
    ensures Resave(history) == UnmarkedAll(history)
  {
    if history != [] {
      var front, item := history[..|history| - 1], history[|history| - 1];
      PlainsOnly(front);
      ResaveStep(front, item);
      assert history == front + [item];
    }
  }

  lemma {:induction false} StripIsPlain(history: seq<Item>)
    ensures forall i :: 0 <= i < |Strip(history)| ==> Strip(history)[i].Plain?
  {
    if history != [] {
      StripIsPlain(history[..|history| - 1]);
    }
  }

  /** Stripping before or after makes no difference. */
  lemma StripCommutes(history: seq<Item>)
    ensures Strip(Resave(history)) == Resave(Strip(history))
  {
    MessagesStay(history);
    StripIsPlain(history);
    PlainsOnly(Strip(history));
  }

  // ----- which checkpoint is bound

  /** Item j is a checkpoint with an id, behind exactly k + 1 messages. */
  ghost predicate BelongsTo(history: seq<Item>, j: nat, k: nat) {
    j < |history| && history[j].Checkpoint? && history[j].id.Some? && |Strip(history[..j])| == k + 1
  }

  ghost predicate LastOf(history: seq<Item>, j: nat, k: nat) {
    BelongsTo(history, j, k) && forall m: nat :: BelongsTo(history, m, k) ==> m <= j
  }

  lemma {:induction false} BoundCount(history: seq<Item>)
    ensures |BindAll(history)| == |Strip(history)|
  {
    if history != [] {
      BoundCount(history[..|history| - 1]);
    }
  }

  lemma BelongsStep(history: seq<Item>, item: Item, k: nat)
    ensures forall j: nat :: j < |history| ==> (BelongsTo(history + [item], j, k) <==> BelongsTo(history, j, k))
    ensures BelongsTo(history + [item], |history|, k) <==> item.Checkpoint? && item.id.Some? && |Strip(history)| == k + 1
  {
    var g := history + [item];
    assert g[..|history|] == history;
    assert forall j: nat :: j < |history| ==> g[..j] == history[..j];
  }

  /** A message carries a checkpoint if and only if it is the last one with an id between that message and
      the next. */
  lemma {:induction false} BoundExactly(history: seq<Item>, k: nat, id: string)
    requires k < |BindAll(history)|
    ensures BindAll(history)[k].checkpointAfter == Some(id)
            <==> exists j: nat :: LastOf(history, j, k) && history[j].id == Some(id)
  {
    var front, item := history[..|history| - 1], history[|history| - 1];
    BoundCount(front);
    BelongsStep(front, item, k);
    assert history == front + [item];
    if k < |BindAll(front)| {
      BoundExactly(front, k, id);
    } else {
      BelongsNone(front, k);
    }
    if item.Checkpoint? && item.id.Some? && |BindAll(front)| == k + 1 {
      assert LastOf(history, |front|, k);
    } else {
      assert forall j: nat :: LastOf(history, j, k) <==> LastOf(front, j, k);
    }
  }

  lemma {:induction false} StripGrows(history: seq<Item>, j: nat)
    requires j <= |history|
    ensures |Strip(history[..j])| <= |Strip(history)|
  {
    if j < |history| {
      var front := history[..|history| - 1];
      StripGrows(front, j);
      assert front[..j] == history[..j];
    } else {
      assert history[..j] == history;
    }
  }

  lemma BelongsNone(history: seq<Item>, k: nat)
    requires |Strip(history)| <= k
    ensures forall j: nat :: !BelongsTo(history, j, k)
  {
    forall j: nat | j <= |history|
      ensures |Strip(history[..j])| <= k
    {
      StripGrows(history, j);
    }
  }

  // ----- saving, then loading

  predicate Keeps(m: Msg) { !m.noSave && !MarkedContent(m.content) }

  /** A message that was saved and loaded again. */
  function Reloaded(m: Msg): Msg { m.(content := Writing(m.content), noSave := false) }

  lemma ReloadedExactly(m: Msg)
    ensures Reloaded(m) == m <==> Keeps(m)
  {
    WritingExactly(m.content);
  }

  lemma BindStep(history: seq<Item>, item: Item)
    ensures BindAll(history + [item]) == BindOne(BindAll(history), item)
  {
    assert (history + [item])[..|history|] == history;
  }

  function ReloadedAll(messages: seq<Msg>): (r: seq<Msg>)
    ensures |r| == |messages| && forall i :: 0 <= i < |r| ==> r[i] == Reloaded(messages[i])
  {
    seq(|messages|, i requires 0 <= i < |messages| => Reloaded(messages[i]))
  }

  lemma ReloadOne(history: seq<Item>, m: Msg)
    ensures BindAll(history + DumpOne(m)) == BindAll(history) + [Reloaded(m)]
  {
    hide BindAll, Writing;
    var plain := Plain(m.role, Writing(m.content), m.toolCalls, m.toolCallId, false);
    BindStep(history, plain);
    BindStep(history + [plain], Checkpoint(m.checkpointAfter));
    var ms := BindAll(history);
    assert history + DumpOne(m) ==
           if m.checkpointAfter.Some? then history + [plain] + [Checkpoint(m.checkpointAfter)] else history + [plain];
    assert (ms + [Load(plain)])[|ms| := Reloaded(m)] == ms + [Reloaded(m)];
  }

  lemma {:induction false} SaveThenLoad(messages: seq<Msg>)
    ensures BindAll(DumpAll(messages)) == ReloadedAll(messages)
  {
    if messages != [] {
      hide *;
      var front, m := messages[..|messages| - 1], messages[|messages| - 1];
      SaveThenLoad(front);
      DumpStep(messages);
      ReloadOne(DumpAll(front), m);
      ReloadedStep(messages);
    }
  }

  lemma DumpStep(messages: seq<Msg>)
    requires messages != []
    ensures DumpAll(messages) == DumpAll(messages[..|messages| - 1]) + DumpOne(messages[|messages| - 1])
  {
  }

  lemma ReloadedStep(messages: seq<Msg>)
    requires messages != []
    ensures ReloadedAll(messages) == ReloadedAll(messages[..|messages| - 1]) + [Reloaded(messages[|messages| - 1])]
  {
    hide Reloaded;
  }

  /** Saving and loading gives back exactly the messages if and only if nothing is marked no-save. */
  lemma SaveThenLoadExactly(messages: seq<Msg>)
    ensures BindAll(DumpAll(messages)) == messages <==> forall i :: 0 <= i < |messages| ==> Keeps(messages[i])
  {
    hide BindAll, DumpAll, Keeps, Reloaded, ReloadedAll;
    SaveThenLoad(messages);
    var again := BindAll(DumpAll(messages));
    forall i | 0 <= i < |messages|
      ensures again[i] == messages[i] <==> Keeps(messages[i])
    {
      ReloadedExactly(messages[i]);
    }
    assert again == messages <==> forall i :: 0 <= i < |messages| ==> again[i] == messages[i];
  }

  // ----- what is loaded and what is saved, told item by item

  /** The messages loaded: one for each item that is no checkpoint, in their order, with its fields and marks. */
  ghost predicate LoadedAs(history: seq<Item>, messages: seq<Msg>, at: seq<nat>) {
    && Ascends(at, |history|) && |messages| == |at| && (forall i: nat :: i in at <==> i < |history| && history[i].Plain?)
    && forall k :: 0 <= k < |at| ==> history[at[k]].Plain? && SameFields(history[at[k]], messages[k])
  }

  ghost predicate SameFields(item: Item, m: Msg)
    requires item.Plain?
  {
    && m.role == item.role && m.content == item.content && m.toolCalls == item.toolCalls
    && m.toolCallId == item.toolCallId && m.noSave == item.noSave
  }

  lemma {:induction false} LoadedTells(history: seq<Item>) returns (at: seq<nat>)
    ensures LoadedAs(history, BindAll(history), at)
  {
    hide *;
    at := [];
    NothingLoaded();
    if history != [] {
      var n := |history| - 1;
      var front, item := history[..n], history[n];
      var before := LoadedTells(front);
      BindStep(front, item);
      assert history == front + [item];
      at := before + if item.Plain? then [n] else [];
      LoadedMore(front, BindAll(front), before, item);
    }
  }

  lemma NothingLoaded()
    ensures LoadedAs([], BindAll([]), [])
  {
  }

  lemma LoadedMore(history: seq<Item>, messages: seq<Msg>, at: seq<nat>, item: Item)
    requires LoadedAs(history, messages, at)
    ensures LoadedAs(history + [item], BindOne(messages, item), at + if item.Plain? then [|history|] else [])
  {
    if item.Plain? {
      assert SameFields(item, Load(item));
      hide SameFields, LoadedAs, Load;
      LoadedNew(history, messages, at, item, Load(item));
    } else {
      var after := BindOne(messages, item);
      assert |after| == |messages| && forall k :: 0 <= k < |messages| ==> after[k] == messages[k].(checkpointAfter := after[k].checkpointAfter);
      hide BindOne, LoadedAs;
      LoadedStill(history, messages, at, item, after);
      assert at + [] == at;
    }
  }

  lemma LoadedNew(history: seq<Item>, messages: seq<Msg>, at: seq<nat>, item: Item, m: Msg)
    requires LoadedAs(history, messages, at) && item.Plain? && SameFields(item, m)
    ensures LoadedAs(history + [item], messages + [m], at + [|history|])
  {
    var all := at + [|history|];
    hide SameFields;
    forall k | 0 <= k < |all|
      ensures (history + [item])[all[k]].Plain? && SameFields((history + [item])[all[k]], (messages + [m])[k])
    {
      if k < |at| {
        assert SameFields(history[at[k]], messages[k]);
      }
    }
  }

  /** A checkpoint changes none of these fields. */
  lemma LoadedStill(history: seq<Item>, messages: seq<Msg>, at: seq<nat>, item: Item, after: seq<Msg>)
    requires LoadedAs(history, messages, at) && item.Checkpoint? && |after| == |messages|
    requires forall k :: 0 <= k < |messages| ==> after[k] == messages[k].(checkpointAfter := after[k].checkpointAfter)
    ensures LoadedAs(history + [item], after, at)
  {
    forall k | 0 <= k < |at|
      ensures (history + [item])[at[k]].Plain? && SameFields((history + [item])[at[k]], after[k])
    {
      assert SameFields(history[at[k]], messages[k]);
    }
    hide SameFields;
  }

  /** The content saved: of parts those that are not marked, in their order; any other content as it is. */
  ghost predicate SavedAs(content: Content, saved: Content) {
    if content.Parts? then saved.Parts? && exists at: seq<nat> :: UnmarkedParts(content.parts, saved.parts, at) else saved == content
  }

  ghost predicate UnmarkedParts(parts: seq<Part>, saved: seq<Part>, at: seq<nat>) {
    Picked(parts, saved, at) && forall i: nat :: i in at <==> i < |parts| && !parts[i].noSave
  }

  lemma {:induction false} PartsTell(parts: seq<Part>) returns (at: seq<nat>)
    ensures UnmarkedParts(parts, SavedParts(parts), at)
  {
    at := [];
    if parts != [] {
      var n := |parts| - 1;
      var front, last := parts[..n], parts[n];
      var before := PartsTell(front);
      assert parts == front + [last];
      PickedMore(front, SavedParts(front), before, last, !last.noSave);
      at := before + if !last.noSave then [n] else [];
      hide Picked;
      assert SavedParts(parts) == SavedParts(front) + if !last.noSave then [last] else [];
    }
  }

  /** Where message k is in what is saved: behind the one before, and behind that one's checkpoint. */
  function PlaceOf(messages: seq<Msg>, k: nat): nat
    requires k <= |messages|
  {
    if k == 0 then 0 else PlaceOf(messages, k - 1) + if messages[k - 1].checkpointAfter.Some? then 2 else 1
  }

  /** Message k as it is saved, with its checkpoint behind it. */
  ghost predicate SavedAt(messages: seq<Msg>, items: seq<Item>, k: nat)
    requires k < |messages|
  {
    var (m, p) := (messages[k], PlaceOf(messages, k));
    && p < |items| && items[p].Plain? && items[p].role == m.role && items[p].toolCalls == m.toolCalls
    && items[p].toolCallId == m.toolCallId && !items[p].noSave && SavedAs(m.content, items[p].content)
    && (m.checkpointAfter.Some? ==> p + 1 < |items| && items[p + 1] == Checkpoint(m.checkpointAfter))
  }

  lemma {:induction false} PlaceSame(messages: seq<Msg>, m: Msg, k: nat)
    requires k <= |messages|
    ensures PlaceOf(messages + [m], k) == PlaceOf(messages, k)
  {
    if k > 0 {
      PlaceSame(messages, m, k - 1);
    }
  }

  /** What is saved: each message in its place, and nothing else. */
  lemma {:induction false} SavedTells(messages: seq<Msg>)
    ensures |DumpAll(messages)| == PlaceOf(messages, |messages|)
    ensures forall k: nat :: k < |messages| ==> SavedAt(messages, DumpAll(messages), k)
  {
    if messages != [] {
      var n := |messages| - 1;
      var front, last := messages[..n], messages[n];
      SavedTells(front);
      assert messages == front + [last];
      forall k: nat | k < |messages|
        ensures SavedAt(messages, DumpAll(messages), k)
      {
        PlaceSame(front, last, k);
        if k < n {
          SavedBefore(front, last, DumpAll(front), DumpOne(last), k);
        } else {
          SavedLast(front, last, DumpAll(front));
        }
      }
      PlaceSame(front, last, n);
      hide SavedAt;
    }
  }

  lemma SavedBefore(front: seq<Msg>, last: Msg, items: seq<Item>, more: seq<Item>, k: nat)
    requires k < |front| && SavedAt(front, items, k)
    ensures SavedAt(front + [last], items + more, k)
  {
    PlaceSame(front, last, k);
    hide SavedAs, PlaceOf;
  }

  lemma SavedLast(front: seq<Msg>, last: Msg, items: seq<Item>)
    requires |items| == PlaceOf(front, |front|)
    ensures SavedAt(front + [last], items + DumpOne(last), |front|)
  {
    PlaceSame(front, last, |front|);
    if last.content.Parts? {
      var at := PartsTell(last.content.parts);
    }
    hide PlaceOf, SavedParts, UnmarkedParts;
  }
}
