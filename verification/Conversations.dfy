/** Which conversation a session is in (astrbot/core/conversation_mgr.py): a cache of selections in front
    of a persisted table of them, and the table of conversations. An operation is a task that runs in
    stretches from await to await; what an awaited call does to a table is a step of its own, and so is its
    raising or the cancellation of the task there. An empty id counts as no id, as in Python. */
module Conversations {
  import opened Wrappers

  type Session = string
  type Cid = string

  function Lookup(m: map<Session, Cid>, s: Session): Option<Cid> { if s in m then Some(m[s]) else None }

  predicate Given(cid: Option<Cid>) { cid.Some? && cid.value != "" }

  // ----- one session: its cache entry, its persisted selection, its tasks

  datatype Pair = Pair(cached: Option<Cid>, stored: Option<Cid>)

  /** Where a task stands. A delete that looks up the current conversation remembers its target. */
  datatype Task =
    | Creating(cid: Cid)                                            // the conversation is being created
    | Created(cid: Cid)
    | Putting(cid: Cid)                                             // cached, the selection is being stored
    | Reading(target: Option<Cid>)                                  // the stored selection is being read
    | HasRead(value: Option<Cid>, target: Option<Cid>)
    | Deleting(cid: Cid)                                            // the conversation is being deleted
    | HasDeleted(cid: Cid)
    | DeletingAll                                                   // the session's conversations are
    | HasDeletedAll
    | Removing                                                      // uncached, the selection is being removed
    | Done

  datatype Op = New(cid: Cid) | Switch(cid: Cid) | Get | Delete(named: Option<Cid>) | DeleteAll

  /** Get the current conversation, up to the first await; a delete goes on at once with a cached one. */
  function Current(p: Pair, target: Option<Cid>): (Pair, Task) {
    if !Given(p.cached) then (p, Reading(target))
    else if target == p.cached then (p.(cached := None), Removing)
    else (p, Done)
  }

  /** An operation up to its first await. */
  function Begun(p: Pair, op: Op): (Pair, Task) {
    match op
    case New(cid) => (p, Creating(cid))
    case Switch(cid) => (p.(cached := Some(cid)), Putting(cid))
    case Get => Current(p, None)
    case Delete(named) =>
      var target := if Given(named) then named else p.cached;
      if Given(target) then (p, Deleting(target.value)) else (p, Done)
    case DeleteAll => (p, DeletingAll)
  }

  /** The next step of a task: an awaited call takes effect, or the stretch behind it runs. */
  function Advanced(p: Pair, task: Task): (Pair, Task) {
    match task
    case Creating(cid) => (p, Created(cid))
    case Created(cid) => (p.(cached := Some(cid)), Putting(cid))
    case Putting(cid) => (p.(stored := Some(cid)), Done)
    case Reading(target) => (p, HasRead(p.stored, target))
    case HasRead(value, target) =>
      if Given(value) && value == target then (p.(cached := None), Removing)
      else if Given(value) then (p.(cached := value), Done)
      else (p, Done)
    case Deleting(cid) => (p, HasDeleted(cid))
    case HasDeleted(cid) => Current(p, Some(cid))
    case DeletingAll => (p, HasDeletedAll)
    case HasDeletedAll => (p.(cached := None), Removing)
    case Removing => (p.(stored := None), Done)
    case Done => (p, Done)
  }

  /** What a step does to the table of conversations, which maps each to its owner. */
  function OwnersAfter(owner: map<Cid, Session>, s: Session, task: Task): map<Cid, Session> {
    match task
    case Creating(cid) => owner[cid := s]
    case Deleting(cid) => owner - {cid}
    case DeletingAll => map c | c in owner && owner[c] != s :: owner[c]
    case _ => owner
  }

  /** A conversation is there afterwards if it has just been created, or was there and is neither the one
      deleted nor one of the session's when all of those are; it is the session's or whoever's it was. */
  ghost predicate OwnersAre(before: map<Cid, Session>, s: Session, task: Task, owner: map<Cid, Session>) {
    forall c ::
      && (c in owner <==> task == Creating(c) || (c in before && task != Deleting(c) && !(task.DeletingAll? && before[c] == s)))
      && (c in owner ==> owner[c] == if task == Creating(c) then s else before[c])
  }

  /** What a lookup answers once it is through. */
  function Answer(p: Pair): Option<Cid> { if Given(p.cached) then p.cached else p.stored }

  class ConversationManager {
    var sessionConversations: map<Session, Cid>
    var selections: map<Session, Cid>
    var conversations: map<Cid, Session>

    function View(s: Session): Pair
      reads this
    {
      Pair(Lookup(sessionConversations, s), Lookup(selections, s))
    }

    /** A new process: the cache is empty, the tables are what they were. */
    constructor (selections: map<Session, Cid>, conversations: map<Cid, Session>)
      ensures forall s :: View(s) == Pair(None, Lookup(selections, s))
      ensures this.conversations == conversations
    {
      sessionConversations := map[];
      this.selections, this.conversations := selections, conversations;
    }

    method NewConversation(s: Session, newId: Cid) returns (task: Task)
      ensures (View(s), task) == Begun(View(s), New(newId))
    {
      task := Creating(newId);
    }

    method SwitchConversation(s: Session, cid: Cid) returns (task: Task)
      modifies this`sessionConversations
      ensures (View(s), task) == Begun(old(View(s)), Switch(cid))
      ensures forall r :: r != s ==> View(r) == old(View(r))
    {
      sessionConversations := sessionConversations[s := cid];
      task := Putting(cid);
    }

    method GetCurrConversationId(s: Session) returns (ret: Option<Cid>, task: Task)
      ensures (View(s), task) == Begun(View(s), Get)
      ensures task == Done ==> ret == Answer(View(s))
      ensures s in sessionConversations && sessionConversations[s] != "" ==> task == Done && ret == Some(sessionConversations[s])
      ensures s !in sessionConversations || sessionConversations[s] == "" ==> task == Reading(None)
    {
      ret := Lookup(sessionConversations, s);
      if Given(ret) {
        return ret, Done;
      }
      return None, Reading(None);
    }

    method DeleteConversation(s: Session, cid: Option<Cid>) returns (task: Task)
      ensures (View(s), task) == Begun(View(s), Delete(cid))
      ensures cid.Some? && cid.value != "" ==> task == Deleting(cid.value)
      ensures (cid.None? || cid.value == "") && s in sessionConversations && sessionConversations[s] != "" ==>
        task == Deleting(sessionConversations[s])
      ensures (cid.None? || cid.value == "") && (s !in sessionConversations || sessionConversations[s] == "") ==> task == Done
    {
      var target := cid;
      if !Given(target) {
        target := Lookup(sessionConversations, s);
      }
      task := if Given(target) then Deleting(target.value) else Done;
    }

    method DeleteConversationsByUserId(s: Session) returns (task: Task)
      ensures (View(s), task) == Begun(View(s), DeleteAll)
    {
      task := DeletingAll;
    }

    /** The next step of a task; ret is what a lookup that is through answers. */
    method Resume(s: Session, task: Task) returns (ret: Option<Cid>, next: Task)
      modifies this
      ensures (View(s), next) == Advanced(old(View(s)), task)
      ensures forall r :: r != s ==> View(r) == old(View(r))
      ensures conversations == OwnersAfter(old(conversations), s, task) && OwnersAre(old(conversations), s, task, conversations)
      ensures task.HasRead? ==> ret == task.value
    {
      ret, next := None, Done;
      match task
      case Creating(cid) =>
        conversations := conversations[cid := s];
        next := Created(cid);
      case Created(cid) =>
        sessionConversations := sessionConversations[s := cid];
        next := Putting(cid);
      case Putting(cid) =>
        selections := selections[s := cid];
      case Reading(target) =>
        next := HasRead(Lookup(selections, s), target);
      case HasRead(value, target) =>
        ret := value;
        if Given(ret) {
          sessionConversations := sessionConversations[s := ret.value];
        }
        if target.Some? && ret == target && Given(ret) {
          sessionConversations := sessionConversations - {s};
          next := Removing;
        }
      case Deleting(cid) =>
        conversations := conversations - {cid};
        next := HasDeleted(cid);
      case HasDeleted(cid) =>
        var current := Lookup(sessionConversations, s);
        if !Given(current) {
          next := Reading(Some(cid));
        } else if current == Some(cid) {
          sessionConversations := sessionConversations - {s};
          next := Removing;
        }
      case DeletingAll =>
        conversations := map c | c in conversations && conversations[c] != s :: conversations[c];
        next := HasDeletedAll;
      case HasDeletedAll =>
        sessionConversations := sessionConversations - {s};
        next := Removing;
      case Removing =>
        selections := selections - {s};
      case Done =>
    }
  }

  // ----- runs of one session's tasks

  datatype Life = Life(pair: Pair, tasks: seq<Task>)

  /** Fail: what a task awaits raises, or the task is cancelled there. A restart ends all tasks. */
  datatype Event = Start(op: Op) | Go(i: nat) | Fail(i: nat) | Restart

  predicate Enabled(l: Life, e: Event) { e.Go? || e.Fail? ==> e.i < |l.tasks| && !l.tasks[e.i].Done? }

  function StepOn(l: Life, e: Event): Life {
    if !Enabled(l, e) then l
    else match e
      case Start(op) => var (p, task) := Begun(l.pair, op); Life(p, l.tasks + [task])
      case Go(i) => var (p, task) := Advanced(l.pair, l.tasks[i]); Life(p, l.tasks[i := task])
      case Fail(i) => l.(tasks := l.tasks[i := Done])
      case Restart => Life(Pair(None, l.pair.stored), seq(|l.tasks|, _ => Done))
  }

  /** After the first n events of a process whose session's stored selection is given. */
  function LifeAt(stored: Option<Cid>, events: seq<Event>, n: nat): Life
    requires n <= |events|
  {
    if n == 0 then Life(Pair(None, stored), []) else StepOn(LifeAt(stored, events, n - 1), events[n - 1])
  }

  ghost predicate Possible(stored: Option<Cid>, events: seq<Event>) {
    forall n :: 0 <= n < |events| ==> PossibleAt(stored, events, n)
  }

  ghost predicate PossibleAt(stored: Option<Cid>, events: seq<Event>, n: nat)
    requires n < |events|
  {
    Enabled(LifeAt(stored, events, n), events[n])
  }

  lemma OneStep(stored: Option<Cid>, events: seq<Event>, n: nat)
    requires Possible(stored, events) && n < |events|
    ensures Enabled(LifeAt(stored, events, n), events[n])
    ensures LifeAt(stored, events, n + 1) == StepOn(LifeAt(stored, events, n), events[n])
  {
    assert PossibleAt(stored, events, n);
  }

  predicate Quiet(l: Life) { forall i :: 0 <= i < |l.tasks| ==> l.tasks[i].Done? }

  /** Where the run ends. */
  function End(stored: Option<Cid>, events: seq<Event>): Life { LifeAt(stored, events, |events|) }

  // ----- what a step does to cache and store

  /** What the step puts into the cache. */
  function Puts(l: Life, e: Event): Option<Cid> {
    match e
    case Start(Switch(cid)) => Some(cid)
    case Go(i) =>
      if i >= |l.tasks| then None
      else (match l.tasks[i]
            case Created(cid) => Some(cid)
            case HasRead(value, target) => if Given(value) && value != target then value else None
            case _ => None)
    case _ => None
  }

  predicate Drops(l: Life, e: Event) {
    match e
    case Restart => true
    case Go(i) =>
      i < |l.tasks| &&
      (match l.tasks[i]
       case HasRead(value, target) => Given(value) && value == target
       case HasDeleted(cid) => cid != "" && l.pair.cached == Some(cid)
       case HasDeletedAll => true
       case _ => false)
    case _ => false
  }

  predicate TouchesCache(l: Life, e: Event) { Puts(l, e).Some? || Drops(l, e) }

  predicate WritesStore(l: Life, e: Event) { e.Go? && e.i < |l.tasks| && (l.tasks[e.i].Putting? || l.tasks[e.i].Removing?) }

  predicate IsOf(e: Event, i: nat) { e == Go(i) || e == Fail(i) }

  function TaskOf(l: Life, e: Event): nat { if e.Go? || e.Fail? then e.i else |l.tasks| }

  /** The step sets the cache to what its task has read; otherwise it goes on to store it. */
  predicate ByReading(l: Life, e: Event) { e.Go? && e.i < |l.tasks| && l.tasks[e.i].HasRead? }

  lemma StepTells(l: Life, e: Event)
    requires Enabled(l, e)
    ensures var next := StepOn(l, e);
      && next.pair.cached == (if TouchesCache(l, e) then Puts(l, e) else l.pair.cached)
      && (!WritesStore(l, e) ==> next.pair.stored == l.pair.stored)
      && (WritesStore(l, e) ==> next.pair.stored == if l.tasks[e.i].Putting? then Some(l.tasks[e.i].cid) else None)
  {
  }

  lemma StepMoves(l: Life, e: Event, i: nat)
    requires Enabled(l, e)
    ensures var next := StepOn(l, e);
      && |l.tasks| <= |next.tasks|
      && (i < |l.tasks| && !IsOf(e, i) && !e.Restart? ==> next.tasks[i] == l.tasks[i])
      && (i < |l.tasks| && l.tasks[i].Done? ==> next.tasks[i].Done? && !IsOf(e, i))
      && (Puts(l, e).Some? && i == TaskOf(l, e) ==>
            i < |next.tasks| && next.tasks[i] == if ByReading(l, e) then Done else Putting(Puts(l, e).value))
      && (i < |l.tasks| && e == Go(i) && l.tasks[i].Putting? ==> next.tasks[i].Done? && next.pair.stored == Some(l.tasks[i].cid))
      && (i < |l.tasks| && e == Fail(i) ==> next.tasks[i].Done?)
      && (i < |next.tasks| && next.tasks[i].HasRead? && (i >= |l.tasks| || IsOf(e, i)) ==>
            i < |l.tasks| && e == Go(i) && next.tasks[i].value == l.pair.stored == next.pair.stored)
      && (i < |next.tasks| && (next.tasks[i].Putting? || next.tasks[i].Removing?) && (i >= |l.tasks| || IsOf(e, i)) ==>
            TouchesCache(l, e) && TaskOf(l, e) == i)
      && (e.Restart? && i < |next.tasks| ==> next.tasks[i].Done?)
  {
  }

  // ----- when cache and store disagree

  ghost predicate TouchesAt(stored: Option<Cid>, events: seq<Event>, k: nat)
    requires k < |events|
  {
    TouchesCache(LifeAt(stored, events, k), events[k])
  }

  ghost predicate WritesAt(stored: Option<Cid>, events: seq<Event>, k: nat)
    requires k < |events|
  {
    WritesStore(LifeAt(stored, events, k), events[k])
  }

  function PutsAt(stored: Option<Cid>, events: seq<Event>, k: nat): Option<Cid>
    requires k < |events|
  {
    Puts(LifeAt(stored, events, k), events[k])
  }

  function TaskAt(stored: Option<Cid>, events: seq<Event>, k: nat): nat
    requires k < |events|
  {
    TaskOf(LifeAt(stored, events, k), events[k])
  }

  predicate ByReadingAt(stored: Option<Cid>, events: seq<Event>, k: nat)
    requires k < |events|
  {
    ByReading(LifeAt(stored, events, k), events[k])
  }

  /** Step p is the last to set or drop the cache. */
  ghost predicate LastTouch(stored: Option<Cid>, events: seq<Event>, p: nat) {
    p < |events| && TouchesAt(stored, events, p) && forall k :: p < k < |events| ==> !TouchesAt(stored, events, k)
  }

  /** Behind p, a is the task's next step. */
  ghost predicate NextOf(events: seq<Event>, i: nat, p: nat, a: nat) {
    p < a < |events| && IsOf(events[a], i) && forall k :: p < k < a ==> !IsOf(events[k], i)
  }

  /** Before p, a is the task's last step. */
  ghost predicate LastOf(events: seq<Event>, i: nat, a: nat, p: nat)
    requires p <= |events|
  {
    a < p && IsOf(events[a], i) && forall k :: a < k < p ==> !IsOf(events[k], i)
  }

  /** At a the task that set the cache at p accesses the stored selection: it has read it before, or it
      stores what it put into the cache. */
  ghost predicate Accesses(stored: Option<Cid>, events: seq<Event>, p: nat, a: nat)
    requires p < |events|
  {
    var i := TaskAt(stored, events, p);
    a < |events| && events[a] == Go(i) && if ByReadingAt(stored, events, p) then LastOf(events, i, a, p) else NextOf(events, i, p, a)
  }

  /** Behind a, another task than i writes the stored selection last, and not with that value. */
  ghost predicate Overwritten(stored: Option<Cid>, events: seq<Event>, i: nat, a: nat, value: Option<Cid>) {
    exists x :: a < x < |events| && Overwrites(stored, events, i, value, x)
  }

  ghost predicate Overwrites(stored: Option<Cid>, events: seq<Event>, i: nat, value: Option<Cid>, x: nat)
    requires x < |events|
  {
    && WritesAt(stored, events, x) && events[x].i != i && LifeAt(stored, events, x + 1).pair.stored != value
    && forall k :: x < k < |events| ==> !WritesAt(stored, events, k)
  }

  /** The task that put a value into the cache at p fails to store it. */
  ghost predicate NeverStored(stored: Option<Cid>, events: seq<Event>, p: nat)
    requires p < |events|
  {
    && !ByReadingAt(stored, events, p)
    && exists a: nat :: NextOf(events, TaskAt(stored, events, p), p, a) && events[a] == Fail(TaskAt(stored, events, p))
  }

  ghost predicate OvertakenAt(stored: Option<Cid>, events: seq<Event>, p: nat)
    requires p < |events|
  {
    exists a: nat :: Accesses(stored, events, p, a) && Overwritten(stored, events, TaskAt(stored, events, p), a, PutsAt(stored, events, p))
  }

  ghost predicate AheadAt(stored: Option<Cid>, events: seq<Event>, p: nat)
    requires p < |events|
  {
    NeverStored(stored, events, p) && End(stored, events).pair.stored != PutsAt(stored, events, p)
  }

  ghost predicate SetLast(stored: Option<Cid>, events: seq<Event>, p: nat) {
    LastTouch(stored, events, p) && Given(PutsAt(stored, events, p))
  }

  // ----- from the last touch to the end

  lemma {:induction false} NoTouch(stored: Option<Cid>, events: seq<Event>, m: nat, n: nat)
    requires Possible(stored, events) && m <= n <= |events|
    requires forall k :: m <= k < n ==> !TouchesAt(stored, events, k)
    ensures LifeAt(stored, events, n).pair.cached == LifeAt(stored, events, m).pair.cached
  {
    if m < n {
      NoTouch(stored, events, m, n - 1);
      assert !TouchesAt(stored, events, n - 1);
      OneStep(stored, events, n - 1);
      StepTells(LifeAt(stored, events, n - 1), events[n - 1]);
      hide LifeAt, StepOn, TouchesCache, WritesStore, Puts, Enabled;
    }
  }

  lemma {:induction false} LastTouched(stored: Option<Cid>, events: seq<Event>, n: nat) returns (p: nat)
    requires n <= |events| && exists k :: 0 <= k < n && TouchesAt(stored, events, k)
    ensures p < n && TouchesAt(stored, events, p) && forall k :: p < k < n ==> !TouchesAt(stored, events, k)
  {
    hide TouchesAt;
    if TouchesAt(stored, events, n - 1) {
      p := n - 1;
    } else {
      p := LastTouched(stored, events, n - 1);
    }
  }

  lemma TouchedIs(stored: Option<Cid>, events: seq<Event>, p: nat)
    requires Possible(stored, events) && LastTouch(stored, events, p)
    ensures End(stored, events).pair.cached == PutsAt(stored, events, p)
  {
    OneStep(stored, events, p);
    StepTells(LifeAt(stored, events, p), events[p]);
    hide LifeAt, StepOn, TouchesCache, WritesStore, Puts, Enabled;
    NoTouch(stored, events, p + 1, |events|);
  }

  /** The cache holds a value just if the last step that touched it has set it. */
  lemma CachedExactly(stored: Option<Cid>, events: seq<Event>)
    requires Possible(stored, events)
    ensures Given(End(stored, events).pair.cached) <==> exists p: nat :: SetLast(stored, events, p)
    ensures forall p: nat :: LastTouch(stored, events, p) ==> End(stored, events).pair.cached == PutsAt(stored, events, p)
  {
    forall p: nat | LastTouch(stored, events, p)
      ensures End(stored, events).pair.cached == PutsAt(stored, events, p)
    {
      TouchedIs(stored, events, p);
    }
    if k :| 0 <= k < |events| && TouchesAt(stored, events, k) {
      hide TouchesAt, PutsAt, LifeAt;
      var p := LastTouched(stored, events, |events|);
      assert LastTouch(stored, events, p);
      assert SetLast(stored, events, p) <==> Given(PutsAt(stored, events, p));
    } else {
      NoTouch(stored, events, 0, |events|);
    }
  }

  lemma {:induction false} NoWrite(stored: Option<Cid>, events: seq<Event>, m: nat, n: nat)
    requires Possible(stored, events) && m <= n <= |events|
    requires forall k :: m <= k < n ==> !WritesAt(stored, events, k)
    ensures LifeAt(stored, events, n).pair.stored == LifeAt(stored, events, m).pair.stored
  {
    if m < n {
      NoWrite(stored, events, m, n - 1);
      assert !WritesAt(stored, events, n - 1);
      OneStep(stored, events, n - 1);
      StepTells(LifeAt(stored, events, n - 1), events[n - 1]);
      hide LifeAt, StepOn, TouchesCache, WritesStore, Puts, Enabled;
    }
  }

  lemma {:induction false} LastWritten(stored: Option<Cid>, events: seq<Event>, m: nat, n: nat) returns (x: nat)
    requires m <= n <= |events| && exists k :: m <= k < n && WritesAt(stored, events, k)
    ensures m <= x < n && WritesAt(stored, events, x) && forall k :: x < k < n ==> !WritesAt(stored, events, k)
  {
    hide WritesAt;
    if WritesAt(stored, events, n - 1) {
      x := n - 1;
    } else {
      x := LastWritten(stored, events, m, n - 1);
    }
  }

  /** What is stored in the end is not the value a task accessed at a if and only if that is overwritten. */
  lemma OverwrittenExactly(stored: Option<Cid>, events: seq<Event>, i: nat, a: nat, value: Option<Cid>)
    requires Possible(stored, events) && a < |events| && LifeAt(stored, events, a + 1).pair.stored == value
    requires forall k :: a < k < |events| && WritesAt(stored, events, k) ==> events[k].i != i
    ensures End(stored, events).pair.stored != value <==> Overwritten(stored, events, i, a, value)
  {
    hide WritesAt, LifeAt;
    if k :| a + 1 <= k < |events| && WritesAt(stored, events, k) {
      var x := LastWritten(stored, events, a + 1, |events|);
      NoWrite(stored, events, x + 1, |events|);
      if y :| a < y < |events| && Overwrites(stored, events, i, value, y) {
        assert x == y;
      }
      assert End(stored, events).pair.stored != value ==> Overwrites(stored, events, i, value, x);
    } else {
      NoWrite(stored, events, a + 1, |events|);
    }
  }

  // ----- the task that set the cache

  lemma {:induction false} TaskKept(stored: Option<Cid>, events: seq<Event>, i: nat, m: nat, n: nat)
    requires Possible(stored, events) && m <= n <= |events| && i < |LifeAt(stored, events, m).tasks|
    requires forall k :: m <= k < n ==> !IsOf(events[k], i) && !events[k].Restart?
    ensures i < |LifeAt(stored, events, n).tasks| && LifeAt(stored, events, n).tasks[i] == LifeAt(stored, events, m).tasks[i]
  {
    hide *;
    if m < n {
      TaskKept(stored, events, i, m, n - 1);
      OneStep(stored, events, n - 1);
      StepMoves(LifeAt(stored, events, n - 1), events[n - 1], i);
    }
  }

  /** A task that is through takes no further step. */
  lemma {:induction false} DoneStays(stored: Option<Cid>, events: seq<Event>, i: nat, m: nat, n: nat)
    requires Possible(stored, events) && m <= n <= |events|
    requires i < |LifeAt(stored, events, m).tasks| && LifeAt(stored, events, m).tasks[i].Done?
    ensures i < |LifeAt(stored, events, n).tasks| && LifeAt(stored, events, n).tasks[i].Done?
    ensures forall k :: m <= k < n ==> !IsOf(events[k], i)
  {
    hide *;
    if m < n {
      DoneStays(stored, events, i, m, n - 1);
      OneStep(stored, events, n - 1);
      StepMoves(LifeAt(stored, events, n - 1), events[n - 1], i);
    }
  }

  lemma {:induction false} FirstStepOf(events: seq<Event>, i: nat, p: nat, n: nat) returns (a: nat)
    requires p < n <= |events| && exists k :: p < k < n && IsOf(events[k], i)
    ensures p < a < n && NextOf(events, i, p, a)
    decreases n - p
  {
    if IsOf(events[p + 1], i) {
      a := p + 1;
    } else {
      a := FirstStepOf(events, i, p + 1, n);
    }
  }

  /** What a task has read was stored when it took its last step. */
  lemma {:induction false} ReadThen(stored: Option<Cid>, events: seq<Event>, i: nat, n: nat) returns (a: nat)
    requires Possible(stored, events) && n <= |events|
    requires i < |LifeAt(stored, events, n).tasks| && LifeAt(stored, events, n).tasks[i].HasRead?
    ensures a < n && LastOf(events, i, a, n) && events[a] == Go(i)
    ensures LifeAt(stored, events, a + 1).pair.stored == LifeAt(stored, events, n).tasks[i].value
  {
    hide StepOn, Enabled, Puts, ByReading, TaskOf, TouchesCache;
    assert n > 0;
    hide LifeAt;
    OneStep(stored, events, n - 1);
    StepMoves(LifeAt(stored, events, n - 1), events[n - 1], i);
    if i >= |LifeAt(stored, events, n - 1).tasks| || IsOf(events[n - 1], i) {
      a := n - 1;
    } else {
      a := ReadThen(stored, events, i, n - 1);
    }
  }

  lemma TouchNoRestart(stored: Option<Cid>, events: seq<Event>, p: nat)
    requires LastTouch(stored, events, p)
    ensures forall k :: p < k < |events| ==> !events[k].Restart?
  {
    forall k | p < k < |events|
      ensures !events[k].Restart?
    {
      assert !TouchesAt(stored, events, k);
      hide LifeAt;
    }
  }

  /** The value put into the cache by a task that has read it. */
  lemma ReaderAccesses(stored: Option<Cid>, events: seq<Event>, p: nat) returns (a: nat)
    requires Possible(stored, events) && SetLast(stored, events, p) && ByReadingAt(stored, events, p)
    ensures Accesses(stored, events, p, a) && LifeAt(stored, events, a + 1).pair.stored == PutsAt(stored, events, p)
    ensures var i := TaskAt(stored, events, p); forall k :: a < k < |events| && WritesAt(stored, events, k) ==> events[k].i != i
  {
    var i := TaskAt(stored, events, p);
    OneStep(stored, events, p);
    StepMoves(LifeAt(stored, events, p), events[p], i);
    hide LifeAt, StepOn, Enabled;
    a := ReadThen(stored, events, i, p);
    DoneStays(stored, events, i, p + 1, |events|);
    forall k | a < k < |events| && WritesAt(stored, events, k)
      ensures events[k].i != i
    {
      assert k != p;
    }
  }

  lemma PutsPending(stored: Option<Cid>, events: seq<Event>, p: nat)
    requires Possible(stored, events) && SetLast(stored, events, p) && !ByReadingAt(stored, events, p)
    ensures PutsAt(stored, events, p).Some? && LastTouch(stored, events, p)
    ensures var (i, l) := (TaskAt(stored, events, p), LifeAt(stored, events, p + 1));
      i < |l.tasks| && l.tasks[i] == Putting(PutsAt(stored, events, p).value)
  {
    OneStep(stored, events, p);
    StepMoves(LifeAt(stored, events, p), events[p], TaskAt(stored, events, p));
    hide LifeAt, StepOn;
  }

  /** The value put into the cache by a task that goes on to store it: its next step stores it or fails. */
  lemma WriterAccesses(stored: Option<Cid>, events: seq<Event>, p: nat) returns (a: nat)
    requires Possible(stored, events) && Quiet(End(stored, events)) && SetLast(stored, events, p) && !ByReadingAt(stored, events, p)
    ensures NextOf(events, TaskAt(stored, events, p), p, a)
    ensures events[a].Go? ==> LifeAt(stored, events, a + 1).pair.stored == PutsAt(stored, events, p)
    ensures var i := TaskAt(stored, events, p); forall k :: a < k < |events| && WritesAt(stored, events, k) ==> events[k].i != i
  {
    var i := TaskAt(stored, events, p);
    PutsPending(stored, events, p);
    TouchNoRestart(stored, events, p);
    hide LifeAt, StepOn, Enabled, TaskAt, PutsAt, ByReadingAt, SetLast;
    if forall k :: p < k < |events| ==> !IsOf(events[k], i) {
      TaskKept(stored, events, i, p + 1, |events|);
      assert false;
    }
    a := FirstStepOf(events, i, p, |events|);
    TaskKept(stored, events, i, p + 1, a);
    OneStep(stored, events, a);
    StepMoves(LifeAt(stored, events, a), events[a], i);
    DoneStays(stored, events, i, a + 1, |events|);
  }

  /** On every interleaving, whatever raises or is cancelled on the way, once all tasks are through: a lookup
      answers something other than what is stored if and only if the last step that touched the cache put a
      value there, and either another task's write came behind the access of the task that put it, the last
      of all writes and with another value; or that task failed to store the value, and it is not stored. */
  lemma StaleExactly(stored: Option<Cid>, events: seq<Event>)
    requires Possible(stored, events) && Quiet(End(stored, events))
    ensures Answer(End(stored, events).pair) != End(stored, events).pair.stored <==>
            exists p: nat :: SetLast(stored, events, p) && (OvertakenAt(stored, events, p) || AheadAt(stored, events, p))
  {
    CachedExactly(stored, events);
    hide LifeAt, PutsAt, End, Possible, Quiet, LastTouch;
    forall p: nat | SetLast(stored, events, p)
      ensures OvertakenAt(stored, events, p) || AheadAt(stored, events, p) <==>
              End(stored, events).pair.stored != PutsAt(stored, events, p)
    {
      hide SetLast;
      if ByReadingAt(stored, events, p) {
        ReaderStale(stored, events, p);
      } else {
        WriterStale(stored, events, p);
      }
    }
  }

  lemma ReaderStale(stored: Option<Cid>, events: seq<Event>, p: nat)
    requires Possible(stored, events) && SetLast(stored, events, p) && ByReadingAt(stored, events, p)
    ensures OvertakenAt(stored, events, p) || AheadAt(stored, events, p) <==> End(stored, events).pair.stored != PutsAt(stored, events, p)
  {
    var a := ReaderAccesses(stored, events, p);
    var i := TaskAt(stored, events, p);
    OverwrittenExactly(stored, events, i, a, PutsAt(stored, events, p));
    hide LifeAt, PutsAt, TaskAt, WritesAt, Overwritten, End;
    forall b: nat | Accesses(stored, events, p, b)
      ensures b == a
    {
    }
  }

  lemma WriterStale(stored: Option<Cid>, events: seq<Event>, p: nat)
    requires Possible(stored, events) && Quiet(End(stored, events)) && SetLast(stored, events, p) && !ByReadingAt(stored, events, p)
    ensures OvertakenAt(stored, events, p) || AheadAt(stored, events, p) <==> End(stored, events).pair.stored != PutsAt(stored, events, p)
  {
    var a := WriterAccesses(stored, events, p);
    var i := TaskAt(stored, events, p);
    if events[a].Go? {
      OverwrittenExactly(stored, events, i, a, PutsAt(stored, events, p));
    }
    hide LifeAt, PutsAt, TaskAt, WritesAt, Overwritten, End;
    forall b: nat | NextOf(events, i, p, b)
      ensures b == a
    {
    }
    assert NeverStored(stored, events, p) <==> events[a] == Fail(i);
    assert events[a].Go? ==> Accesses(stored, events, p, a);
  }

  /** Where no step fails, a stale cache means that another task wrote the stored selection behind the access. */
  lemma StaleMeansOvertaken(stored: Option<Cid>, events: seq<Event>) returns (p: nat, a: nat, x: nat)
    requires Possible(stored, events) && Quiet(End(stored, events)) && forall k :: 0 <= k < |events| ==> !events[k].Fail?
    requires Answer(End(stored, events).pair) != End(stored, events).pair.stored
    ensures SetLast(stored, events, p) && Accesses(stored, events, p, a) && a < x < |events|
    ensures Overwrites(stored, events, TaskAt(stored, events, p), PutsAt(stored, events, p), x)
  {
    StaleExactly(stored, events);
    hide LifeAt, End;
    p :| SetLast(stored, events, p) && (OvertakenAt(stored, events, p) || AheadAt(stored, events, p));
    a :| Accesses(stored, events, p, a) && Overwritten(stored, events, TaskAt(stored, events, p), a, PutsAt(stored, events, p));
    x :| a < x < |events| && Overwrites(stored, events, TaskAt(stored, events, p), PutsAt(stored, events, p), x);
  }

  /** A run that shows it: a lookup reads the old selection, a switch goes through, and the lookup then
      caches what it read, for good. */
  lemma LookupOvertaken()
    ensures var events := [Start(Get), Go(0), Start(Switch("b")), Go(1), Go(0)];
      && Possible(Some("a"), events) && Quiet(End(Some("a"), events))
      && End(Some("a"), events).pair == Pair(Some("a"), Some("b"))
  {
    var first, events := Some("a"), [Start(Get), Go(0), Start(Switch("b")), Go(1), Go(0)];
    assert LifeAt(first, events, 1) == Life(Pair(None, first), [Reading(None)]);
    assert LifeAt(first, events, 2) == Life(Pair(None, first), [HasRead(first, None)]);
    assert LifeAt(first, events, 3) == Life(Pair(Some("b"), first), [HasRead(first, None), Putting("b")]);
    assert LifeAt(first, events, 4) == Life(Pair(Some("b"), Some("b")), [HasRead(first, None), Done]);
    assert LifeAt(first, events, 5) == Life(Pair(Some("a"), Some("b")), [Done, Done]);
    forall n | 0 <= n < |events|
      ensures PossibleAt(first, events, n)
    {
    }
  }

  /** And one operation alone is enough if it fails to store what it has cached. */
  lemma FailureShows()
    ensures var events := [Start(Switch("b")), Fail(0)];
      && Possible(Some("a"), events) && Quiet(End(Some("a"), events))
      && End(Some("a"), events).pair == Pair(Some("b"), Some("a"))
  {
    var first, events := Some("a"), [Start(Switch("b")), Fail(0)];
    assert LifeAt(first, events, 1) == Life(Pair(Some("b"), first), [Putting("b")]);
    assert LifeAt(first, events, 2) == Life(Pair(Some("b"), first), [Done]);
    forall n | 0 <= n < |events|
      ensures PossibleAt(first, events, n)
    {
    }
  }

  // ----- one operation at a time

  /** No operation starts while another one is under way. */
  ghost predicate OneAtATime(stored: Option<Cid>, events: seq<Event>) {
    forall n :: 0 <= n < |events| ==> AloneAt(stored, events, n)
  }

  ghost predicate AloneAt(stored: Option<Cid>, events: seq<Event>, n: nat)
    requires n < |events|
  {
    events[n].Start? ==> Quiet(LifeAt(stored, events, n))
  }

  ghost predicate OnlyLast(l: Life) { forall i :: 0 <= i < |l.tasks| - 1 ==> l.tasks[i].Done? }

  lemma StepOnlyLast(l: Life, e: Event)
    requires Enabled(l, e) && OnlyLast(l) && (e.Start? ==> Quiet(l))
    ensures OnlyLast(StepOn(l, e))
  {
    hide Begun, Advanced;
  }

  lemma {:induction false} OnlyOne(stored: Option<Cid>, events: seq<Event>, n: nat)
    requires Possible(stored, events) && OneAtATime(stored, events) && n <= |events|
    ensures OnlyLast(LifeAt(stored, events, n))
  {
    if n > 0 {
      OnlyOne(stored, events, n - 1);
      OneStep(stored, events, n - 1);
      assert AloneAt(stored, events, n - 1);
      StepOnlyLast(LifeAt(stored, events, n - 1), events[n - 1]);
    }
  }

  /** A task that is about to write the stored selection touched the cache in its last step. */
  lemma {:induction false} PendingTouched(stored: Option<Cid>, events: seq<Event>, j: nat, n: nat) returns (q: nat)
    requires Possible(stored, events) && n <= |events| && j < |LifeAt(stored, events, n).tasks|
    requires LifeAt(stored, events, n).tasks[j].Putting? || LifeAt(stored, events, n).tasks[j].Removing?
    ensures q < n && TouchesAt(stored, events, q) && TaskAt(stored, events, q) == j
    ensures j < |LifeAt(stored, events, q + 1).tasks| && !LifeAt(stored, events, q + 1).tasks[j].Done?
  {
    hide StepOn, Enabled, Puts, ByReading, TaskOf, TouchesCache;
    assert n > 0;
    hide LifeAt;
    OneStep(stored, events, n - 1);
    StepMoves(LifeAt(stored, events, n - 1), events[n - 1], j);
    if j >= |LifeAt(stored, events, n - 1).tasks| || IsOf(events[n - 1], j) {
      q := n - 1;
    } else {
      q := PendingTouched(stored, events, j, n - 1);
    }
  }

  lemma {:induction false} TasksGrow(stored: Option<Cid>, events: seq<Event>, m: nat, n: nat)
    requires Possible(stored, events) && m <= n <= |events|
    ensures |LifeAt(stored, events, m).tasks| <= |LifeAt(stored, events, n).tasks|
  {
    hide *;
    if m < n {
      TasksGrow(stored, events, m, n - 1);
      OneStep(stored, events, n - 1);
      StepMoves(LifeAt(stored, events, n - 1), events[n - 1], 0);
    }
  }

  /** A task that is not through at n was not through before, once it had begun. */
  lemma UnderWay(stored: Option<Cid>, events: seq<Event>, i: nat, m: nat, n: nat)
    requires Possible(stored, events) && m <= n <= |events| && i < |LifeAt(stored, events, m).tasks|
    ensures i < |LifeAt(stored, events, n).tasks|
    ensures !LifeAt(stored, events, n).tasks[i].Done? ==> !LifeAt(stored, events, m).tasks[i].Done?
  {
    hide LifeAt;
    TasksGrow(stored, events, m, n);
    if LifeAt(stored, events, m).tasks[i].Done? {
      DoneStays(stored, events, i, m, n);
    }
  }

  /** What two tasks under way at once would be. */
  lemma NotBoth(stored: Option<Cid>, events: seq<Event>, n: nat, i: nat, j: nat)
    requires Possible(stored, events) && OneAtATime(stored, events) && n <= |events| && i != j
    requires i < |LifeAt(stored, events, n).tasks| && j < |LifeAt(stored, events, n).tasks|
    ensures LifeAt(stored, events, n).tasks[i].Done? || LifeAt(stored, events, n).tasks[j].Done?
  {
    OnlyOne(stored, events, n);
    hide LifeAt;
  }

  lemma NothingOvertakes(stored: Option<Cid>, events: seq<Event>, p: nat)
    requires Possible(stored, events) && OneAtATime(stored, events) && SetLast(stored, events, p)
    ensures !OvertakenAt(stored, events, p)
  {
    hide LifeAt, TouchesAt, Puts;
    var i := TaskAt(stored, events, p);
    forall a: nat, x: nat | Accesses(stored, events, p, a) && a < x < |events| && WritesAt(stored, events, x)
      ensures events[x].i == i
    {
      NoneBetween(stored, events, p, a, x);
    }
  }

  lemma NoneBetween(stored: Option<Cid>, events: seq<Event>, p: nat, a: nat, x: nat)
    requires Possible(stored, events) && OneAtATime(stored, events) && SetLast(stored, events, p)
    requires Accesses(stored, events, p, a) && a < x < |events| && WritesAt(stored, events, x)
    ensures events[x].i == TaskAt(stored, events, p)
  {
    var i, j := TaskAt(stored, events, p), events[x].i;
    if i != j {
      hide StepOn, LifeAt, Puts, Drops, Possible, OneAtATime;
      var q := PendingTouched(stored, events, j, x);
      OneStep(stored, events, x);
      OneStep(stored, events, p);
      assert q < p;
      if x < p {
        OneStep(stored, events, a);
        TasksGrow(stored, events, a, x);
        UnderWay(stored, events, i, x, p);
        NotBoth(stored, events, x, i, j);
      } else {
        UnderWay(stored, events, j, q + 1, p);
        UnderWay(stored, events, j, p, x);
        if events[p].Start? {
          assert AloneAt(stored, events, p) by { AloneThen(stored, events, p); }
        } else {
          NotBoth(stored, events, p, i, j);
        }
      }
      assert false;
    }
  }

  lemma AloneThen(stored: Option<Cid>, events: seq<Event>, n: nat)
    requires OneAtATime(stored, events) && n < |events|
    ensures AloneAt(stored, events, n)
  {
  }

  // ----- what is cached since the process started

  /** An operation after which the cache holds the selection, if there is one. */
  predicate Touches(op: Op) {
    match op
    case New(cid) => cid != ""
    case Switch(cid) => cid != ""
    case Get => true
    case Delete(named) => Given(named)
    case DeleteAll => false
  }

  /** Whether such an operation has started since the process did, and whether one had before the last
      operation started. */
  datatype Warmth = Warmth(now: bool, before: bool)

  /** An operation that fails does not count, unless it has cached what it then fails to store; and one that
      fails to remove the stored selection has dropped it from the cache. */
  function WarmStep(w: Warmth, l: Life, e: Event): Warmth {
    match e
    case Restart => Warmth(false, false)
    case Start(op) => Warmth(Touches(op) || w.now, w.now)
    case Go(_) => w
    case Fail(i) =>
      w.(now := if i < |l.tasks| && l.tasks[i].Putting? then l.tasks[i].cid != ""
                else if i < |l.tasks| && l.tasks[i].Removing? then false
                else w.before)
  }

  function WarmAt(stored: Option<Cid>, events: seq<Event>, n: nat): Warmth
    requires n <= |events|
  {
    if n == 0 then Warmth(false, false) else WarmStep(WarmAt(stored, events, n - 1), LifeAt(stored, events, n - 1), events[n - 1])
  }

  predicate Warm(stored: Option<Cid>, events: seq<Event>) { WarmAt(stored, events, |events|).now }

  ghost predicate Tells(p: Pair, warm: bool) {
    (Given(p.cached) ==> warm) && (warm && Given(p.stored) ==> Given(p.cached))
  }

  /** What holds while the only task stands there. */
  ghost predicate Fits(p: Pair, task: Task, w: Warmth) {
    var Warmth(warm, before) := w;
    match task
    case Creating(cid) => Tells(p, before) && warm == (before || cid != "")
    case Created(cid) => Tells(p, before) && warm == (before || cid != "")
    case Putting(cid) => p.cached == Some(cid) && (cid != "" ==> warm)
    case Reading(_) => !Given(p.cached) && warm && Tells(p, before)
    case HasRead(value, _) => !Given(p.cached) && value == p.stored && warm && Tells(p, before)
    case Deleting(_) => warm && Tells(p, before)
    case HasDeleted(_) => warm && Tells(p, before)
    case DeletingAll => warm == before && Tells(p, before)
    case HasDeletedAll => warm == before && Tells(p, before)
    case Removing => p.cached.None?
    case Done => Tells(p, warm)
  }

  function LastTask(l: Life): Task { if l.tasks == [] then Done else l.tasks[|l.tasks| - 1] }

  lemma BegunFits(p: Pair, op: Op, w: Warmth)
    requires Tells(p, w.now)
    ensures Fits(Begun(p, op).0, Begun(p, op).1, Warmth(Touches(op) || w.now, w.now))
  {
  }

  lemma AdvancedFits(p: Pair, task: Task, w: Warmth)
    requires Fits(p, task, w)
    ensures Fits(Advanced(p, task).0, Advanced(p, task).1, w)
  {
  }

  lemma DoneFits(p: Pair, w: Warmth)
    ensures Fits(p, Done, w) <==> Tells(p, w.now)
    ensures p.cached.None? ==> Tells(p, false)
  {
  }

  lemma FailedFits(l: Life, i: nat, w: Warmth)
    requires i < |l.tasks| && Fits(l.pair, l.tasks[i], w) && !l.tasks[i].Done?
    ensures Fits(l.pair, Done, WarmStep(w, l, Fail(i)))
  {
  }

  lemma FitsStep(l: Life, e: Event, w: Warmth)
    requires Enabled(l, e) && OnlyLast(l) && Fits(l.pair, LastTask(l), w) && (e.Start? ==> Quiet(l))
    ensures Fits(StepOn(l, e).pair, LastTask(StepOn(l, e)), WarmStep(w, l, e))
  {
    hide Fits, Tells, Begun, Advanced;
    DoneFits(l.pair, w);
    match e
    case Start(op) => BegunFits(l.pair, op, w);
    case Go(i) => AdvancedFits(l.pair, LastTask(l), w);
    case Fail(i) => FailedFits(l, i, w);
    case Restart => DoneFits(Pair(None, l.pair.stored), Warmth(false, false));
  }

  lemma {:induction false} FitsHolds(stored: Option<Cid>, events: seq<Event>, n: nat)
    requires Possible(stored, events) && OneAtATime(stored, events) && n <= |events|
    ensures var l := LifeAt(stored, events, n); Fits(l.pair, LastTask(l), WarmAt(stored, events, n))
  {
    hide Possible, OneAtATime, Fits, StepOn;
    if n > 0 {
      FitsHolds(stored, events, n - 1);
      OnlyOne(stored, events, n - 1);
      OneStep(stored, events, n - 1);
      AloneThen(stored, events, n - 1);
      FitsStep(LifeAt(stored, events, n - 1), events[n - 1], WarmAt(stored, events, n - 1));
      hide LifeAt;
    } else {
      DoneFits(Pair(None, stored), Warmth(false, false));
    }
  }

  /** On every run without overlap, restarts and failures included: whenever no operation is under way, a
      lookup answers what is stored, unless the last operation to touch the cache failed to store what it had
      put there; and a stored selection is cached if and only if an operation has touched it since the
      process started. */
  lemma CacheUnobservable(stored: Option<Cid>, events: seq<Event>)
    requires Possible(stored, events) && OneAtATime(stored, events) && Quiet(End(stored, events))
    ensures var p := End(stored, events).pair;
      && (Answer(p) == p.stored <==> !exists k: nat :: SetLast(stored, events, k) && AheadAt(stored, events, k))
      && (Given(p.stored) ==> (Given(p.cached) <==> Warm(stored, events)))
  {
    StaleExactly(stored, events);
    FitsHolds(stored, events, |events|);
    DoneFits(End(stored, events).pair, WarmAt(stored, events, |events|));
    hide LifeAt, WarmAt, SetLast, AheadAt, OvertakenAt, Possible, OneAtATime;
    forall k: nat | SetLast(stored, events, k)
      ensures !OvertakenAt(stored, events, k)
    {
      NothingOvertakes(stored, events, k);
    }
  }

  // ----- whole operations

  function Rank(task: Task): nat {
    match task
    case Done => 0
    case Removing => 1
    case Putting(_) => 1
    case HasRead(_, _) => 2
    case Created(_) => 2
    case HasDeletedAll => 2
    case Reading(_) => 3
    case Creating(_) => 3
    case DeletingAll => 3
    case HasDeleted(_) => 4
    case Deleting(_) => 5
  }

  lemma RankFalls(p: Pair, task: Task)
    ensures !task.Done? ==> Rank(Advanced(p, task).1) < Rank(task)
  {
  }

  /** A task that runs to its end undisturbed. */
  function Finished(p: Pair, task: Task): Pair
    decreases Rank(task)
  {
    if task.Done? then p
    else
      RankFalls(p, task);
      var (q, next) := Advanced(p, task);
      Finished(q, next)
  }

  /** After a run without overlap: deleting without naming a conversation unselects the current one if and
      only if an operation has touched it since the process started, and otherwise does nothing at all; what
      it deletes is the selected conversation unless a failure has left another in the cache. */
  lemma DeleteCurrentExactly(stored: Option<Cid>, events: seq<Event>)
    requires Possible(stored, events) && OneAtATime(stored, events) && Quiet(End(stored, events))
    requires Given(End(stored, events).pair.stored)
    ensures var p := End(stored, events).pair;
      var (q, task) := Begun(p, Delete(None));
      && (Warm(stored, events) ==> task.Deleting? && Finished(q, task) == Pair(None, None))
      && (Warm(stored, events) ==>
            (p.stored == Some(task.cid) <==> !exists k: nat :: SetLast(stored, events, k) && AheadAt(stored, events, k)))
      && (!Warm(stored, events) ==> task == Done && q == p)
  {
    CacheUnobservable(stored, events);
    var p := End(stored, events).pair;
    hide LifeAt, Warm, SetLast, AheadAt;
    if Warm(stored, events) {
      DeleteFinishes(p, p.cached.value);
    }
  }

  lemma DeleteFinishes(p: Pair, cid: Cid)
    requires p.cached == Some(cid) && cid != ""
    ensures Finished(p, Deleting(cid)) == Pair(None, None)
  {
    assert Finished(p, Deleting(cid)) == Finished(p, HasDeleted(cid)) == Finished(p.(cached := None), Removing);
    assert Finished(p.(cached := None), Removing) == Finished(Pair(None, None), Done);
  }

  /** A restart is enough to show it. */
  lemma DeleteAfterRestart()
    ensures var events := [Start(Switch("a")), Go(0), Restart];
      && Possible(None, events) && OneAtATime(None, events) && Quiet(End(None, events)) && !Warm(None, events)
      && End(None, events).pair == Pair(None, Some("a"))
      && Begun(End(None, events).pair, Delete(None)) == (Pair(None, Some("a")), Done)
  {
    var events := [Start(Switch("a")), Go(0), Restart];
    assert LifeAt(None, events, 1) == Life(Pair(Some("a"), None), [Putting("a")]);
    assert LifeAt(None, events, 2) == Life(Pair(Some("a"), Some("a")), [Done]);
    assert LifeAt(None, events, 3) == Life(Pair(None, Some("a")), [Done]);
    forall n | 0 <= n < |events|
      ensures PossibleAt(None, events, n) && AloneAt(None, events, n)
    {
    }
  }

  // ----- selections that point nowhere

  datatype State = State(cache: map<Session, Cid>, selected: map<Session, Cid>, owner: map<Cid, Session>)

  function ViewOf(st: State, s: Session): Pair { Pair(Lookup(st.cache, s), Lookup(st.selected, s)) }

  function Entry(m: map<Session, Cid>, s: Session, cid: Option<Cid>): map<Session, Cid> {
    if cid.Some? then m[s := cid.value] else m - {s}
  }

  function WithPair(st: State, s: Session, p: Pair): State {
    st.(cache := Entry(st.cache, s, p.cached), selected := Entry(st.selected, s, p.stored))
  }

  function Complete(st: State, s: Session, task: Task): State
    decreases Rank(task)
  {
    if task.Done? then st
    else
      RankFalls(ViewOf(st, s), task);
      var (p, next) := Advanced(ViewOf(st, s), task);
      Complete(WithPair(st, s, p).(owner := OwnersAfter(st.owner, s, task)), s, next)
  }

  /** An operation that runs to its end undisturbed. */
  function Whole(st: State, s: Session, op: Op): State {
    var (p, task) := Begun(ViewOf(st, s), op);
    Complete(WithPair(st, s, p), s, task)
  }

  lemma ViewWith(st: State, s: Session, p: Pair)
    ensures ViewOf(WithPair(st, s, p), s) == p
    ensures forall r :: r != s ==> ViewOf(WithPair(st, s, p), r) == ViewOf(st, r)
  {
  }

  lemma OwnersOnce(p: Pair, owner: map<Cid, Session>, s: Session, task: Task)
    ensures var next := Advanced(p, task).1;
      next.Creating? || next.Deleting? || next.DeletingAll? ==> task == next
    ensures !task.Creating? && !task.Deleting? && !task.DeletingAll? ==> OwnersAfter(owner, s, task) == owner
    ensures OwnersAfter(owner, s, Advanced(p, task).1) == owner
  {
  }

  /** Only the session's own entries change, as they would alone, and the table of conversations changes
      at most once. */
  lemma {:induction false} CompleteIs(st: State, s: Session, task: Task)
    ensures ViewOf(Complete(st, s, task), s) == Finished(ViewOf(st, s), task)
    ensures forall r :: r != s ==> ViewOf(Complete(st, s, task), r) == ViewOf(st, r)
    ensures Complete(st, s, task).owner == OwnersAfter(st.owner, s, task)
    decreases Rank(task)
  {
    hide Advanced, ViewOf, WithPair, OwnersAfter;
    if task.Done? {
      OwnersOnce(ViewOf(st, s), st.owner, s, task);
    } else {
      var (p, next) := Advanced(ViewOf(st, s), task);
      RankFalls(ViewOf(st, s), task);
      ViewWith(st, s, p);
      OwnersOnce(ViewOf(st, s), OwnersAfter(st.owner, s, task), s, task);
      var there := WithPair(st, s, p).(owner := OwnersAfter(st.owner, s, task));
      SameView(WithPair(st, s, p), there);
      CompleteIs(there, s, next);
    }
  }

  lemma SameView(st: State, other: State)
    requires st.cache == other.cache && st.selected == other.selected
    ensures forall r :: ViewOf(st, r) == ViewOf(other, r)
  {
  }

  lemma WholeIs(st: State, s: Session, op: Op)
    ensures var (p, task) := Begun(ViewOf(st, s), op);
      && ViewOf(Whole(st, s, op), s) == Finished(p, task)
      && (forall r :: r != s ==> ViewOf(Whole(st, s, op), r) == ViewOf(st, r))
      && Whole(st, s, op).owner == OwnersAfter(st.owner, s, task)
  {
    hide Complete, Finished, Begun, OwnersAfter;
    var (p, task) := Begun(ViewOf(st, s), op);
    CompleteIs(WithPair(st, s, p), s, task);
    ViewWith(st, s, p);
  }

  ghost predicate Coherent(p: Pair) { Given(p.cached) ==> p.cached == p.stored }

  /** What undisturbed operations leave behind, cache and store being coherent. */
  lemma FinishedIs(p: Pair, op: Op)
    requires Coherent(p)
    ensures var (q, task) := Begun(p, op);
      && Coherent(Finished(q, task))
      && Finished(q, task).stored ==
         (match op
          case New(cid) => Some(cid)
          case Switch(cid) => Some(cid)
          case Get => p.stored
          case Delete(named) => if task.Deleting? && p.stored == Some(task.cid) then None else p.stored
          case DeleteAll => None)
  {
    var (q, task) := Begun(p, op);
    match op
    case New(cid) => assert Finished(q, Created(cid)) == Finished(q.(cached := Some(cid)), Putting(cid)) == Pair(Some(cid), Some(cid));
    case Switch(cid) => assert Finished(q, task) == Pair(Some(cid), Some(cid));
    case Get => FinishedLookup(p, None);
    case Delete(named) =>
      if task.Deleting? {
        FinishedLookup(p, Some(task.cid));
        assert Finished(p, task) == Finished(p, HasDeleted(task.cid));
      }
    case DeleteAll => assert Finished(p, HasDeletedAll) == Finished(p.(cached := None), Removing) == Pair(None, None);
  }

  lemma FinishedLookup(p: Pair, target: Option<Cid>)
    requires Coherent(p) && (target.Some? ==> Given(target))
    ensures var (q, task) := Current(p, target);
      && Coherent(Finished(q, task))
      && Finished(q, task).stored == if target.Some? && p.stored == target then None else p.stored
  {
    if !Given(p.cached) {
      var read := HasRead(p.stored, target);
      assert Finished(p, Reading(target)) == Finished(p, read);
      var (r, next) := Advanced(p, read);
      assert Finished(p, read) == Finished(r, next);
    }
  }

  /** Every session is in a conversation that exists and is its own, or in none. */
  ghost predicate Sound(st: State) {
    "" !in st.owner && forall s :: OwnPair(ViewOf(st, s), st.owner, s)
  }

  ghost predicate OwnPair(p: Pair, owner: map<Cid, Session>, s: Session) {
    Coherent(p) && (p.stored.Some? ==> p.stored.value in owner && owner[p.stored.value] == s)
  }

  /** What keeps it so: switching to a conversation of one's own, and not deleting the conversation another
      session is in. */
  predicate Proper(st: State, s: Session, op: Op) {
    match op
    case Switch(cid) => cid in st.owner && st.owner[cid] == s
    case Delete(Some(cid)) =>
      cid in st.owner && st.owner[cid] != s ==> Lookup(st.selected, st.owner[cid]) != Some(cid)
    case _ => true
  }

  /** A task that deletes a conversation while another session is in it. */
  ghost predicate TakesAnothers(st: State, s: Session, task: Task) {
    task.Deleting? && exists r :: r != s && ViewOf(st, r).stored == Some(task.cid)
  }

  lemma OthersSound(st: State, s: Session, task: Task)
    requires Sound(st) && (task.Creating? ==> task.cid != "" && task.cid !in st.owner)
    ensures var owner := OwnersAfter(st.owner, s, task);
      && "" !in owner
      && ((forall r :: r != s ==> OwnPair(ViewOf(st, r), owner, r)) <==> !TakesAnothers(st, s, task))
  {
    var owner := OwnersAfter(st.owner, s, task);
    forall r | r != s
      ensures OwnPair(ViewOf(st, r), st.owner, r)
      ensures OwnPair(ViewOf(st, r), owner, r) <==> !(task.Deleting? && ViewOf(st, r).stored == Some(task.cid))
    {
    }
  }

  lemma OwnSound(st: State, s: Session, op: Op)
    requires Sound(st) && (op.New? ==> op.cid != "" && op.cid !in st.owner)
    ensures var (p, task) := Begun(ViewOf(st, s), op);
      OwnPair(Finished(p, task), OwnersAfter(st.owner, s, task), s) <==> op.Switch? ==> op.cid in st.owner && st.owner[op.cid] == s
  {
    assert OwnPair(ViewOf(st, s), st.owner, s);
    FinishedIs(ViewOf(st, s), op);
    hide Finished, ViewOf, Sound;
  }

  lemma ProperExactly(st: State, s: Session, op: Op)
    requires Sound(st)
    ensures var task := Begun(ViewOf(st, s), op).1;
      Proper(st, s, op) <==>
        (op.Switch? ==> op.cid in st.owner && st.owner[op.cid] == s) && !TakesAnothers(st, s, task)
  {
    assert forall r :: OwnPair(ViewOf(st, r), st.owner, r);
    if op.Delete? && Given(op.named) && op.named.value in st.owner {
      var other := st.owner[op.named.value];
      assert Proper(st, s, op) <==> !(other != s && ViewOf(st, other).stored == op.named);
    }
  }

  lemma SoundExactly(st: State, s: Session, op: Op)
    requires Sound(st) && (op.New? ==> op.cid != "" && op.cid !in st.owner)
    ensures Sound(Whole(st, s, op)) <==> Proper(st, s, op)
  {
    var (p, task) := Begun(ViewOf(st, s), op);
    WholeIs(st, s, op);
    OthersSound(st, s, task);
    OwnSound(st, s, op);
    ProperExactly(st, s, op);
    var next := Whole(st, s, op);
    hide Whole, Finished, ViewOf, Begun, Proper, OwnPair, TakesAnothers;
    assert Sound(next) <==> "" !in next.owner && forall r :: OwnPair(ViewOf(next, r), next.owner, r);
  }
}
