/** The job bot's usage counters (modules/job-bot/db.py). A row keeps the month and the day its counters are
    for; whoever reads it under another key resets them first. First each repository call runs through
    undisturbed, under any clock; then every request to the store is a step of its own. */
module UsageCounters {
  import opened Wrappers

  type UserId = int
  type Period = string

  /** A column that was never written is null and reads as 0. */
  datatype Usage = Usage(month: Period, day: Period, vacancies: Option<nat>, urgent: Option<nat>, notifications: Option<nat>)

  datatype Counter = Vacancies | Urgent | Notifications

  type Table = map<UserId, Usage>

  datatype Clock = Clock(month: Period, day: Period)

  function OrZero(n: Option<nat>): nat { if n.Some? then n.value else 0 }

  function Count(usage: Usage, c: Counter): nat {
    match c
    case Vacancies => OrZero(usage.vacancies)
    case Urgent => OrZero(usage.urgent)
    case Notifications => OrZero(usage.notifications)
  }

  function With(usage: Usage, c: Counter, n: nat): Usage {
    match c
    case Vacancies => usage.(vacancies := Some(n))
    case Urgent => usage.(urgent := Some(n))
    case Notifications => usage.(notifications := Some(n))
  }

  /** The row as it is after the reset, if one is due. */
  function Refreshed(table: Table, user: UserId, clock: Clock): Usage {
    if user !in table then Usage(clock.month, clock.day, None, None, None)
    else
      var usage := table[user];
      var monthly := if usage.month != clock.month then usage.(vacancies := Some(0), urgent := Some(0), month := clock.month) else usage;
      if usage.day != clock.day then monthly.(notifications := Some(0), day := clock.day) else monthly
  }

  function Touched(table: Table, user: UserId, clock: Clock): Table { table[user := Refreshed(table, user, clock)] }

  function Incremented(table: Table, user: UserId, c: Counter, clock: Clock): Table {
    var usage := Refreshed(table, user, clock);
    table[user := With(usage, c, Count(usage, c) + 1)]
  }

  /** The row of a call: inserted empty under the current keys, or reset where its keys are others, and left
      alone where they are the current ones. */
  ghost predicate RowIs(table: Table, user: UserId, clock: Clock, row: Usage) {
    && row.month == clock.month && row.day == clock.day
    && (user !in table ==> row.vacancies == row.urgent == row.notifications == None)
    && (user in table && table[user].month != clock.month ==> row.vacancies == row.urgent == Some(0))
    && (user in table && table[user].month == clock.month ==> row.vacancies == table[user].vacancies && row.urgent == table[user].urgent)
    && (user in table && table[user].day != clock.day ==> row.notifications == Some(0))
    && (user in table && table[user].day == clock.day ==> row.notifications == table[user].notifications)
  }

  /** The row with one counter one higher, a null one counting as 0. */
  ghost predicate OneMore(row: Usage, c: Counter, after: Usage) {
    && after.month == row.month && after.day == row.day
    && after.vacancies == (if c == Vacancies then Some((if row.vacancies.Some? then row.vacancies.value else 0) + 1) else row.vacancies)
    && after.urgent == (if c == Urgent then Some((if row.urgent.Some? then row.urgent.value else 0) + 1) else row.urgent)
    && after.notifications ==
       (if c == Notifications then Some((if row.notifications.Some? then row.notifications.value else 0) + 1) else row.notifications)
  }

  class Repository {
    var usageLimits: Table

    constructor ()
      ensures usageLimits == map[]
    {
      usageLimits := map[];
    }

    method GetOrCreateUsage(user: UserId, clock: Clock) returns (usage: Usage)
      modifies this
      ensures usageLimits == Touched(old(usageLimits), user, clock) && usage == usageLimits[user]
      ensures RowIs(old(usageLimits), user, clock, usage) && usageLimits == old(usageLimits)[user := usage]
    {
      if user !in usageLimits {
        usage := Usage(clock.month, clock.day, None, None, None);
        usageLimits := usageLimits[user := usage];
        return;
      }
      usage := usageLimits[user];
      var reset := usage.month != clock.month || usage.day != clock.day;
      if usage.month != clock.month {
        usage := usage.(vacancies := Some(0), urgent := Some(0), month := clock.month);
      }
      if usage.day != clock.day {
        usage := usage.(notifications := Some(0), day := clock.day);
      }
      if !reset {
        assert usageLimits == Touched(usageLimits, user, clock);
        return;
      }
      usageLimits := usageLimits[user := usage];
    }

    /** increment_vacancies_this_month, increment_urgent_broadcasts_this_month and
        increment_notifications_today. */
    method Increment(user: UserId, c: Counter, clock: Clock)
      modifies this
      ensures usageLimits == Incremented(old(usageLimits), user, c, clock)
      ensures exists row :: RowIs(old(usageLimits), user, clock, row) && user in usageLimits && OneMore(row, c, usageLimits[user])
      ensures usageLimits == old(usageLimits)[user := usageLimits[user]]
    {
      var usage := GetOrCreateUsage(user, clock);
      var value := Count(usage, c) + 1;
      usageLimits := usageLimits[user := With(usageLimits[user], c, value)];
    }
  }

  // ----- what a counter says after any history of calls

  /** counted is None for a call that only reads. */
  datatype Call = Call(user: UserId, clock: Clock, counted: Option<Counter>)

  function Apply(table: Table, call: Call): Table {
    if call.counted.None? then Touched(table, call.user, call.clock)
    else Incremented(table, call.user, call.counted.value, call.clock)
  }

  function Replay(calls: seq<Call>): Table {
    if calls == [] then map[] else Apply(Replay(calls[..|calls| - 1]), calls[|calls| - 1])
  }

  function KeyOf(clock: Clock, c: Counter): Period { if c.Notifications? then clock.day else clock.month }

  /** What a read at that time would answer. */
  function Shown(table: Table, user: UserId, c: Counter, clock: Clock): nat { Count(Refreshed(table, user, clock), c) }

  predicate Counts(call: Call, user: UserId, c: Counter, key: Period) {
    call.user == user && call.counted == Some(c) && KeyOf(call.clock, c) == key
  }

  /** The user's increments under one key. */
  function Increments(calls: seq<Call>, user: UserId, c: Counter, key: Period): nat {
    if calls == [] then 0 else
      Increments(calls[..|calls| - 1], user, c, key) + if Counts(calls[|calls| - 1], user, c, key) then 1 else 0
  }

  /** Where the calls behind the user's last call under another key begin. */
  function Since(calls: seq<Call>, user: UserId, c: Counter, key: Period): (n: nat)
    ensures n <= |calls|
    ensures n > 0 ==> calls[n - 1].user == user && KeyOf(calls[n - 1].clock, c) != key
    ensures forall j :: n <= j < |calls| && calls[j].user == user ==> KeyOf(calls[j].clock, c) == key
  {
    if calls == [] then 0
    else if calls[|calls| - 1].user == user && KeyOf(calls[|calls| - 1].clock, c) != key then |calls|
    else Since(calls[..|calls| - 1], user, c, key)
  }

  function RowKey(usage: Usage, c: Counter): Period { if c.Notifications? then usage.day else usage.month }

  lemma ShownIs(table: Table, user: UserId, c: Counter, clock: Clock)
    ensures Shown(table, user, c, clock) ==
            if user in table && RowKey(table[user], c) == KeyOf(clock, c) then Count(table[user], c) else 0
  {
  }

  lemma RowAfter(table: Table, call: Call, c: Counter)
    ensures call.user in Apply(table, call)
    ensures var row := Apply(table, call)[call.user];
      && RowKey(row, c) == KeyOf(call.clock, c)
      && Count(row, c) == Shown(table, call.user, c, call.clock) + if call.counted == Some(c) then 1 else 0
    ensures forall u :: u != call.user ==> (u in Apply(table, call) <==> u in table) && (u in table ==> Apply(table, call)[u] == table[u])
  {
  }

  lemma ShownStep(table: Table, call: Call, user: UserId, c: Counter, clock: Clock)
    ensures Shown(Apply(table, call), user, c, clock) ==
            if call.user != user then Shown(table, user, c, clock)
            else if KeyOf(call.clock, c) != KeyOf(clock, c) then 0
            else Shown(table, user, c, clock) + if call.counted == Some(c) then 1 else 0
  {
    hide *;
    ShownIs(table, user, c, clock);
    ShownIs(table, user, c, call.clock);
    ShownIs(Apply(table, call), user, c, clock);
    RowAfter(table, call, c);
  }

  /** A counter always tells the increments behind the user's last call under another key. */
  lemma {:induction false} ShownExactly(calls: seq<Call>, user: UserId, c: Counter, clock: Clock)
    ensures var key := KeyOf(clock, c);
      Shown(Replay(calls), user, c, clock) == Increments(calls[Since(calls, user, c, key)..], user, c, key)
  {
    var key := KeyOf(clock, c);
    if calls != [] {
      var front, last := calls[..|calls| - 1], calls[|calls| - 1];
      ShownExactly(front, user, c, clock);
      ShownStep(Replay(front), last, user, c, clock);
      var n := Since(calls, user, c, key);
      if n < |calls| {
        assert calls[n..][..|calls[n..]| - 1] == front[n..];
      }
    }
  }

  /** An increment under the key that is followed by a call of the same user under another: from then on
      the key has come back. */
  ghost predicate Returned(calls: seq<Call>, user: UserId, c: Counter, key: Period) {
    exists i, j :: 0 <= i < j < |calls| && Counts(calls[i], user, c, key) && calls[j].user == user && KeyOf(calls[j].clock, c) != key
  }

  lemma {:induction false} IncrementsSplit(calls: seq<Call>, n: nat, user: UserId, c: Counter, key: Period)
    requires n <= |calls|
    ensures Increments(calls, user, c, key) == Increments(calls[..n], user, c, key) + Increments(calls[n..], user, c, key)
  {
    if n == |calls| {
      assert calls[..n] == calls;
    } else {
      var front := calls[..|calls| - 1];
      IncrementsSplit(front, n, user, c, key);
      assert front[..n] == calls[..n] && calls[n..][..|calls[n..]| - 1] == front[n..];
    }
  }

  lemma {:induction false} SomeIncrement(calls: seq<Call>, user: UserId, c: Counter, key: Period)
    ensures Increments(calls, user, c, key) > 0 <==> exists i :: 0 <= i < |calls| && Counts(calls[i], user, c, key)
  {
    if calls != [] {
      SomeIncrement(calls[..|calls| - 1], user, c, key);
    }
  }

  /** A counter tells all the user's increments in the current period if and only if the period's key has
      not come back. */
  lemma PeriodExactly(calls: seq<Call>, user: UserId, c: Counter, clock: Clock)
    ensures var key := KeyOf(clock, c);
      Shown(Replay(calls), user, c, clock) == Increments(calls, user, c, key) <==> !Returned(calls, user, c, key)
  {
    var key := KeyOf(clock, c);
    var n := Since(calls, user, c, key);
    ShownExactly(calls, user, c, clock);
    IncrementsSplit(calls, n, user, c, key);
    SomeIncrement(calls[..n], user, c, key);
    ReturnedExactly(calls, user, c, key);
    hide *;
    assert forall i :: 0 <= i < n ==> calls[..n][i] == calls[i];
  }

  lemma ReturnedExactly(calls: seq<Call>, user: UserId, c: Counter, key: Period)
    ensures Returned(calls, user, c, key) <==>
            exists i :: 0 <= i < Since(calls, user, c, key) && Counts(calls[i], user, c, key)
  {
    hide Since;
    var n := Since(calls, user, c, key);
    if i :| 0 <= i < n && Counts(calls[i], user, c, key) {
      assert i < n - 1 && calls[n - 1].user == user;
    }
  }

  // ----- calls that overlap

  /** One counter of one row. */
  datatype Row = Missing | Row(key: Period, count: nat)

  function RowOf(table: Table, user: UserId, c: Counter): Row {
    if user in table then Row(RowKey(table[user], c), Count(table[user], c)) else Missing
  }

  function ShownIn(row: Row, key: Period): nat { if row.Row? && row.key == key then row.count else 0 }

  /** What a call was told by its last request: there is no row, its counter is for another period, or it
      has a value. */
  datatype Told = NoRow(key: Period) | Stale(key: Period) | Value(value: nat)

  /** The requests to the store, one await each: a look under the key of the moment, the insertion or the reset
      that it made due, and an increment's write of one more than it was told. Any request may raise
      instead; so does the insertion of a row that is there by then. A reset that is due for other counters
      only leaves this one alone and returns the row: it is another look. */
  datatype Step = Look(task: nat, key: Period) | Insert(task: nat) | Reset(task: nat) | Write(task: nat) | Fail(task: nat)

  datatype Progress = Progress(row: Row, calls: map<nat, Told>)

  predicate CanStep(p: Progress, s: Step) {
    s.Look? ||
    (s.task in p.calls &&
     match s
     case Insert(t) => p.calls[t].NoRow? && p.row.Missing?
     case Reset(t) => p.calls[t].Stale? && p.row.Row?
     case Write(t) => p.calls[t].Value? && p.row.Row?
     case _ => true)
  }

  function Looked(row: Row, key: Period): Told {
    if row.Missing? then NoRow(key) else if row.key != key then Stale(key) else Value(row.count)
  }

  function StepOf(p: Progress, s: Step): Progress {
    if !CanStep(p, s) then p
    else match s
      case Look(t, key) => p.(calls := p.calls[t := Looked(p.row, key)])
      case Insert(t) => Progress(Row(p.calls[t].key, 0), p.calls[t := Value(0)])
      case Reset(t) => Progress(Row(p.calls[t].key, 0), p.calls[t := Value(0)])
      case Write(t) => Progress(p.row.(count := p.calls[t].value + 1), p.calls - {t})
      case Fail(t) => p.(calls := p.calls - {t})
  }

  /** After the first n steps. */
  function After(first: Row, steps: seq<Step>, n: nat): Progress
    requires n <= |steps|
  {
    if n == 0 then Progress(first, map[]) else StepOf(After(first, steps, n - 1), steps[n - 1])
  }

  ghost predicate Possible(first: Row, steps: seq<Step>) {
    forall n :: 0 <= n < |steps| ==> PossibleAt(first, steps, n)
  }

  ghost predicate PossibleAt(first: Row, steps: seq<Step>, n: nat)
    requires n < |steps|
  {
    CanStep(After(first, steps, n), steps[n])
  }

  lemma OneStep(first: Row, steps: seq<Step>, n: nat)
    requires Possible(first, steps) && n < |steps|
    ensures CanStep(After(first, steps, n), steps[n])
    ensures After(first, steps, n + 1) == StepOf(After(first, steps, n), steps[n])
  {
    assert PossibleAt(first, steps, n);
  }

  /** A call that nothing interrupts does to the row what the repository's methods do. */
  lemma AloneAsRepository(table: Table, user: UserId, c: Counter, clock: Clock, t: nat)
    ensures var key := KeyOf(clock, c);
      var looked := StepOf(Progress(RowOf(table, user, c), map[]), Look(t, key));
      var due := if looked.calls[t].NoRow? then StepOf(looked, Insert(t)) else if looked.calls[t].Stale? then StepOf(looked, Reset(t)) else looked;
      && due == Progress(RowOf(Touched(table, user, clock), user, c), map[t := Value(Shown(table, user, c, clock))])
      && StepOf(due, Write(t)) == Progress(RowOf(Incremented(table, user, c, clock), user, c), map[])
  {
    ShownIs(table, user, c, clock);
    RowAfter(table, Call(user, clock, None), c);
    RowAfter(table, Call(user, clock, Some(c)), c);
    hide Touched, Incremented, Shown, Count, Refreshed, With;
  }

  predicate Tells(s: Step) { s.Look? || s.Insert? || s.Reset? }

  /** The last step of the task before moment n. */
  ghost predicate LastOf(steps: seq<Step>, t: nat, r: nat, n: nat)
    requires n <= |steps|
  {
    r < n && steps[r].task == t && forall k :: r < k < n ==> steps[k].task != t
  }

  function Writes(steps: seq<Step>, n: nat): nat
    requires n <= |steps|
  {
    if n == 0 then 0 else Writes(steps, n - 1) + if steps[n - 1].Write? then 1 else 0
  }

  /** There is a write at one of the moments from r to before n. */
  ghost predicate WriteIn(steps: seq<Step>, r: nat, n: nat)
    requires n <= |steps|
  {
    exists x :: r <= x < n && steps[x].Write?
  }

  /** At moment n the row holds what a reset left that came behind some write. */
  ghost predicate Wiped(steps: seq<Step>, n: nat)
    requires n <= |steps|
  {
    exists x :: 0 <= x < n && steps[x].Reset? && WriteIn(steps, 0, x) && !WriteIn(steps, x, n)
  }

  /** The write w: since its call was told a value there has been another write, or what it was told is
      what such a reset left. */
  ghost predicate Forgets(steps: seq<Step>, w: nat) {
    && w < |steps| && steps[w].Write?
    && exists r: nat :: LastOf(steps, steps[w].task, r, w) && (WriteIn(steps, r + 1, w) || Wiped(steps, r + 1))
  }

  ghost predicate NoneForgets(steps: seq<Step>, n: nat) { forall w: nat :: w < n ==> !Forgets(steps, w) }

  ghost predicate UnderKey(steps: seq<Step>, key: Period) { forall k :: 0 <= k < |steps| && steps[k].Look? ==> steps[k].key == key }

  lemma {:induction false} WritesBetween(steps: seq<Step>, r: nat, n: nat)
    requires r <= n <= |steps|
    ensures Writes(steps, r) <= Writes(steps, n)
    ensures Writes(steps, r) < Writes(steps, n) <==> WriteIn(steps, r, n)
  {
    if r < n {
      WritesBetween(steps, r, n - 1);
      assert steps[n - 1].Write? ==> WriteIn(steps, r, n);
    }
  }

  lemma CallStep(p: Progress, s: Step, t: nat)
    requires CanStep(p, s)
    ensures t in StepOf(p, s).calls && s.task == t ==> Tells(s)
    ensures t in StepOf(p, s).calls && s.task == t && StepOf(p, s).calls[t].Value? ==>
      StepOf(p, s).row.Row? && StepOf(p, s).row.count == StepOf(p, s).calls[t].value
    ensures s.task != t ==> (t in StepOf(p, s).calls <==> t in p.calls) && (t in p.calls ==> StepOf(p, s).calls[t] == p.calls[t])
  {
  }

  /** What a call was told comes from its last step, r; a value was in the row then. */
  ghost predicate ToldAt(first: Row, steps: seq<Step>, n: nat, t: nat, r: nat)
    requires n <= |steps| && t in After(first, steps, n).calls
  {
    && LastOf(steps, t, r, n) && Tells(steps[r])
    && (After(first, steps, n).calls[t].Value? ==>
          var told := After(first, steps, r + 1);
          t in told.calls && told.calls[t].Value? && told.row.Row? && told.row.count == After(first, steps, n).calls[t].value)
  }

  lemma {:induction false} ToldHolds(first: Row, steps: seq<Step>, n: nat, t: nat) returns (r: nat)
    requires n <= |steps| && Possible(first, steps) && t in After(first, steps, n).calls
    ensures ToldAt(first, steps, n, t, r)
  {
    hide *;
    CalledOnce(first, steps, n, t);
    if steps[n - 1].task == t {
      r := n - 1;
    } else {
      r := ToldHolds(first, steps, n - 1, t);
      ToldOn(first, steps, n, t, r);
    }
  }

  lemma CalledOnce(first: Row, steps: seq<Step>, n: nat, t: nat)
    requires n <= |steps| && Possible(first, steps) && t in After(first, steps, n).calls
    ensures n > 0
    ensures steps[n - 1].task == t ==> ToldAt(first, steps, n, t, n - 1)
    ensures steps[n - 1].task != t ==> t in After(first, steps, n - 1).calls
  {
    assert n > 0;
    OneStep(first, steps, n - 1);
    hide After, Possible, StepOf, CanStep, Tells;
    CallStep(After(first, steps, n - 1), steps[n - 1], t);
  }

  lemma ToldOn(first: Row, steps: seq<Step>, n: nat, t: nat, r: nat)
    requires 0 < n <= |steps| && Possible(first, steps) && steps[n - 1].task != t && t in After(first, steps, n).calls
    requires t in After(first, steps, n - 1).calls && ToldAt(first, steps, n - 1, t, r)
    ensures ToldAt(first, steps, n, t, r)
  {
    hide After, Possible, StepOf, CanStep, Tells;
    OneStep(first, steps, n - 1);
    CallStep(After(first, steps, n - 1), steps[n - 1], t);
    LaterLast(steps, t, r, n);
    hide LastOf;
  }

  lemma LaterLast(steps: seq<Step>, t: nat, r: nat, n: nat)
    requires 0 < n <= |steps| && LastOf(steps, t, r, n - 1) && steps[n - 1].task != t
    ensures r < n && LastOf(steps, t, r, n)
  {
  }

  /** Within one period: whoever was told a value has found the row in the period, and whoever was not
      means that it did not start there. */
  ghost predicate InPeriod(first: Row, p: Progress, key: Period) {
    && (forall t :: t in p.calls && p.calls[t].Value? ==> p.row.Row? && p.row.key == key)
    && (forall t :: t in p.calls && !p.calls[t].Value? ==> p.calls[t].key == key && ShownIn(first, key) == 0)
    && (p.row.Missing? ==> first.Missing?)
    && (!p.row.Missing? && p.row.key != key ==> p.row == first)
  }

  predicate Entered(row: Row, key: Period) { row.Row? && row.key == key }

  lemma PeriodStep(first: Row, p: Progress, s: Step, key: Period)
    requires CanStep(p, s) && InPeriod(first, p, key) && (s.Look? ==> s.key == key)
    requires Entered(first, key) ==> Entered(p.row, key)
    ensures InPeriod(first, StepOf(p, s), key)
    ensures Entered(p.row, key) || s.Write? ==> Entered(StepOf(p, s).row, key)
  {
  }

  lemma {:induction false} PeriodHolds(first: Row, steps: seq<Step>, n: nat, key: Period)
    requires n <= |steps| && Possible(first, steps) && UnderKey(steps, key)
    ensures InPeriod(first, After(first, steps, n), key)
    ensures Entered(first, key) || Writes(steps, n) > 0 ==> Entered(After(first, steps, n).row, key)
  {
    hide *;
    AtFirst(first, steps, key);
    if n > 0 {
      OneStep(first, steps, n - 1);
      OneKey(steps, n - 1, key);
      PeriodHolds(first, steps, n - 1, key);
      PeriodStep(first, After(first, steps, n - 1), steps[n - 1], key);
    }
  }

  lemma AtFirst(first: Row, steps: seq<Step>, key: Period)
    ensures After(first, steps, 0) == Progress(first, map[]) && Writes(steps, 0) == 0
    ensures InPeriod(first, Progress(first, map[]), key)
  {
  }

  lemma OneKey(steps: seq<Step>, n: nat, key: Period)
    requires n < |steps| && UnderKey(steps, key)
    ensures Writes(steps, n + 1) == Writes(steps, n) + if steps[n].Write? then 1 else 0
    ensures steps[n].Look? ==> steps[n].key == key
  {
  }

  /** What one step does to the counter under the period's key. */
  lemma ShownAfter(first: Row, p: Progress, s: Step, key: Period)
    requires CanStep(p, s) && InPeriod(first, p, key)
    ensures ShownIn(StepOf(p, s).row, key) ==
            match s
            case Insert(_) => 0
            case Reset(_) => 0
            case Write(t) => p.calls[t].value + 1
            case _ => ShownIn(p.row, key)
    ensures s.Insert? ==> p.row.Missing? && ShownIn(first, key) == 0
    ensures s.Reset? ==> ShownIn(first, key) == 0
  {
  }

  lemma WipedOn(steps: seq<Step>, n: nat)
    requires n < |steps|
    ensures Wiped(steps, n + 1) <==> !steps[n].Write? && (Wiped(steps, n) || (steps[n].Reset? && WriteIn(steps, 0, n)))
  {
    forall x | 0 <= x <= n
      ensures WriteIn(steps, x, n + 1) <==> WriteIn(steps, x, n) || steps[n].Write?
    {
      assert steps[n].Write? ==> WriteIn(steps, x, n + 1);
    }
    assert steps[n].Reset? ==> !WriteIn(steps, n, n + 1);
    hide WriteIn;
  }

  lemma NothingWritten(steps: seq<Step>, n: nat)
    requires n <= |steps| && Writes(steps, n) == 0
    ensures NoneForgets(steps, n) && !Wiped(steps, n) && !WriteIn(steps, 0, n)
  {
    WritesBetween(steps, 0, n);
  }

  lemma ForgetsAt(steps: seq<Step>, r: nat, w: nat)
    requires w < |steps| && steps[w].Write? && LastOf(steps, steps[w].task, r, w)
    ensures Forgets(steps, w) <==> WriteIn(steps, r + 1, w) || Wiped(steps, r + 1)
  {
    hide WriteIn, Wiped;
  }

  /** What one write does: the counter is one more than it was when its call was told a value. */
  lemma WriteShows(first: Row, steps: seq<Step>, r: nat, w: nat, key: Period)
    requires Possible(first, steps) && UnderKey(steps, key) && w < |steps| && steps[w].Write?
    requires steps[w].task in After(first, steps, w).calls && ToldAt(first, steps, w, steps[w].task, r)
    ensures ShownIn(After(first, steps, w + 1).row, key) == ShownIn(After(first, steps, r + 1).row, key) + 1
  {
    var told, p := After(first, steps, r + 1), After(first, steps, w);
    OneStep(first, steps, w);
    hide After, CanStep, Possible, StepOf;
    PeriodHolds(first, steps, w, key);
    PeriodHolds(first, steps, r + 1, key);
    ShownAfter(first, p, steps[w], key);
  }

  lemma NoneForgetsOn(steps: seq<Step>, r: nat, w: nat)
    requires r <= w < |steps|
    ensures NoneForgets(steps, w + 1) <==> NoneForgets(steps, w) && !Forgets(steps, w)
    ensures !WriteIn(steps, r, w) ==> (NoneForgets(steps, w) <==> NoneForgets(steps, r))
  {
    forall k: nat | r <= k < w && Forgets(steps, k)
      ensures WriteIn(steps, r, w)
    {
      assert steps[k].Write?;
    }
    hide Forgets, WriteIn;
  }

  /** A write forgets nothing if and only if the row that its call was told of lacked nothing, and nothing has
      been written since. */
  lemma WriteForgets(steps: seq<Step>, r: nat, w: nat)
    requires w < |steps| && steps[w].Write? && LastOf(steps, steps[w].task, r, w)
    ensures r < w && Writes(steps, w + 1) == Writes(steps, w) + 1
    ensures !Wiped(steps, w + 1) && NoneForgets(steps, w + 1) <==>
            !Wiped(steps, r + 1) && NoneForgets(steps, r + 1) && Writes(steps, r + 1) == Writes(steps, w)
    ensures Writes(steps, r + 1) <= Writes(steps, w)
  {
    hide *;
    WritesOn(steps, r, w);
    WipedOn(steps, w);
    ForgetsAt(steps, r, w);
    WritesBetween(steps, r + 1, w);
    NoneForgetsOn(steps, r + 1, w);
  }

  lemma OtherShows(first: Row, steps: seq<Step>, w: nat, key: Period)
    requires Possible(first, steps) && UnderKey(steps, key) && w < |steps| && !steps[w].Write?
    ensures var (shown, next) := (ShownIn(After(first, steps, w).row, key), ShownIn(After(first, steps, w + 1).row, key));
      && (steps[w].Look? || steps[w].Fail? ==> next == shown)
      && (steps[w].Reset? ==> next == 0 == ShownIn(first, key))
      && (steps[w].Insert? ==> next == 0 == ShownIn(first, key) == Writes(steps, w))
  {
    OneStep(first, steps, w);
    hide After, CanStep, Possible, StepOf;
    PeriodHolds(first, steps, w, key);
    ShownAfter(first, After(first, steps, w), steps[w], key);
  }

  lemma WritesOn(steps: seq<Step>, r: nat, w: nat)
    requires w < |steps|
    ensures Writes(steps, w + 1) == Writes(steps, w) + if steps[w].Write? then 1 else 0
    ensures LastOf(steps, steps[w].task, r, w) ==> r < w
    ensures !steps[w].Write? ==> !Forgets(steps, w)
  {
    hide WriteIn, Wiped;
  }

  lemma NoWritesAtFirst(steps: seq<Step>)
    ensures Writes(steps, 0) == 0
  {
  }

  lemma OtherForgets(steps: seq<Step>, w: nat)
    requires w < |steps| && !steps[w].Write?
    ensures Writes(steps, w + 1) == Writes(steps, w)
    ensures NoneForgets(steps, w + 1) <==> NoneForgets(steps, w)
    ensures Wiped(steps, w + 1) <==> Wiped(steps, w) || (steps[w].Reset? && Writes(steps, w) > 0)
    ensures Writes(steps, w) == 0 ==> NoneForgets(steps, w) && !Wiped(steps, w)
  {
    hide *;
    WritesOn(steps, w, w);
    WipedOn(steps, w);
    WritesBetween(steps, 0, w);
    NoneForgetsOn(steps, w, w);
    NoWritesAtFirst(steps);
    if Writes(steps, w) == 0 { NothingWritten(steps, w); }
  }

  /** The counter is not ahead of the increments, and tells them all just if none is forgotten or wiped. */
  ghost predicate Exact(first: Row, steps: seq<Step>, n: nat, key: Period)
    requires n <= |steps|
  {
    var (shown, all) := (ShownIn(After(first, steps, n).row, key), ShownIn(first, key) + Writes(steps, n));
    shown <= all && (shown == all <==> !Wiped(steps, n) && NoneForgets(steps, n))
  }

  lemma OtherExact(first: Row, steps: seq<Step>, w: nat, key: Period)
    requires Possible(first, steps) && UnderKey(steps, key) && w < |steps| && !steps[w].Write?
    requires Exact(first, steps, w, key)
    ensures Exact(first, steps, w + 1, key)
  {
    hide After, Writes, Wiped, NoneForgets, ShownIn, UnderKey, Possible;
    OtherShows(first, steps, w, key);
    OtherForgets(steps, w);
  }

  lemma WriteExact(first: Row, steps: seq<Step>, r: nat, w: nat, key: Period)
    requires Possible(first, steps) && UnderKey(steps, key) && w < |steps| && steps[w].Write?
    requires steps[w].task in After(first, steps, w).calls && ToldAt(first, steps, w, steps[w].task, r)
    requires Exact(first, steps, r + 1, key)
    ensures Exact(first, steps, w + 1, key)
  {
    hide After, Writes, Wiped, NoneForgets, ShownIn, UnderKey, Possible;
    WriteShows(first, steps, r, w, key);
    WriteForgets(steps, r, w);
  }

  lemma {:induction false} ExactHolds(first: Row, steps: seq<Step>, n: nat, key: Period)
    requires n <= |steps| && Possible(first, steps) && UnderKey(steps, key)
    ensures Exact(first, steps, n, key)
    decreases n
  {
    hide *;
    if n == 0 {
      ExactFirst(first, steps, key);
    } else {
      var w := n - 1;
      if steps[w].Write? {
        WriteTold(first, steps, w);
        var r := ToldHolds(first, steps, w, steps[w].task);
        ToldIsLast(first, steps, w, steps[w].task, r);
        ExactHolds(first, steps, r + 1, key);
        WriteExact(first, steps, r, w, key);
      } else {
        ExactHolds(first, steps, w, key);
        OtherExact(first, steps, w, key);
      }
    }
  }

  lemma ToldIsLast(first: Row, steps: seq<Step>, n: nat, t: nat, r: nat)
    requires n <= |steps| && t in After(first, steps, n).calls && ToldAt(first, steps, n, t, r)
    ensures LastOf(steps, t, r, n) && r < n
  {
  }

  lemma ExactFirst(first: Row, steps: seq<Step>, key: Period)
    ensures Exact(first, steps, 0, key)
  {
    NothingWritten(steps, 0);
  }

  lemma WriteTold(first: Row, steps: seq<Step>, w: nat)
    requires Possible(first, steps) && w < |steps| && steps[w].Write?
    ensures steps[w].task in After(first, steps, w).calls
  {
    OneStep(first, steps, w);
  }

  /** However the calls of one period interleave, whichever of them have to insert or reset the row and
      whichever raise: the counter is never ahead of the increments, and it tells them all if and only if
      every write was told of the row with all writes so far, no reset having wiped any of them, and the row
      is not wiped in the end. */
  lemma NoneLostExactly(first: Row, steps: seq<Step>, key: Period)
    requires Possible(first, steps) && UnderKey(steps, key)
    ensures var (shown, all) := (ShownIn(After(first, steps, |steps|).row, key), ShownIn(first, key) + Writes(steps, |steps|));
      shown <= all && (shown == all <==> !Wiped(steps, |steps|) && NoneForgets(steps, |steps|))
  {
    ExactHolds(first, steps, |steps|, key);
  }

  /** Two increments that both look first count as one. */
  lemma TwoCountAsOne(key: Period, n: nat)
    ensures var steps := [Look(0, key), Look(1, key), Write(0), Write(1)];
      && Possible(Row(key, n), steps) && UnderKey(steps, key) && Writes(steps, 4) == 2
      && ShownIn(After(Row(key, n), steps, 4).row, key) == n + 1
  {
    var first, steps := Row(key, n), [Look(0, key), Look(1, key), Write(0), Write(1)];
    assert After(first, steps, 1) == Progress(first, map[0 := Value(n)]);
    assert After(first, steps, 2) == Progress(first, map[0 := Value(n), 1 := Value(n)]);
    assert After(first, steps, 3) == Progress(Row(key, n + 1), map[1 := Value(n)]);
    assert After(first, steps, 4) == Progress(Row(key, n + 1), map[]);
    assert Writes(steps, 1) == 0;
    assert Writes(steps, 2) == 0;
  }

  /** And at the start of a period a late reset wipes the increment of another call. */
  lemma ResetWipes(last: Period, key: Period, n: nat)
    requires last != key
    ensures var steps := [Look(0, key), Look(1, key), Reset(0), Write(0), Reset(1), Write(1)];
      && Possible(Row(last, n), steps) && UnderKey(steps, key) && Writes(steps, 6) == 2
      && ShownIn(After(Row(last, n), steps, 6).row, key) == 1
  {
    var first, steps := Row(last, n), [Look(0, key), Look(1, key), Reset(0), Write(0), Reset(1), Write(1)];
    assert After(first, steps, 1) == Progress(first, map[0 := Stale(key)]);
    assert After(first, steps, 2) == Progress(first, map[0 := Stale(key), 1 := Stale(key)]);
    assert After(first, steps, 3) == Progress(Row(key, 0), map[0 := Value(0), 1 := Stale(key)]);
    assert After(first, steps, 4) == Progress(Row(key, 1), map[1 := Stale(key)]);
    assert After(first, steps, 5) == Progress(Row(key, 0), map[1 := Value(0)]);
    assert Writes(steps, 1) == 0;
    assert Writes(steps, 3) == 0;
    assert Writes(steps, 5) == 1;
  }
}
