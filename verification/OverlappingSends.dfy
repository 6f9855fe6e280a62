/** Sends that overlap (modules/job-bot/handlers/job.py, db.py): one user's row, and the turns of any number
    of sends to that user, every request to the store a step of its own and under any clock. */
module OverlappingSends {
  import opened Wrappers
  import opened UsageCounters
  import opened VacancyNotifications

  /** A turn's steps: its lookup, the decision on what that told, and behind the message the increment's
      requests. A send without limits decides nothing. A turn that is refused takes no further step. */
  datatype Moment = Store(step: Step) | Decide(task: nat) | Exempt(task: nat)

  datatype Sends = Sends(usage: Progress, allowed: set<nat>)

  function TaskOf(m: Moment): nat { if m.Store? then m.step.task else m.task }

  predicate CanTake(st: Sends, referrals: nat, m: Moment) {
    match m
    case Store(s) => CanStep(st.usage, s) && (s.Write? ==> s.task in st.allowed)
    case Decide(t) =>
      t !in st.allowed && t in st.usage.calls && st.usage.calls[t].Value? && CanSendNotification(st.usage.calls[t].value, referrals)
    case Exempt(t) => t !in st.allowed && t !in st.usage.calls
  }

  function Take(st: Sends, m: Moment): Sends {
    match m
    case Store(s) => Sends(StepOf(st.usage, s), if s.Write? || s.Fail? then st.allowed - {s.task} else st.allowed)
    case Decide(t) => Sends(st.usage.(calls := st.usage.calls - {t}), st.allowed + {t})
    case Exempt(t) => st.(allowed := st.allowed + {t})
  }

  /** After the first n moments. */
  function Standing(first: Row, moments: seq<Moment>, n: nat): Sends
    requires n <= |moments|
  {
    if n == 0 then Sends(Progress(first, map[]), {}) else Take(Standing(first, moments, n - 1), moments[n - 1])
  }

  ghost predicate Feasible(first: Row, referrals: nat, moments: seq<Moment>) {
    forall n :: 0 <= n < |moments| ==> FeasibleAt(first, referrals, moments, n)
  }

  ghost predicate FeasibleAt(first: Row, referrals: nat, moments: seq<Moment>, n: nat)
    requires n < |moments|
  {
    CanTake(Standing(first, moments, n), referrals, moments[n])
  }

  lemma OneMoment(first: Row, referrals: nat, moments: seq<Moment>, n: nat)
    requires Feasible(first, referrals, moments) && n < |moments|
    ensures CanTake(Standing(first, moments, n), referrals, moments[n])
    ensures Standing(first, moments, n + 1) == Take(Standing(first, moments, n), moments[n])
  {
    assert FeasibleAt(first, referrals, moments, n);
  }

  function RowAt(first: Row, moments: seq<Moment>, n: nat): Row
    requires n <= |moments|
  {
    Standing(first, moments, n).usage.row
  }

  function CountOf(row: Row): nat { if row.Row? then row.count else 0 }

  predicate IsWrite(m: Moment) { m.Store? && m.step.Write? }

  /** A step that gives the counter a value. */
  predicate Sets(m: Moment) { m.Store? && (m.step.Write? || m.step.Reset? || m.step.Insert?) }

  predicate IsLookup(m: Moment) { m.Store? && Tells(m.step) }

  // ----- where a turn stands

  /** The turn's last step before moment n. */
  ghost predicate LastMoment(moments: seq<Moment>, t: nat, r: nat, n: nat)
    requires n <= |moments|
  {
    r < n && TaskOf(moments[r]) == t && forall k :: r < k < n ==> TaskOf(moments[k]) != t
  }

  /** The turn was allowed at moment p, or was exempt, and has only looked the row up since. */
  ghost predicate LeaveAt(moments: seq<Moment>, t: nat, p: nat, n: nat)
    requires n <= |moments|
  {
    && p < n && (moments[p] == Decide(t) || moments[p] == Exempt(t))
    && forall k :: p < k < n && TaskOf(moments[k]) == t ==> IsLookup(moments[k])
  }

  lemma TurnMoment(st: Sends, referrals: nat, m: Moment, t: nat)
    requires CanTake(st, referrals, m)
    ensures var next := Take(st, m);
      && (TaskOf(m) != t ==>
            (t in next.usage.calls <==> t in st.usage.calls) && (t in next.allowed <==> t in st.allowed)
            && (t in st.usage.calls ==> next.usage.calls[t] == st.usage.calls[t]))
      && (TaskOf(m) == t && t in next.usage.calls ==>
            IsLookup(m) && (next.usage.calls[t].Value? ==> CountOf(next.usage.row) == next.usage.calls[t].value))
      && (TaskOf(m) == t && t in next.allowed ==> m == Decide(t) || m == Exempt(t) || (IsLookup(m) && t in st.allowed))
  {
  }

  /** The turn was told by its step r. */
  ghost predicate ToldBy(first: Row, moments: seq<Moment>, n: nat, t: nat, r: nat)
    requires n <= |moments| && t in Standing(first, moments, n).usage.calls
  {
    && LastMoment(moments, t, r, n) && IsLookup(moments[r])
    && var told := Standing(first, moments, n).usage.calls[t];
      told.Value? ==> CountOf(RowAt(first, moments, r + 1)) == told.value
  }

  lemma ToldOnce(first: Row, referrals: nat, moments: seq<Moment>, n: nat, t: nat)
    requires n <= |moments| && Feasible(first, referrals, moments) && t in Standing(first, moments, n).usage.calls
    ensures n > 0
    ensures TaskOf(moments[n - 1]) == t ==> ToldBy(first, moments, n, t, n - 1)
    ensures TaskOf(moments[n - 1]) != t ==> t in Standing(first, moments, n - 1).usage.calls
  {
    assert n > 0;
    hide Standing, Feasible, CanTake, Take, IsLookup, CountOf;
    OneMoment(first, referrals, moments, n - 1);
    TurnMoment(Standing(first, moments, n - 1), referrals, moments[n - 1], t);
  }

  lemma ToldStill(first: Row, referrals: nat, moments: seq<Moment>, n: nat, t: nat, r: nat)
    requires 0 < n <= |moments| && Feasible(first, referrals, moments) && TaskOf(moments[n - 1]) != t
    requires t in Standing(first, moments, n).usage.calls && t in Standing(first, moments, n - 1).usage.calls
    requires ToldBy(first, moments, n - 1, t, r)
    ensures ToldBy(first, moments, n, t, r)
  {
    hide Standing, Feasible, CanTake, Take, IsLookup, CountOf, RowAt;
    OneMoment(first, referrals, moments, n - 1);
    TurnMoment(Standing(first, moments, n - 1), referrals, moments[n - 1], t);
    StillLast(moments, t, r, n);
    hide LastMoment;
  }

  lemma StillLast(moments: seq<Moment>, t: nat, r: nat, n: nat)
    requires 0 < n <= |moments| && LastMoment(moments, t, r, n - 1) && TaskOf(moments[n - 1]) != t
    ensures LastMoment(moments, t, r, n)
  {
  }

  lemma {:induction false} TurnTold(first: Row, referrals: nat, moments: seq<Moment>, n: nat, t: nat) returns (r: nat)
    requires n <= |moments| && Feasible(first, referrals, moments) && t in Standing(first, moments, n).usage.calls
    ensures ToldBy(first, moments, n, t, r)
  {
    hide *;
    ToldOnce(first, referrals, moments, n, t);
    if TaskOf(moments[n - 1]) == t {
      r := n - 1;
    } else {
      r := TurnTold(first, referrals, moments, n - 1, t);
      ToldStill(first, referrals, moments, n, t, r);
    }
  }

  lemma {:induction false} TurnAllowed(first: Row, referrals: nat, moments: seq<Moment>, n: nat, t: nat) returns (p: nat)
    requires n <= |moments| && Feasible(first, referrals, moments) && t in Standing(first, moments, n).allowed
    ensures LeaveAt(moments, t, p, n)
  {
    assert n > 0;
    hide Standing, Feasible, CanTake, Take, IsLookup;
    OneMoment(first, referrals, moments, n - 1);
    TurnMoment(Standing(first, moments, n - 1), referrals, moments[n - 1], t);
    if moments[n - 1] == Decide(t) || moments[n - 1] == Exempt(t) {
      p := n - 1;
    } else {
      p := TurnAllowed(first, referrals, moments, n - 1, t);
    }
  }

  // ----- how the counter comes to its bound

  lemma RowMoment(st: Sends, referrals: nat, m: Moment, key: Period)
    requires CanTake(st, referrals, m)
    ensures var (row, next) := (st.usage.row, Take(st, m).usage.row);
      && (!Sets(m) ==> next == row)
      && (Sets(m) && !IsWrite(m) ==> CountOf(next) == 0 == ShownIn(next, key))
      && (IsWrite(m) ==> CountOf(next) == st.usage.calls[TaskOf(m)].value + 1)
      && (IsWrite(m) ==> ShownIn(next, key) == if Entered(row, key) then CountOf(next) else 0)
  {
  }

  /** None of the moments from i to before j sets the counter. */
  ghost predicate NoneSets(moments: seq<Moment>, i: nat, j: nat)
    requires j <= |moments|
  {
    forall k :: i <= k < j ==> !Sets(moments[k])
  }

  lemma {:induction false} CountKept(first: Row, referrals: nat, moments: seq<Moment>, i: nat, j: nat)
    requires Feasible(first, referrals, moments) && i <= j <= |moments| && NoneSets(moments, i, j)
    ensures RowAt(first, moments, i) == RowAt(first, moments, j)
  {
    if i < j {
      CountKept(first, referrals, moments, i, j - 1);
      OneMoment(first, referrals, moments, j - 1);
      RowMoment(Standing(first, moments, j - 1), referrals, moments[j - 1], "");
      hide Standing, Feasible, CanTake, Take, CountOf, Sets;
    }
  }

  /** The write x brings the counter to the bound, and there it stays until moment r. */
  ghost predicate ComesTo(first: Row, moments: seq<Moment>, bound: nat, x: nat, r: nat)
    requires r <= |moments|
  {
    x < r && IsWrite(moments[x]) && bound <= CountOf(RowAt(first, moments, x + 1)) && NoneSets(moments, x + 1, r)
  }

  lemma {:induction false} SomeComes(first: Row, referrals: nat, moments: seq<Moment>, bound: nat, i: nat, j: nat) returns (x: nat)
    requires Feasible(first, referrals, moments) && i <= j <= |moments|
    requires CountOf(RowAt(first, moments, i)) < bound <= CountOf(RowAt(first, moments, j))
    ensures i <= x && ComesTo(first, moments, bound, x, j)
  {
    hide Standing, Feasible, CanTake, Take, CountOf, Sets, RowAt;
    OneMoment(first, referrals, moments, j - 1);
    RowsAre(first, moments, j - 1);
    RowMoment(Standing(first, moments, j - 1), referrals, moments[j - 1], "");
    if Sets(moments[j - 1]) {
      x := j - 1;
    } else {
      x := SomeComes(first, referrals, moments, bound, i, j - 1);
    }
  }

  lemma RowsAre(first: Row, moments: seq<Moment>, n: nat)
    requires n < |moments|
    ensures RowAt(first, moments, n) == Standing(first, moments, n).usage.row
    ensures RowAt(first, moments, n + 1) == Standing(first, moments, n + 1).usage.row
  {
  }

  // ----- exactly when the limit is passed

  /** By its lookup r the counter has come to the bound, by another turn's write behind the lookup a that the
      turn was allowed on. */
  ghost predicate Outrun(first: Row, moments: seq<Moment>, bound: nat, t: nat, a: nat, r: nat)
    requires r < |moments|
  {
    exists x: nat :: a < x && ComesTo(first, moments, bound, x, r + 1) && TaskOf(moments[x]) != t
  }

  /** Under the period's key, w is the write of a turn that was allowed at p and told its value by r: either it
      is exempt and was told the bound, or it was outrun. */
  ghost predicate PassesAt(first: Row, moments: seq<Moment>, bound: nat, p: nat, r: nat, w: nat)
    requires w < |moments|
  {
    var t := TaskOf(moments[w]);
    && LeaveAt(moments, t, p, w) && LastMoment(moments, t, r, w)
    && if moments[p].Exempt? then bound <= CountOf(RowAt(first, moments, r + 1))
       else exists a: nat :: LastMoment(moments, t, a, p) && Outrun(first, moments, bound, t, a, r)
  }

  ghost predicate Passes(first: Row, moments: seq<Moment>, bound: nat, key: Period, w: nat) {
    && w < |moments| && IsWrite(moments[w]) && Entered(RowAt(first, moments, w), key)
    && exists p: nat, r: nat :: PassesAt(first, moments, bound, p, r, w)
  }

  /** The turn that writes at w: when it was allowed, what it was told, and at what lookup before that. */
  lemma Turn(first: Row, referrals: nat, moments: seq<Moment>, w: nat) returns (p: nat, r: nat)
    requires w < |moments| && Feasible(first, referrals, moments) && IsWrite(moments[w])
    ensures var t := TaskOf(moments[w]);
      && LeaveAt(moments, t, p, w) && LastMoment(moments, t, r, w) && p < r
      && t in Standing(first, moments, w).usage.calls && ToldBy(first, moments, w, t, r)
      && CountOf(RowAt(first, moments, w + 1)) == CountOf(RowAt(first, moments, r + 1)) + 1
  {
    var t := TaskOf(moments[w]);
    OneMoment(first, referrals, moments, w);
    RowsAre(first, moments, w);
    RowMoment(Standing(first, moments, w), referrals, moments[w], "");
    WriteNeeds(Standing(first, moments, w), referrals, moments[w]);
    hide Standing, Feasible, CanTake, Take, IsWrite, RowAt, CountOf;
    p := TurnAllowed(first, referrals, moments, w, t);
    r := TurnTold(first, referrals, moments, w, t);
  }

  lemma WriteNeeds(st: Sends, referrals: nat, m: Moment)
    requires CanTake(st, referrals, m) && IsWrite(m)
    ensures TaskOf(m) in st.allowed && TaskOf(m) in st.usage.calls && st.usage.calls[TaskOf(m)].Value?
  {
  }

  /** A decision: the lookup it rests on told less than the limit. */
  lemma Decided(first: Row, referrals: nat, moments: seq<Moment>, p: nat) returns (a: nat)
    requires p < |moments| && Feasible(first, referrals, moments) && moments[p].Decide?
    ensures LastMoment(moments, TaskOf(moments[p]), a, p)
    ensures CountOf(RowAt(first, moments, a + 1)) < NotificationLimit(referrals)
  {
    OneMoment(first, referrals, moments, p);
    a := TurnTold(first, referrals, moments, p, moments[p].task);
  }

  /** None of the turn's own steps between its lookups is a write. */
  lemma OthersWrite(moments: seq<Moment>, t: nat, a: nat, p: nat, r: nat, w: nat, x: nat)
    requires w < |moments| && LeaveAt(moments, t, p, w) && LastMoment(moments, t, a, p) && LastMoment(moments, t, r, w)
    requires a < x <= r && IsWrite(moments[x]) && IsLookup(moments[r])
    ensures TaskOf(moments[x]) != t
  {
  }

  lemma OutrunExactly(first: Row, referrals: nat, moments: seq<Moment>, bound: nat, a: nat, p: nat, r: nat, w: nat)
    requires Feasible(first, referrals, moments) && w < |moments|
    requires var t := TaskOf(moments[w]); LeaveAt(moments, t, p, w) && LastMoment(moments, t, a, p) && LastMoment(moments, t, r, w)
    requires a < r && IsLookup(moments[r]) && CountOf(RowAt(first, moments, a + 1)) < bound
    ensures Outrun(first, moments, bound, TaskOf(moments[w]), a, r) <==> bound <= CountOf(RowAt(first, moments, r + 1))
  {
    var t := TaskOf(moments[w]);
    hide Feasible, RowAt, CountOf, LastMoment, LeaveAt, TaskOf;
    if bound <= CountOf(RowAt(first, moments, r + 1)) {
      var x := SomeComes(first, referrals, moments, bound, a + 1, r + 1);
      OthersWrite(moments, t, a, p, r, w, x);
    }
    if x: nat :| a < x && ComesTo(first, moments, bound, x, r + 1) && TaskOf(moments[x]) != t {
      CountKept(first, referrals, moments, x + 1, r + 1);
    }
  }

  /** Which steps of a turn these are is settled. */
  lemma OnlyTurn(moments: seq<Moment>, t: nat, p: nat, r: nat, w: nat)
    requires w < |moments| && LeaveAt(moments, t, p, w) && LastMoment(moments, t, r, w)
    ensures forall q: nat :: LeaveAt(moments, t, q, w) ==> q == p
    ensures forall q: nat :: LastMoment(moments, t, q, w) ==> q == r
    ensures forall q: nat, s: nat :: LastMoment(moments, t, q, p) && LastMoment(moments, t, s, p) ==> q == s
  {
  }

  /** A write comes to more than the bound if and only if it passes it as described. */
  lemma WritePasses(first: Row, referrals: nat, moments: seq<Moment>, bound: nat, key: Period, w: nat)
    requires Feasible(first, referrals, moments) && bound >= NotificationLimit(referrals)
    requires w < |moments| && IsWrite(moments[w]) && Entered(RowAt(first, moments, w), key)
    ensures bound < CountOf(RowAt(first, moments, w + 1)) <==> Passes(first, moments, bound, key, w)
  {
    var t := TaskOf(moments[w]);
    hide Feasible, RowAt, CountOf, LastMoment, LeaveAt, TaskOf, IsWrite, Entered, Outrun, NotificationLimit;
    var p, r := Turn(first, referrals, moments, w);
    OnlyTurn(moments, t, p, r, w);
    if moments[p].Exempt? {
      assert PassesAt(first, moments, bound, p, r, w) <==> bound <= CountOf(RowAt(first, moments, r + 1));
    } else {
      var a := Decided(first, referrals, moments, p);
      OutrunExactly(first, referrals, moments, bound, a, p, r, w);
      assert PassesAt(first, moments, bound, p, r, w) <==> Outrun(first, moments, bound, t, a, r);
    }
  }

  /** However the turns of any number of sends overlap, under whatever clocks and whatever raises: no moment
      shows more under a period than the limit, or than the beginning did, if and only if no counting passes
      it as described. */
  lemma WithinLimitExactly(first: Row, referrals: nat, moments: seq<Moment>, key: Period)
    requires Feasible(first, referrals, moments)
    ensures var bound := Max(ShownIn(first, key), NotificationLimit(referrals));
      (forall n: nat :: n <= |moments| ==> ShownIn(RowAt(first, moments, n), key) <= bound)
      <==> !exists w: nat :: Passes(first, moments, bound, key, w)
  {
    var bound := Max(ShownIn(first, key), NotificationLimit(referrals));
    hide *;
    BoundIs(ShownIn(first, key), referrals);
    forall w: nat
      ensures Passes(first, moments, bound, key, w) ==> w < |moments| && ShownIn(RowAt(first, moments, w + 1), key) > bound
    {
      if Passes(first, moments, bound, key, w) {
        PassesWrites(first, moments, bound, key, w);
        WritePasses(first, referrals, moments, bound, key, w);
        ShownMoment(first, referrals, moments, w, key);
      }
    }
    forall n: nat | n <= |moments| && !exists w: nat :: Passes(first, moments, bound, key, w)
      ensures ShownIn(RowAt(first, moments, n), key) <= bound
    {
      StaysWithin(first, referrals, moments, bound, key, n);
    }
  }

  lemma BoundIs(n: nat, referrals: nat)
    ensures Max(n, NotificationLimit(referrals)) >= n && Max(n, NotificationLimit(referrals)) >= NotificationLimit(referrals)
  {
  }

  lemma PassesWrites(first: Row, moments: seq<Moment>, bound: nat, key: Period, w: nat)
    requires Passes(first, moments, bound, key, w)
    ensures w < |moments| && IsWrite(moments[w]) && Entered(RowAt(first, moments, w), key)
  {
  }

  lemma ShownMoment(first: Row, referrals: nat, moments: seq<Moment>, n: nat, key: Period)
    requires Feasible(first, referrals, moments) && n < |moments|
    ensures var (shown, next) := (ShownIn(RowAt(first, moments, n), key), ShownIn(RowAt(first, moments, n + 1), key));
      && (IsWrite(moments[n]) ==> next == if Entered(RowAt(first, moments, n), key) then CountOf(RowAt(first, moments, n + 1)) else 0)
      && (!IsWrite(moments[n]) ==> next == shown || next == 0)
  {
    hide Feasible, RowAt, CanTake, Take, IsWrite, Sets, Entered, ShownIn, CountOf;
    OneMoment(first, referrals, moments, n);
    RowsAre(first, moments, n);
    RowMoment(Standing(first, moments, n), referrals, moments[n], key);
  }

  lemma {:induction false} StaysWithin(first: Row, referrals: nat, moments: seq<Moment>, bound: nat, key: Period, n: nat)
    requires Feasible(first, referrals, moments) && n <= |moments|
    requires bound >= ShownIn(first, key) && bound >= NotificationLimit(referrals)
    requires !exists w: nat :: Passes(first, moments, bound, key, w)
    ensures ShownIn(RowAt(first, moments, n), key) <= bound
  {
    if n > 0 {
      hide *;
      StaysWithin(first, referrals, moments, bound, key, n - 1);
      ShownMoment(first, referrals, moments, n - 1, key);
      if IsWrite(moments[n - 1]) && Entered(RowAt(first, moments, n - 1), key) {
        WritePasses(first, referrals, moments, bound, key, n - 1);
      }
    }
  }

  /** Two sends to a user with two of three messages counted both look before either counts. */
  lemma TwoSendsPass(key: Period)
    ensures var moments := [Store(Look(0, key)), Store(Look(1, key)), Decide(0), Decide(1),
                            Store(Look(0, key)), Store(Write(0)), Store(Look(1, key)), Store(Write(1))];
      && Feasible(Row(key, 2), 0, moments) && RowAt(Row(key, 2), moments, 8) == Row(key, 4) && NotificationLimit(0) == 3
  {
    var first, moments := Row(key, 2), [Store(Look(0, key)), Store(Look(1, key)), Decide(0), Decide(1),
                                        Store(Look(0, key)), Store(Write(0)), Store(Look(1, key)), Store(Write(1))];
    assert Standing(first, moments, 1) == Sends(Progress(first, map[0 := Value(2)]), {});
    assert Standing(first, moments, 2) == Sends(Progress(first, map[0 := Value(2), 1 := Value(2)]), {});
    assert Standing(first, moments, 3) == Sends(Progress(first, map[1 := Value(2)]), {0});
    assert Standing(first, moments, 4) == Sends(Progress(first, map[]), {0, 1});
    assert Standing(first, moments, 5) == Sends(Progress(first, map[0 := Value(2)]), {0, 1});
    assert Standing(first, moments, 6) == Sends(Progress(Row(key, 3), map[]), {1});
    assert Standing(first, moments, 7) == Sends(Progress(Row(key, 3), map[1 := Value(3)]), {1});
    forall n: nat | n < |moments|
      ensures FeasibleAt(first, 0, moments, n)
    {
    }
  }

  /** The same through the repository's methods, each undisturbed: both lookups allow, and the counter ends
      above the limit. */
  method TwoSendsInTurn(user: UserId, clock: Clock) returns (one: nat, other: nat, counted: nat)
    ensures CanSendNotification(one, 0) && CanSendNotification(other, 0) && counted == 4 > NotificationLimit(0)
  {
    hide Refreshed, With, Count;
    var count, read := Call(user, clock, Some(Notifications)), Call(user, clock, None);
    var repo := new Repository();
    assert Shown(repo.usageLimits, user, Notifications, clock) == 0 by { ShownIs(map[], user, Notifications, clock); }
    for i := 0 to 2
      invariant Shown(repo.usageLimits, user, Notifications, clock) == i
    {
      ShownStep(repo.usageLimits, count, user, Notifications, clock);
      repo.Increment(user, Notifications, clock);
    }
    ShownStep(repo.usageLimits, read, user, Notifications, clock);
    var usage := repo.GetOrCreateUsage(user, clock);
    one := Count(usage, Notifications);
    ShownStep(repo.usageLimits, read, user, Notifications, clock);
    usage := repo.GetOrCreateUsage(user, clock);
    other := Count(usage, Notifications);
    for i := 0 to 2
      invariant Shown(repo.usageLimits, user, Notifications, clock) == i + 2
    {
      ShownStep(repo.usageLimits, count, user, Notifications, clock);
      repo.Increment(user, Notifications, clock);
    }
    usage := repo.GetOrCreateUsage(user, clock);
    counted := Count(usage, Notifications);
  }
}
