/** Sending one vacancy to a list of seekers under their daily limits (modules/job-bot/handlers/job.py,
    services/limits.py): a send that runs alone. What the messenger and the store do for each seeker is given
    beforehand. */
module VacancyNotifications {
  import opened UsageCounters
  import opened Wrappers

  const FREE_NOTIFICATIONS_PER_DAY: nat := 3
  const REFERRAL_NOTIFICATION_BONUS_THRESHOLD: nat := 3
  const REFERRAL_NOTIFICATION_BONUS_LIMIT: nat := 5

  function NotificationLimit(referrals: nat): nat {
    if referrals >= REFERRAL_NOTIFICATION_BONUS_THRESHOLD then REFERRAL_NOTIFICATION_BONUS_LIMIT else FREE_NOTIFICATIONS_PER_DAY
  }

  predicate CanSendNotification(used: nat, referrals: nat) { used < NotificationLimit(referrals) }

  /** Three messages a day, and five from three referrals on. */
  lemma SendableExactly(used: nat, referrals: nat)
    ensures CanSendNotification(used, referrals) <==> used < 3 || (used < 5 && referrals >= 3)
    ensures NotificationLimit(referrals) == if referrals < 3 then 3 else 5
  {
  }

  /** Delivered: sent, recorded and counted. Uncounted: sent, but recording or counting raised, possibly
      behind the lookup of the row, which may have reset it. */
  datatype Outcome = Unsent | Uncounted(lookedUp: bool) | Delivered

  /** The lookup of usage and referrals; one that raises, perhaps behind a reset of the row, ends the sending. */
  datatype Lookup = Answers | Raises(lookedUp: bool)

  /** One turn: the clock when the usage is read and when it is counted may differ. */
  datatype Turn = Turn(user: UserId, lookup: Lookup, before: Clock, after: Clock, outcome: Outcome)

  /** Where it has raised, the number sent is not returned. */
  datatype Result = Result(table: Table, sent: nat, delivered: seq<UserId>, raised: bool)

  predicate Allowed(table: Table, turn: Turn, referrals: UserId -> nat, enforce: bool) {
    enforce ==> CanSendNotification(Shown(table, turn.user, Notifications, turn.before), referrals(turn.user))
  }

  /** The turn comes to its sending. */
  predicate Reached(r: Result, turn: Turn, referrals: UserId -> nat, enforce: bool) {
    !r.raised && (enforce ==> turn.lookup.Answers?) && Allowed(r.table, turn, referrals, enforce)
  }

  function Send(r: Result, turn: Turn, referrals: UserId -> nat, enforce: bool): Result {
    if r.raised || (enforce && turn.lookup == Raises(false)) then r.(raised := true)
    else
      var table := if enforce then Touched(r.table, turn.user, turn.before) else r.table;
      if enforce && turn.lookup.Raises? then r.(table := table, raised := true)
      else if !Allowed(r.table, turn, referrals, enforce) || turn.outcome.Unsent? then r.(table := table)
      else if turn.outcome.Uncounted? then
        Result(if turn.outcome.lookedUp then Touched(table, turn.user, turn.after) else table, r.sent, r.delivered + [turn.user], false)
      else Result(Incremented(table, turn.user, Notifications, turn.after), r.sent + 1, r.delivered + [turn.user], false)
  }

  function SendAll(table: Table, turns: seq<Turn>, referrals: UserId -> nat, enforce: bool): Result {
    if turns == [] then Result(table, 0, [], false)
    else Send(SendAll(table, turns[..|turns| - 1], referrals, enforce), turns[|turns| - 1], referrals, enforce)
  }

  method SendVacancyNotifications(repo: Repository, turns: seq<Turn>, referrals: UserId -> nat, enforce: bool)
    returns (sent: nat, delivered: seq<UserId>, raised: bool)
    modifies repo
    ensures Result(repo.usageLimits, sent, delivered, raised) == SendAll(old(repo.usageLimits), turns, referrals, enforce)
  {
    sent, delivered, raised := 0, [], false;
    for i := 0 to |turns|
      invariant !raised && Result(repo.usageLimits, sent, delivered, raised) == SendAll(old(repo.usageLimits), turns[..i], referrals, enforce)
    {
      assert turns[..i + 1][..i] == turns[..i];
      hide SendAll, Refreshed, With;
      var turn := turns[i];
      if enforce && turn.lookup == Raises(false) {
        raised := true;
        RaisedStays(old(repo.usageLimits), turns, i + 1, referrals, enforce);
        return;
      }
      if enforce {
        var usage := repo.GetOrCreateUsage(turn.user, turn.before);
        if turn.lookup.Raises? {
          raised := true;
          RaisedStays(old(repo.usageLimits), turns, i + 1, referrals, enforce);
          return;
        }
        if !CanSendNotification(Count(usage, Notifications), referrals(turn.user)) {
          continue;
        }
      }
      if turn.outcome.Unsent? {
        continue;
      }
      delivered := delivered + [turn.user];
      if turn.outcome.Uncounted? {
        if turn.outcome.lookedUp {
          var row := repo.GetOrCreateUsage(turn.user, turn.after);
        }
        continue;
      }
      repo.Increment(turn.user, Notifications, turn.after);
      sent := sent + 1;
    }
    assert turns[..|turns|] == turns;
  }

  lemma {:induction false} RaisedStays(table: Table, turns: seq<Turn>, n: nat, referrals: UserId -> nat, enforce: bool)
    requires n <= |turns| && SendAll(table, turns[..n], referrals, enforce).raised
    ensures SendAll(table, turns, referrals, enforce) == SendAll(table, turns[..n], referrals, enforce)
  {
    if n == |turns| {
      assert turns[..n] == turns;
    } else {
      var front := turns[..|turns| - 1];
      assert front[..n] == turns[..n];
      RaisedStays(table, front, n, referrals, enforce);
    }
  }

  lemma SendTells(r: Result, turn: Turn, referrals: UserId -> nat, enforce: bool)
    ensures var (next, reached) := (Send(r, turn, referrals, enforce), Reached(r, turn, referrals, enforce));
      && next.raised == (r.raised || (enforce && turn.lookup.Raises?))
      && next.delivered == r.delivered + (if reached && !turn.outcome.Unsent? then [turn.user] else [])
      && next.sent == r.sent + if reached && turn.outcome.Delivered? then 1 else 0
  {
    hide Allowed, Touched, Incremented;
  }

  lemma TimesMore(users: seq<UserId>, more: UserId, user: UserId)
    ensures Times(users + [more], user) == Times(users, user) + if more == user then 1 else 0
    ensures users + [] == users
  {
    assert (users + [more])[..|users|] == users;
  }

  // ----- the limit

  /** Reading changes no answer; counting adds one to the user's answers under that day, and a day that is
      no longer the row's counts from zero. */
  lemma SendShows(r: Result, turn: Turn, referrals: UserId -> nat, enforce: bool, user: UserId, clock: Clock)
    ensures var next := Send(r, turn, referrals, enforce);
      var reached := Reached(r, turn, referrals, enforce);
      var counted := reached && turn.outcome.Delivered?;
      var lookedUp := counted || (reached && turn.outcome.Uncounted? && turn.outcome.lookedUp);
      && Shown(next.table, user, Notifications, clock) ==
         (if user != turn.user || r.raised || (enforce && turn.lookup == Raises(false)) then Shown(r.table, user, Notifications, clock)
          else if lookedUp && turn.after.day != clock.day then 0
          else if enforce && turn.before.day != clock.day then if counted then 1 else 0
          else Shown(r.table, user, Notifications, clock) + if counted then 1 else 0)
  {
    var read := Call(turn.user, turn.before, None);
    var count := Call(turn.user, turn.after, Some(Notifications));
    ShownStep(r.table, read, user, Notifications, clock);
    var table := if enforce then Touched(r.table, turn.user, turn.before) else r.table;
    ShownStep(table, count, user, Notifications, clock);
    ShownStep(table, Call(turn.user, turn.after, None), user, Notifications, clock);
    hide Shown, Refreshed, Touched, Incremented;
  }

  function Max(a: nat, b: nat): nat { if a > b then a else b }

  /** Enforced sending never takes a user's counter past the limit, however often the user is listed and
      whatever fails, even if the day changes on the way: the counter ends at most at the limit, or where it
      was. */
  lemma {:induction false} NeverPastLimit(table: Table, turns: seq<Turn>, referrals: UserId -> nat, user: UserId, clock: Clock)
    ensures Shown(SendAll(table, turns, referrals, true).table, user, Notifications, clock)
            <= Max(Shown(table, user, Notifications, clock), NotificationLimit(referrals(user)))
  {
    hide Shown, Send;
    if turns != [] {
      var r, turn := SendAll(table, turns[..|turns| - 1], referrals, true), turns[|turns| - 1];
      NeverPastLimit(table, turns[..|turns| - 1], referrals, user, clock);
      SendShows(r, turn, referrals, true, user, clock);
      SameDay(r.table, turn.user, turn.before, clock);
    }
  }

  lemma SameDay(table: Table, user: UserId, a: Clock, b: Clock)
    ensures a.day == b.day ==> Shown(table, user, Notifications, a) == Shown(table, user, Notifications, b)
  {
  }

  // ----- exactly how many are sent within a day

  function Times(users: seq<UserId>, user: UserId): nat {
    if users == [] then 0 else Times(users[..|users| - 1], user) + if users[|users| - 1] == user then 1 else 0
  }

  /** A lookup has raised by then. */
  predicate Broken(turns: seq<Turn>) { exists i :: 0 <= i < |turns| && turns[i].lookup.Raises? }

  lemma {:induction false} RaisedExactly(table: Table, turns: seq<Turn>, referrals: UserId -> nat)
    ensures SendAll(table, turns, referrals, true).raised <==> Broken(turns)
  {
    if turns != [] {
      RaisedExactly(table, turns[..|turns| - 1], referrals);
      SendTells(SendAll(table, turns[..|turns| - 1], referrals, true), turns[|turns| - 1], referrals, true);
      hide Send;
    }
  }

  /** The turns of a user that succeed if they are allowed, up to a lookup that raises. */
  function Attempts(turns: seq<Turn>, user: UserId): nat {
    if turns == [] then 0 else
      Attempts(turns[..|turns| - 1], user)
      + if !Broken(turns) && turns[|turns| - 1].user == user && !turns[|turns| - 1].outcome.Unsent? then 1 else 0
  }

  function Min(a: nat, b: nat): nat { if a < b then a else b }

  /** The user's own turns: within one day, and nothing fails between sending and counting. */
  ghost predicate Within(turns: seq<Turn>, user: UserId, day: Period) {
    forall i :: 0 <= i < |turns| && turns[i].user == user ==>
      turns[i].before.day == day && turns[i].after.day == day && !turns[i].outcome.Uncounted?
  }

  lemma SendWithin(r: Result, turn: Turn, referrals: UserId -> nat, user: UserId, clock: Clock)
    requires Within([turn], user, clock.day)
    ensures var next := Send(r, turn, referrals, true);
      var used := Shown(r.table, user, Notifications, clock);
      var more := if !r.raised && turn.lookup.Answers? && turn.user == user && !turn.outcome.Unsent? && used < NotificationLimit(referrals(user)) then 1 else 0;
      Shown(next.table, user, Notifications, clock) == used + more && Times(next.delivered, user) == Times(r.delivered, user) + more
  {
    assert [turn][0] == turn;
    SendShows(r, turn, referrals, true, user, clock);
    SameDay(r.table, turn.user, turn.before, clock);
    SendTells(r, turn, referrals, true);
    TimesMore(r.delivered, turn.user, user);
    hide Shown, Send, Times;
  }

  /** Within one day, with none of the user's own turns lost between sending and counting, the user receives
      exactly the attempts, up to what the limit leaves, and the counter grows by as many. */
  lemma {:induction false} SentExactly(table: Table, turns: seq<Turn>, referrals: UserId -> nat, user: UserId, clock: Clock)
    requires Within(turns, user, clock.day)
    ensures var r := SendAll(table, turns, referrals, true);
      var (used, limit) := (Shown(table, user, Notifications, clock), NotificationLimit(referrals(user)));
      && Times(r.delivered, user) == Min(Attempts(turns, user), if used < limit then limit - used else 0)
      && Shown(r.table, user, Notifications, clock) == used + Times(r.delivered, user)
  {
    hide Shown, Send, NotificationLimit;
    if turns != [] {
      var r, turn := SendAll(table, turns[..|turns| - 1], referrals, true), turns[|turns| - 1];
      SentExactly(table, turns[..|turns| - 1], referrals, user, clock);
      SendWithin(r, turn, referrals, user, clock);
      RaisedExactly(table, turns[..|turns| - 1], referrals);
      assert !Broken(turns) <==> !Broken(turns[..|turns| - 1]) && turn.lookup.Answers?;
    }
  }

  /** Whatever fails and whoever is listed: what is reported as sent is what was received, less the allowed
      turns that failed behind the sending. */
  lemma {:induction false} ReportedExactly(table: Table, turns: seq<Turn>, referrals: UserId -> nat, enforce: bool)
    ensures var r := SendAll(table, turns, referrals, enforce);
      r.sent + LostInAll(table, turns, referrals, enforce) == |r.delivered|
  {
    hide Send, Reached;
    if turns != [] {
      ReportedExactly(table, turns[..|turns| - 1], referrals, enforce);
      SendTells(SendAll(table, turns[..|turns| - 1], referrals, enforce), turns[|turns| - 1], referrals, enforce);
    }
  }

  function LostInAll(table: Table, turns: seq<Turn>, referrals: UserId -> nat, enforce: bool): nat {
    if turns == [] then 0 else
      var turn := turns[|turns| - 1];
      var before := SendAll(table, turns[..|turns| - 1], referrals, enforce);
      LostInAll(table, turns[..|turns| - 1], referrals, enforce)
      + if turn.outcome.Uncounted? && Reached(before, turn, referrals, enforce) then 1 else 0
  }

  /** A message whose counting fails is sent and not counted: with it the limit does not hold for what is
      received. */
  lemma {:induction false} UncountedEscape(user: UserId, clock: Clock, n: nat, referrals: UserId -> nat)
    ensures var r := SendAll(map[], seq(n, _ => Turn(user, Answers, clock, clock, Uncounted(false))), referrals, true);
      !r.raised && Times(r.delivered, user) == n && Shown(r.table, user, Notifications, clock) == 0
  {
    if n > 0 {
      var turn := Turn(user, Answers, clock, clock, Uncounted(false));
      var turns := seq(n, _ => turn);
      UncountedEscape(user, clock, n - 1, referrals);
      assert turns[..n - 1] == seq(n - 1, _ => turn);
      var r := SendAll(map[], turns[..n - 1], referrals, true);
      SendShows(r, turn, referrals, true, user, clock);
      SendTells(r, turn, referrals, true);
      TimesMore(r.delivered, user, user);
      hide Shown, Send, Times;
    }
  }

  /** The user's turns that were allowed and whose recording or counting then failed. */
  function Lost(table: Table, turns: seq<Turn>, referrals: UserId -> nat, enforce: bool, user: UserId): nat {
    if turns == [] then 0 else
      var turn := turns[|turns| - 1];
      var before := SendAll(table, turns[..|turns| - 1], referrals, enforce);
      Lost(table, turns[..|turns| - 1], referrals, enforce, user)
      + if turn.user == user && turn.outcome.Uncounted? && Reached(before, turn, referrals, enforce) then 1 else 0
  }

  /** Within one day, limits enforced or not, the counter grows by exactly what is received if and only if
      no allowed turn of the user failed behind the sending; otherwise it falls short by those. */
  lemma {:induction false} CountedExactly(table: Table, turns: seq<Turn>, referrals: UserId -> nat, enforce: bool, user: UserId, clock: Clock)
    requires forall i :: 0 <= i < |turns| ==> turns[i].before.day == clock.day && turns[i].after.day == clock.day
    ensures var r := SendAll(table, turns, referrals, enforce);
      var lost := Lost(table, turns, referrals, enforce, user);
      && Shown(r.table, user, Notifications, clock) + lost == Shown(table, user, Notifications, clock) + Times(r.delivered, user)
      && (Shown(r.table, user, Notifications, clock) == Shown(table, user, Notifications, clock) + Times(r.delivered, user) <==> lost == 0)
  {
    hide Shown;
    if turns != [] {
      var r, turn := SendAll(table, turns[..|turns| - 1], referrals, enforce), turns[|turns| - 1];
      CountedExactly(table, turns[..|turns| - 1], referrals, enforce, user, clock);
      SendShows(r, turn, referrals, enforce, user, clock);
      SendTells(r, turn, referrals, enforce);
      TimesMore(r.delivered, turn.user, user);
      hide Send, Times, Allowed;
    }
  }
}
