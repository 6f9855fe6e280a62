/** A conversation as readable lines, newest exchange first, cut into pages
    (astrbot/core/conversation_mgr.py). The text of a record is taken as given. */
module HistoryPages {
  import opened Selections
  import opened Wrappers

  /** An assistant record may have content, tool calls, both or neither; records of other roles are skipped. */
  datatype Record = User(content: string) | Assistant(content: string, toolCalls: Option<string>) | Other

  const CALL := "[函数调用] "
  const UNKNOWN := "[未知的内容]"

  function Line(r: Record): string
    requires !r.Other?
  {
    match r
    case User(content) => "User: " + content
    case Assistant(content, toolCalls) =>
      if content != "" then "Assistant: " + content
      else if toolCalls.Some? then "Assistant: " + CALL + toolCalls.value
      else "Assistant: " + UNKNOWN
  }

  /** The lines of a history, in its own order. */
  function Lines(history: seq<Record>): seq<string> {
    if history == [] then [] else
      Lines(history[..|history| - 1]) + if history[|history| - 1].Other? then [] else [Line(history[|history| - 1])]
  }

  function Flatten(groups: seq<seq<string>>): seq<string> {
    if groups == [] then [] else groups[0] + Flatten(groups[1..])
  }

  function Reversed(groups: seq<seq<string>>): seq<seq<string>> {
    if groups == [] then [] else Reversed(groups[1..]) + [groups[0]]
  }

  /** The exchanges, newest first, each ending with an assistant record; and what no assistant has answered
      yet. */
  function Grouped(history: seq<Record>): (seq<seq<string>>, seq<string>) {
    if history == [] then ([], []) else
      var (groups, pending) := Grouped(history[..|history| - 1]);
      match history[|history| - 1]
      case User(_) => (groups, pending + [Line(history[|history| - 1])])
      case Assistant(_, _) => ([pending + [Line(history[|history| - 1])]] + groups, [])
      case Other => (groups, pending)
  }

  function Contexts(history: seq<Record>): seq<string> { Flatten(Grouped(history).0) }

  /** A slice bound: counted from the end if negative, and never outside. */
  function Bound(i: int, n: nat): (b: nat)
    ensures b <= n
  {
    if i < 0 then (if i + n < 0 then 0 else i + n) else if i > n then n else i
  }

  function Slice(s: seq<string>, lo: int, hi: int): seq<string> {
    var (a, b) := (Bound(lo, |s|), Bound(hi, |s|));
    if a <= b then s[a..b] else []
  }

  /** Integer division rounding down. */
  function FloorDiv(n: nat, d: int): int
    requires d != 0
  {
    if d > 0 then n / d else -((n + (-d) - 1) / (-d))
  }

  function Page(s: seq<string>, page: int, pageSize: int): seq<string> { Slice(s, (page - 1) * pageSize, page * pageSize) }

  function TotalPages(n: nat, pageSize: int): int
    requires pageSize != 0
  {
    FloorDiv(n, pageSize) + if n % pageSize != 0 then 1 else 0
  }

  /** A missing conversation has no pages; None stands for the ZeroDivisionError of an empty page. */
  method GetHumanReadableContext(conversation: Option<seq<Record>>, page: int, pageSize: int)
    returns (r: Option<(seq<string>, int)>)
    ensures conversation.None? ==> r == Some(([], 0))
    ensures conversation.Some? ==>
      r == if pageSize == 0 then None
           else Some((Page(Contexts(conversation.value), page, pageSize), TotalPages(|Contexts(conversation.value)|, pageSize)))
  {
    hide Page, FloorDiv, Line, Flatten;
    if conversation.None? {
      return Some(([], 0));
    }
    var history := conversation.value;
    var contextsGroups, tempContexts: seq<string> := [], [];
    for i := 0 to |history|
      invariant (contextsGroups, tempContexts) == Grouped(history[..i])
    {
      assert history[..i + 1][..i] == history[..i];
      var record := history[i];
      if record.User? {
        tempContexts := tempContexts + [Line(record)];
      } else if record.Assistant? {
        tempContexts := tempContexts + [Line(record)];
        contextsGroups := [tempContexts] + contextsGroups;
        tempContexts := [];
      }
    }
    assert history[..|history|] == history;
    var contexts := Flatten(contextsGroups);
    if pageSize == 0 {
      return None;
    }
    var paged := Page(contexts, page, pageSize);
    var totalPages := FloorDiv(|contexts|, pageSize);
    if |contexts| % pageSize != 0 {
      totalPages := totalPages + 1;
    }
    assert totalPages == TotalPages(|contexts|, pageSize);
    return Some((paged, totalPages));
  }

  // ----- nothing is lost but what is unanswered

  lemma {:induction false} FlattenAppend(a: seq<seq<string>>, b: seq<seq<string>>)
    ensures Flatten(a + b) == Flatten(a) + Flatten(b)
  {
    if a == [] {
      assert a + b == b;
    } else {
      assert (a + b)[1..] == a[1..] + b;
      FlattenAppend(a[1..], b);
    }
  }

  /** The groups put back in order, and then the unanswered lines, are the lines of the history. */
  lemma {:induction false} GroupsCover(history: seq<Record>)
    ensures Flatten(Reversed(Grouped(history).0)) + Grouped(history).1 == Lines(history)
  {
    if history != [] {
      var front, last := history[..|history| - 1], history[|history| - 1];
      GroupsCover(front);
      if last.Assistant? {
        var (groups, pending) := Grouped(front);
        var group := pending + [Line(last)];
        assert ([group] + groups)[1..] == groups;
        FlattenAppend(Reversed(groups), [group]);
        assert Flatten([group]) == group;
      }
    }
  }

  /** The unanswered lines are those behind the last assistant record. */
  lemma {:induction false} PendingExactly(history: seq<Record>) returns (j: nat)
    ensures j <= |history| && (j > 0 ==> history[j - 1].Assistant?)
    ensures forall i :: j <= i < |history| ==> !history[i].Assistant?
    ensures Grouped(history).1 == Lines(history[j..])
  {
    j := 0;
    if history != [] {
      var front, last := history[..|history| - 1], history[|history| - 1];
      if last.Assistant? {
        j := |history|;
      } else {
        j := PendingExactly(front);
        assert history[j..][..|history[j..]| - 1] == front[j..];
      }
    }
  }

  // ----- the pages make up the whole

  function FirstPages(s: seq<string>, pageSize: nat, n: nat): seq<string> {
    if n == 0 then [] else FirstPages(s, pageSize, n - 1) + Page(s, n, pageSize)
  }

  lemma {:induction false} PagesAreAPrefix(s: seq<string>, pageSize: nat, n: nat)
    requires pageSize > 0
    ensures FirstPages(s, pageSize, n) == s[..Bound(n * pageSize, |s|)]
  {
    if n > 0 {
      PagesAreAPrefix(s, pageSize, n - 1);
      PageIs(s, pageSize, n);
    }
  }

  lemma PageIs(s: seq<string>, pageSize: nat, n: nat)
    requires pageSize > 0 && n > 0
    ensures 0 <= (n - 1) * pageSize && n * pageSize == (n - 1) * pageSize + pageSize
    ensures Bound((n - 1) * pageSize, |s|) <= Bound(n * pageSize, |s|)
    ensures Page(s, n, pageSize) == s[Bound((n - 1) * pageSize, |s|)..Bound(n * pageSize, |s|)]
  {
    Times(n - 1, pageSize);
  }

  lemma Times(m: nat, d: nat)
    ensures 0 <= m * d && (m + 1) * d == m * d + d
  {
  }

  lemma TotalIsCeiling(n: nat, d: nat)
    requires d > 0
    ensures var t := TotalPages(n, d);
      t >= 0 && n <= t * d && (t > 0 ==> (t - 1) * d < n)
  {
    var q := n / d;
    assert n == q * d + n % d;
    Times(q, d);
  }

  /** Pages 1 to the total, put together, are all the lines; every page has between one line and a page full
      of them, all but the last are full, and behind the last there is nothing. */
  lemma PagesExactly(history: seq<Record>, pageSize: nat, page: nat)
    requires pageSize > 0 && page > 0
    ensures var s := Contexts(history);
      var total := TotalPages(|s|, pageSize);
      && total >= 0
      && FirstPages(s, pageSize, total) == s
      && (page < total ==> |Page(s, page, pageSize)| == pageSize)
      && (page == total ==> 0 < |Page(s, page, pageSize)| <= pageSize)
      && (page > total ==> Page(s, page, pageSize) == [])
  {
    hide Contexts, TotalPages, FirstPages, Page, Slice, FloorDiv;
    var s := Contexts(history);
    var total := TotalPages(|s|, pageSize);
    TotalIsCeiling(|s|, pageSize);
    PagesAreAPrefix(s, pageSize, total);
    PageIs(s, pageSize, page);
    if page < total {
      Monotone(page, total - 1, pageSize);
    } else if page > total {
      Monotone(total, page - 1, pageSize);
    }
  }

  lemma Monotone(m: nat, n: nat, d: nat)
    requires m <= n
    ensures m * d <= n * d
  {
  }

  // ----- lines and slices, told without the functions that make them

  /** The line of a user or assistant record. */
  ghost predicate LineIs(r: Record, line: string) {
    && (r.User? ==> line == "User: " + r.content)
    && (r.Assistant? && r.content != "" ==> line == "Assistant: " + r.content)
    && (r.Assistant? && r.content == "" && r.toolCalls.Some? ==> line == "Assistant: [函数调用] " + r.toolCalls.value)
    && (r.Assistant? && r.content == "" && r.toolCalls.None? ==> line == "Assistant: [未知的内容]")
  }

  /** The lines of a history: one for each user or assistant record, in its order. */
  lemma {:induction false} LinesTell(history: seq<Record>) returns (at: seq<nat>)
    ensures Ascends(at, |history|) && |Lines(history)| == |at|
    ensures forall k :: 0 <= k < |at| ==> LineIs(history[at[k]], Lines(history)[k])
    ensures forall i: nat :: i in at <==> i < |history| && !history[i].Other?
  {
    at := [];
    if history != [] {
      var n := |history| - 1;
      var front, last := history[..n], history[n];
      var before := LinesTell(front);
      assert history == front + [last];
      if last.Other? {
        at := before;
        assert Lines(history) == Lines(front);
      } else {
        at := before + [n];
        LineTells(last);
        assert Lines(history) == Lines(front) + [Line(last)];
      }
      hide *;
    }
  }

  lemma LineTells(r: Record)
    requires !r.Other?
    ensures LineIs(r, Line(r))
  {
  }

  /** Python's slice: the positions from lo on and before hi, a negative one counted from the end. */
  lemma SliceTells(s: seq<string>, lo: int, hi: int) returns (at: seq<nat>)
    ensures Picked(s, Slice(s, lo, hi), at)
    ensures forall i: nat :: i in at <==>
      i < |s| && (if lo >= 0 then i >= lo else i - |s| >= lo) && (if hi >= 0 then i < hi else i - |s| < hi)
  {
    var a, b := Bound(lo, |s|), Bound(hi, |s|);
    at := if a <= b then seq(b - a, k requires 0 <= k < b - a => (a + k) as nat) else [];
    forall i: nat
      ensures i in at <==> a <= i < b
    {
      if a <= i < b {
        assert at[i - a] == i;
      }
    }
  }

  /** The page is the slice between the two multiples, for any page and size; and the number of pages is the
      quotient rounded up, for a negative size too. */
  lemma PageTells(s: seq<string>, page: int, pageSize: int) returns (at: seq<nat>)
    requires pageSize != 0
    ensures Picked(s, Page(s, page, pageSize), at)
    ensures var (lo, hi, n) := ((page - 1) * pageSize, page * pageSize, |s|);
      forall i: nat :: i in at <==> i < n && (if lo >= 0 then i >= lo else i - n >= lo) && (if hi >= 0 then i < hi else i - n < hi)
    ensures var (t, n) := (TotalPages(|s|, pageSize), |s|);
      if pageSize > 0 then (t - 1) * pageSize < n <= t * pageSize else t * pageSize <= n < (t - 1) * pageSize
  {
    at := SliceTells(s, (page - 1) * pageSize, page * pageSize);
    RoundedUp(|s|, pageSize);
    hide *;
  }

  lemma RoundedUp(n: nat, d: int)
    requires d != 0
    ensures var t := TotalPages(n, d);
      if d > 0 then (t - 1) * d < n <= t * d else t * d <= n < (t - 1) * d
  {
    var t := TotalPages(n, d);
    if d > 0 {
      TotalIsCeiling(n, d);
      Products(t, d);
    } else {
      var e, m := -d, n / -d;
      NegativeDivisor(n, e);
      assert t == -m;
      hide *;
      Products(m, e);
      Opposite(m, e);
    }
  }

  lemma Products(t: int, d: int)
    ensures (t - 1) * d == t * d - d && (t + 1) * d == t * d + d && 0 * d == 0
  {
  }

  lemma Opposite(m: int, e: int)
    ensures -m * -e == m * e && (-m - 1) * -e == (m + 1) * e
  {
  }

  /** Division by -e, where e divides n or not. */
  lemma NegativeDivisor(n: nat, e: int)
    requires e > 0
    ensures n / e * e <= n < n / e * e + e && TotalPages(n, -e) == -(n / e)
  {
    var m, r := n / e, n % e;
    assert n == m * e + r;
    assert n % -e == r;
    Quotient(m, r, e);
  }

  lemma Quotient(m: nat, r: nat, e: nat)
    requires r < e
    ensures (m * e + r + e - 1) / e == if r == 0 then m else m + 1
  {
    var x := m * e + r + e - 1;
    var q := if r == 0 then m else m + 1;
    Products(m, e);
    assert q * e <= x < q * e + e;
    Divides(x, q, e);
  }

  lemma Divides(x: nat, q: nat, e: nat)
    requires e > 0 && q * e <= x < q * e + e
    ensures x / e == q
  {
    var r := x - q * e;
    assert x / e * e + x % e == x;
    Products(q, e);
    if x / e < q {
      Monotone(x / e + 1, q, e);
      Products(x / e, e);
    } else if x / e > q {
      Monotone(q + 1, x / e, e);
    }
  }

  // ----- the exchanges

  function StartOf(ends: seq<nat>, k: nat): nat
    requires k < |ends|
  {
    if k == 0 then 0 else ends[k - 1] + 1
  }

  /** One exchange for each assistant record, the newest first: the lines behind the one before, up to it. */
  ghost predicate ExchangesAre(history: seq<Record>, groups: seq<seq<string>>, ends: seq<nat>) {
    && Ascends(ends, |history|) && |groups| == |ends|
    && (forall i: nat :: i in ends <==> i < |history| && history[i].Assistant?)
    && forall k: nat :: k < |ends| ==> ExchangeIs(history, groups, ends, k)
  }

  ghost predicate ExchangeIs(history: seq<Record>, groups: seq<seq<string>>, ends: seq<nat>, k: nat)
    requires k < |ends| == |groups|
  {
    StartOf(ends, k) <= ends[k] + 1 <= |history| && groups[|ends| - 1 - k] == Lines(history[StartOf(ends, k)..ends[k] + 1])
  }

  /** The end of the last exchange. */
  function Answered(ends: seq<nat>): nat { if ends == [] then 0 else ends[|ends| - 1] + 1 }

  lemma ExchangeStays(history: seq<Record>, groups: seq<seq<string>>, ends: seq<nat>, k: nat, last: Record,
                      front: seq<seq<string>>, more: seq<nat>)
    requires k < |ends| == |groups| && |front| == |more| && ExchangeIs(history, groups, ends, k)
    ensures ExchangeIs(history + [last], front + groups, ends + more, k)
  {
    assert (history + [last])[StartOf(ends, k)..ends[k] + 1] == history[StartOf(ends, k)..ends[k] + 1];
    hide Lines;
  }

  lemma ExchangesSame(history: seq<Record>, groups: seq<seq<string>>, ends: seq<nat>, last: Record)
    requires ExchangesAre(history, groups, ends) && !last.Assistant?
    ensures ExchangesAre(history + [last], groups, ends)
  {
    hide ExchangeIs;
    assert ends + [] == ends && [] + groups == groups;
    forall k: nat | k < |ends|
      ensures ExchangeIs(history + [last], groups, ends, k)
    {
      ExchangeStays(history, groups, ends, k, last, [], []);
    }
  }

  lemma ExchangesMore(history: seq<Record>, groups: seq<seq<string>>, ends: seq<nat>, last: Record)
    requires ExchangesAre(history, groups, ends) && last.Assistant? && Answered(ends) <= |history|
    ensures ExchangesAre(history + [last], [Lines((history + [last])[Answered(ends)..])] + groups, ends + [|history|])
  {
    var all, more, n := history + [last], ends + [|history|], |ends|;
    var next := [Lines(all[Answered(ends)..])] + groups;
    LastExchange(history, groups, ends, last);
    hide ExchangeIs, Lines;
    forall k: nat | k < |more|
      ensures ExchangeIs(all, next, more, k)
    {
      if k < n {
        ExchangeStays(history, groups, ends, k, last, [Lines(all[Answered(ends)..])], [|history|]);
      }
    }
    EndsMore(history, ends, last);
  }

  lemma LastExchange(history: seq<Record>, groups: seq<seq<string>>, ends: seq<nat>, last: Record)
    requires |groups| == |ends| && Answered(ends) <= |history|
    ensures ExchangeIs(history + [last], [Lines((history + [last])[Answered(ends)..])] + groups, ends + [|history|], |ends|)
  {
    var all := history + [last];
    assert all[Answered(ends)..|history| + 1] == all[Answered(ends)..];
    hide Lines;
  }

  lemma EndsMore(history: seq<Record>, ends: seq<nat>, last: Record)
    requires Ascends(ends, |history|) && last.Assistant?
    requires forall i: nat :: i in ends <==> i < |history| && history[i].Assistant?
    ensures Ascends(ends + [|history|], |history + [last]|)
    ensures forall i: nat :: i in ends + [|history|] <==> i < |history + [last]| && (history + [last])[i].Assistant?
  {
  }

  /** The exchanges that make up the pages, and the lines that no assistant has answered. */
  lemma {:induction false} ExchangesTell(history: seq<Record>) returns (ends: seq<nat>)
    ensures ExchangesAre(history, Grouped(history).0, ends) && Answered(ends) <= |history|
    ensures Grouped(history).1 == Lines(history[Answered(ends)..])
  {
    ends := [];
    if history != [] {
      var n := |history| - 1;
      var front, last := history[..n], history[n];
      var before := ExchangesTell(front);
      assert history == front + [last];
      UnansweredMore(front, last, Answered(before));
      if last.Assistant? {
        ends := before + [n];
        ExchangesMore(front, Grouped(front).0, before, last);
        assert history[Answered(ends)..] == [];
      } else {
        ends := before;
        ExchangesSame(front, Grouped(front).0, before, last);
      }
      hide ExchangesAre, Lines;
    }
  }

  lemma UnansweredMore(history: seq<Record>, last: Record, m: nat)
    requires m <= |history|
    ensures Lines((history + [last])[m..]) == Lines(history[m..]) + if last.Other? then [] else [Line(last)]
  {
    var rest := (history + [last])[m..];
    assert rest == history[m..] + [last] && rest[..|rest| - 1] == history[m..];
  }

  /** All lines of the pages: those of the exchanges, one exchange behind the other. */
  lemma ContextsTell(history: seq<Record>) returns (ends: seq<nat>, groups: seq<seq<string>>)
    ensures ExchangesAre(history, groups, ends)
    ensures Contexts(history) == Flatten(groups)
  {
    ends := ExchangesTell(history);
    groups := Grouped(history).0;
  }
}
