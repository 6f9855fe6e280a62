/** Merging duplicate statistics rows before a backup is imported (astrbot/core/backup/importer.py).
    Rows are objects: the index by key and the result list share the ones they hold, so raising a count
    through the index is seen in the list. What Python's library does with a single cell (parsing a
    time, converting to int or str) is a parameter. */
module PlatformStats {
  import opened Selections
  import opened Wrappers

  /** A cell of an incoming row; Absent stands for a missing column, Other for any other object. */
  datatype Cell = Absent | Null | Text(text: string) | Number(n: int) | Moment(instant: int) | Other(id: int)

  datatype RawRow = RawRow(timestamp: Cell, platformId: Cell, platformType: Cell, count: Cell, extra: map<string, Cell>)

  datatype Library = Library(
    normalize: Cell -> Option<string>,  // the UTC ISO form, None if there is none
    str: Cell -> string,
    strip: string -> string,
    toInt: Cell -> Option<int>)         // None where int() raises TypeError or ValueError

  datatype Key = Key(timestamp: string, platformId: string, platformType: string)

  datatype Values = Values(timestamp: string, platformId: Cell, platformType: Cell, count: int, extra: map<string, Cell>)

  datatype Entry = Entry(key: Option<Key>, row: Values)

  class Row {
    const timestamp: string
    const platformId: Cell
    const platformType: Cell
    const extra: map<string, Cell>
    var count: int

    constructor (timestamp: string, raw: RawRow, count: int)
      ensures Value() == Values(timestamp, raw.platformId, raw.platformType, count, raw.extra)
    {
      this.timestamp, this.platformId, this.platformType := timestamp, raw.platformId, raw.platformType;
      this.extra, this.count := raw.extra, count;
    }

    function Value(): Values
      reads this
    {
      Values(timestamp, platformId, platformType, count, extra)
    }
  }

  // ----- warnings about invalid counts

  datatype Warning = InvalidCount | FurtherSuppressed

  function Times(n: nat): seq<Warning> { seq(n, _ => InvalidCount) }

  /** What is logged over n invalid counts: up to the limit, and once that the rest is suppressed. */
  function LogAfter(limit: int, n: nat): seq<Warning> {
    if limit <= 0 then (if n == 0 then [] else [FurtherSuppressed])
    else if n < limit then Times(n) else Times(limit) + [FurtherSuppressed]
  }

  class InvalidCountWarnLimiter {
    const limit: int
    var count: nat
    var suppressionLogged: bool
    var log: seq<Warning>

    /** The state after n invalid counts. */
    ghost predicate After(n: nat)
      reads this
    {
      && count == (if limit <= 0 then 0 else if n < limit then n else limit)
      && suppressionLogged == (if limit <= 0 then n > 0 else n >= limit)
      && log == LogAfter(limit, n)
    }

    constructor (limit: int)
      ensures this.limit == limit && After(0)
    {
      this.limit, count, suppressionLogged, log := limit, 0, false, [];
    }

    method WarnInvalidCount(ghost n: nat)
      requires After(n)
      modifies this
      ensures After(n + 1)
    {
      if limit > 0 {
        if count < limit {
          log := log + [InvalidCount];
          count := count + 1;
          if count == limit && !suppressionLogged {
            log := log + [FurtherSuppressed];
            suppressionLogged := true;
          }
        }
        return;
      }
      if !suppressionLogged {
        log := log + [FurtherSuppressed];
        suppressionLogged := true;
      }
    }
  }

  /** The log over n invalid counts: each of the first ones, up to the limit, and one line about all others as
      soon as the limit is used up; with no positive limit that line alone. */
  lemma LogTells(limit: int, n: nat)
    ensures var (log, shown) := (LogAfter(limit, n), if limit <= 0 then 0 else if n < limit then n else limit);
      var suppressed := if limit <= 0 then n > 0 else n >= limit;
      && |log| == shown + (if suppressed then 1 else 0)
      && (forall i :: 0 <= i < shown ==> log[i] == InvalidCount)
      && (suppressed ==> log[shown] == FurtherSuppressed)
  {
  }

  // ----- one row

  function TimestampOf(lib: Library, cell: Cell): string {
    match lib.normalize(cell)
    case Some(time) => time
    case None =>
      match cell
      case Text(text) => lib.strip(text)
      case Null | Absent => ""
      case _ => lib.str(cell)
  }

  function RawCount(cell: Cell): Cell { if cell.Absent? then Number(0) else cell }

  function CountOf(lib: Library, cell: Cell): int {
    match lib.toInt(RawCount(cell)) case Some(n) => n case None => 0
  }

  function KeyOf(lib: Library, raw: RawRow): Option<Key> {
    if lib.normalize(raw.timestamp).Some? && raw.platformId.Text? && raw.platformType.Text?
    then Some(Key(lib.normalize(raw.timestamp).value, raw.platformId.text, raw.platformType.text))
    else None
  }

  /** A row as it is first stored, with the key under which it may be merged. */
  function Normal(lib: Library, raw: RawRow): Entry {
    Entry(KeyOf(lib, raw), Values(TimestampOf(lib, raw.timestamp), raw.platformId, raw.platformType, CountOf(lib, raw.count), raw.extra))
  }

  /** The invalid counts: as many as there are rows whose count cannot be converted. */
  lemma {:induction false} InvalidTells(lib: Library, rows: seq<RawRow>) returns (at: seq<nat>)
    ensures Ascends(at, |rows|) && Invalid(lib, rows) == |at|
    ensures forall i: nat :: i in at <==>
      i < |rows| && lib.toInt(if rows[i].count.Absent? then Number(0) else rows[i].count).None?
  {
    at := [];
    if rows != [] {
      var n := |rows| - 1;
      var before := InvalidTells(lib, rows[..n]);
      at := before + if lib.toInt(RawCount(rows[n].count)).None? then [n] else [];
    }
  }

  /** The columns of a stored row: the time in its normal form, or what can be said of it; the platform as it
      was; the count converted, a missing one counting as 0 like one that cannot be; all others kept. */
  ghost predicate RowIs(lib: Library, raw: RawRow, row: Values) {
    && row.platformId == raw.platformId && row.platformType == raw.platformType && row.extra == raw.extra
    && (lib.normalize(raw.timestamp).Some? ==> row.timestamp == lib.normalize(raw.timestamp).value)
    && (lib.normalize(raw.timestamp).None? && raw.timestamp.Text? ==> row.timestamp == lib.strip(raw.timestamp.text))
    && (lib.normalize(raw.timestamp).None? && (raw.timestamp.Null? || raw.timestamp.Absent?) ==> row.timestamp == "")
    && (lib.normalize(raw.timestamp).None? && (raw.timestamp.Number? || raw.timestamp.Moment? || raw.timestamp.Other?) ==>
          row.timestamp == lib.str(raw.timestamp))
    && var count := lib.toInt(if raw.count.Absent? then Number(0) else raw.count);
      row.count == if count.Some? then count.value else 0
  }

  /** A row may be merged if its time and platform can be told. */
  ghost predicate KeyIs(lib: Library, raw: RawRow, key: Option<Key>) {
    && (key.Some? <==> lib.normalize(raw.timestamp).Some? && raw.platformId.Text? && raw.platformType.Text?)
    && (key.Some? ==> key.value == Key(lib.normalize(raw.timestamp).value, raw.platformId.text, raw.platformType.text))
  }

  lemma RowTells(lib: Library, raw: RawRow)
    ensures RowIs(lib, raw, Normal(lib, raw).row) && KeyIs(lib, raw, Normal(lib, raw).key)
  {
  }

  function Normals(lib: Library, rows: seq<RawRow>): (r: seq<Entry>)
    ensures |r| == |rows| && forall i :: 0 <= i < |r| ==> r[i] == Normal(lib, rows[i])
  {
    seq(|rows|, i requires 0 <= i < |rows| => Normal(lib, rows[i]))
  }

  function Invalid(lib: Library, rows: seq<RawRow>): nat {
    if rows == [] then 0 else
      Invalid(lib, rows[..|rows| - 1]) + if lib.toInt(RawCount(rows[|rows| - 1].count)).None? then 1 else 0
  }

  method NormalizeEntry(lib: Library, raw: RawRow, limiter: InvalidCountWarnLimiter, ghost n: nat)
    returns (row: Row, timestamp: Option<string>, count: int)
    requires limiter.After(n)
    modifies limiter
    ensures fresh(row) && row.Value() == Normal(lib, raw).row
    ensures timestamp == lib.normalize(raw.timestamp) && count == row.count
    ensures limiter.After(n + if lib.toInt(RawCount(raw.count)).None? then 1 else 0)
    ensures RowIs(lib, raw, row.Value())
  {
    RowTells(lib, raw);
    timestamp := lib.normalize(raw.timestamp);
    var converted := lib.toInt(RawCount(raw.count));
    if converted.None? {
      limiter.WarnInvalidCount(n);
      count := 0;
    } else {
      count := converted.value;
    }
    row := new Row(TimestampOf(lib, raw.timestamp), raw, count);
  }

  // ----- all rows

  predicate HasKey(es: seq<Entry>, k: Key) { exists i :: 0 <= i < |es| && es[i].key == Some(k) }

  function IndexOf(es: seq<Entry>, k: Key): (i: nat)
    requires HasKey(es, k)
    ensures i < |es| && es[i].key == Some(k)
  {
    if es[0].key == Some(k) then 0 else
      assert HasKey(es[1..], k) by {
        var i :| 0 <= i < |es| && es[i].key == Some(k);
        assert es[1..][i - 1] == es[i];
      }
      1 + IndexOf(es[1..], k)
  }

  function Raise(e: Entry, count: int): Entry { e.(row := e.row.(count := e.row.count + count)) }

  /** One more row: appended, or counted into the row already there for its key. */
  function Add(es: seq<Entry>, e: Entry): seq<Entry> {
    if e.key.None? || !HasKey(es, e.key.value) then es + [e]
    else var i := IndexOf(es, e.key.value); es[i := Raise(es[i], e.row.count)]
  }

  function MergeAll(es: seq<Entry>): seq<Entry> {
    if es == [] then [] else Add(MergeAll(es[..|es| - 1]), es[|es| - 1])
  }

  ghost predicate Lists(result: seq<Row>, es: seq<Entry>)
    reads result
  {
    |result| == |es| && forall j :: 0 <= j < |result| ==> result[j].Value() == es[j].row
  }

  ghost predicate Indexes(merged: map<Key, Row>, result: seq<Row>, es: seq<Entry>) {
    && |result| == |es|
    && (forall j :: 0 <= j < |es| && es[j].key.Some? ==> es[j].key.value in merged && merged[es[j].key.value] == result[j])
    && (forall k :: k in merged ==> HasKey(es, k))
  }

  ghost predicate Apart(result: seq<Row>) {
    forall i, j :: 0 <= i < j < |result| ==> result[i] != result[j]
  }

  lemma OneMore(lib: Library, rows: seq<RawRow>, i: nat)
    requires i < |rows|
    ensures MergeAll(Normals(lib, rows[..i + 1])) == Add(MergeAll(Normals(lib, rows[..i])), Normal(lib, rows[i]))
    ensures Invalid(lib, rows[..i + 1]) == Invalid(lib, rows[..i]) + if lib.toInt(RawCount(rows[i].count)).None? then 1 else 0
  {
    assert rows[..i + 1][..i] == rows[..i];
    assert Normals(lib, rows[..i + 1])[..i] == Normals(lib, rows[..i]);
  }

  lemma Appended(merged: map<Key, Row>, result: seq<Row>, es: seq<Entry>, row: Row, e: Entry)
    requires Indexes(merged, result, es)
    ensures e.key.None? ==> Indexes(merged, result + [row], es + [e])
    ensures e.key.Some? && e.key.value !in merged ==>
      !HasKey(es, e.key.value) && Indexes(merged[e.key.value := row], result + [row], es + [e])
  {
    var fs := es + [e];
    assert forall k :: HasKey(es, k) ==> HasKey(fs, k) by {
      forall k | HasKey(es, k) ensures HasKey(fs, k) {
        var i :| 0 <= i < |es| && es[i].key == Some(k);
        assert fs[i].key == Some(k);
      }
    }
    assert fs[|es|] == e;
  }

  lemma Found(merged: map<Key, Row>, result: seq<Row>, es: seq<Entry>, k: Key, count: int)
    requires Indexes(merged, result, es) && k in merged
    ensures HasKey(es, k) && merged[k] == result[IndexOf(es, k)]
    ensures Indexes(merged, result, es[IndexOf(es, k) := Raise(es[IndexOf(es, k)], count)])
  {
    var i := IndexOf(es, k);
    var fs := es[i := Raise(es[i], count)];
    forall l | l in merged
      ensures HasKey(fs, l)
    {
      var j :| 0 <= j < |es| && es[j].key == Some(l);
      assert fs[j].key == Some(l);
    }
  }

  /** Appends the row, or counts it into the row that has its key. */
  method Place(merged: map<Key, Row>, result: seq<Row>, row: Row, key: Option<Key>, count: int, ghost es: seq<Entry>, ghost e: Entry)
    returns (newMerged: map<Key, Row>, newResult: seq<Row>)
    requires Lists(result, es) && Indexes(merged, result, es) && Apart(result)
    requires row !in result && row.Value() == e.row && key == e.key && count == row.count
    modifies result
    ensures Lists(newResult, Add(es, e)) && Indexes(newMerged, newResult, Add(es, e)) && Apart(newResult)
    ensures newResult == result || newResult == result + [row]
  {
    hide Indexes, IndexOf, HasKey;
    newMerged, newResult := merged, result;
    Appended(merged, result, es, row, e);
    if key.None? {
      newResult := result + [row];
    } else if key.value !in merged {
      newMerged, newResult := merged[key.value := row], result + [row];
    } else {
      Found(merged, result, es, key.value, count);
      merged[key.value].count := merged[key.value].count + count;
    }
  }

  lemma Nothing(lib: Library, rows: seq<RawRow>)
    ensures Lists([], MergeAll(Normals(lib, rows[..0]))) && Apart([]) && Invalid(lib, rows[..0]) == 0
    ensures Indexes(map[], [], MergeAll(Normals(lib, rows[..0])))
  {
  }

  lemma NormalKey(lib: Library, raw: RawRow)
    ensures Normal(lib, raw).key == KeyOf(lib, raw)
    ensures KeyOf(lib, raw) ==
            if lib.normalize(raw.timestamp).None? || !raw.platformId.Text? || !raw.platformType.Text? then None
            else Some(Key(lib.normalize(raw.timestamp).value, raw.platformId.text, raw.platformType.text))
  {
  }

  method MergePlatformStatsRows(lib: Library, rows: seq<RawRow>, warnLimit: int)
    returns (result: seq<Row>, limiter: InvalidCountWarnLimiter)
    ensures fresh(result) && Apart(result)
    ensures Lists(result, MergeAll(Normals(lib, rows)))
    ensures limiter.limit == warnLimit && limiter.After(Invalid(lib, rows))
  {
    hide *;
    var merged: map<Key, Row> := map[];
    result := [];
    Nothing(lib, rows);
    limiter := new InvalidCountWarnLimiter(warnLimit);
    for i := 0 to |rows|
      invariant fresh(result) && Apart(result) && fresh(limiter) && limiter.limit == warnLimit
      invariant limiter.After(Invalid(lib, rows[..i]))
      invariant Lists(result, MergeAll(Normals(lib, rows[..i])))
      invariant Indexes(merged, result, MergeAll(Normals(lib, rows[..i])))
    {
      ghost var es := MergeAll(Normals(lib, rows[..i]));
      OneMore(lib, rows, i);
      var row, timestamp, count := NormalizeEntry(lib, rows[i], limiter, Invalid(lib, rows[..i]));
      assert fresh(result + [row]);
      NormalKey(lib, rows[i]);
      var key :=
        if timestamp.None? || !rows[i].platformId.Text? || !rows[i].platformType.Text? then None
        else Some(Key(timestamp.value, rows[i].platformId.text, rows[i].platformType.text));
      merged, result := Place(merged, result, row, key, count, es, Normal(lib, rows[i]));
    }
    assert rows[..|rows|] == rows;
  }

  // ----- conservation

  function Total(es: seq<Entry>): int {
    if es == [] then 0 else Total(es[..|es| - 1]) + es[|es| - 1].row.count
  }

  /** The counts stored under one key, summed. */
  function SumFor(es: seq<Entry>, k: Key): int {
    if es == [] then 0 else
      SumFor(es[..|es| - 1], k) + if es[|es| - 1].key == Some(k) then es[|es| - 1].row.count else 0
  }

  lemma {:induction false} SumsAfterRaise(es: seq<Entry>, i: nat, count: int, k: Key)
    requires i < |es|
    ensures Total(es[i := Raise(es[i], count)]) == Total(es) + count
    ensures SumFor(es[i := Raise(es[i], count)], k) == SumFor(es, k) + if es[i].key == Some(k) then count else 0
  {
    var fs := es[i := Raise(es[i], count)];
    var n := |es| - 1;
    if i == n {
      assert fs[..n] == es[..n];
    } else {
      SumsAfterRaise(es[..n], i, count, k);
      assert fs[..n] == es[..n][i := Raise(es[i], count)];
    }
  }

  lemma SumsAfterAdd(es: seq<Entry>, e: Entry, k: Key)
    ensures Total(Add(es, e)) == Total(es) + e.row.count
    ensures SumFor(Add(es, e), k) == SumFor(es, k) + if e.key == Some(k) then e.row.count else 0
  {
    assert (es + [e])[..|es|] == es;
    if e.key.Some? && HasKey(es, e.key.value) {
      SumsAfterRaise(es, IndexOf(es, e.key.value), e.row.count, k);
    }
  }

  /** Merging keeps the total count and every key's sum. */
  lemma {:induction false} SumsKept(es: seq<Entry>, k: Key)
    ensures Total(MergeAll(es)) == Total(es)
    ensures SumFor(MergeAll(es), k) == SumFor(es, k)
  {
    hide Add;
    if es != [] {
      SumsKept(es[..|es| - 1], k);
      SumsAfterAdd(MergeAll(es[..|es| - 1]), es[|es| - 1], k);
    }
  }

  // ----- which rows are left

  ghost predicate KeysDistinct(es: seq<Entry>) {
    forall i, j :: 0 <= i < j < |es| && es[i].key.Some? ==> es[i].key != es[j].key
  }

  /** The positions that are not a repetition of an earlier key, in order. */
  function Kept(es: seq<Entry>): seq<nat> {
    if es == [] then [] else
      var n := |es| - 1;
      var e := es[n];
      if e.key.Some? && HasKey(es[..n], e.key.value) then Kept(es[..n]) else Kept(es[..n]) + [n]
  }

  ghost predicate FirstOfKey(es: seq<Entry>, i: nat)
    requires i < |es|
  {
    es[i].key.None? || forall j :: 0 <= j < i ==> es[j].key != es[i].key
  }

  lemma {:induction false} KeptAscends(es: seq<Entry>)
    ensures forall a, b :: 0 <= a < b < |Kept(es)| ==> Kept(es)[a] < Kept(es)[b]
    ensures forall a :: 0 <= a < |Kept(es)| ==> Kept(es)[a] < |es|
  {
    if es != [] {
      KeptAscends(es[..|es| - 1]);
    }
  }

  /** Exactly the rows without a key and the first row of each key. */
  lemma {:induction false} KeptExactly(es: seq<Entry>, i: nat)
    requires i < |es|
    ensures i in Kept(es) <==> FirstOfKey(es, i)
  {
    var n := |es| - 1;
    KeptAscends(es[..n]);
    if i < n {
      KeptExactly(es[..n], i);
      assert FirstOfKey(es, i) <==> FirstOfKey(es[..n], i) by {
        assert forall j :: 0 <= j <= i ==> es[..n][j] == es[j];
      }
    } else {
      assert es[n].key.Some? ==> (HasKey(es[..n], es[n].key.value) <==> !FirstOfKey(es, n)) by {
        assert forall j :: 0 <= j < n ==> es[..n][j] == es[j];
      }
    }
  }

  /** The merged rows are the kept rows, each column but the count as it came. */
  ghost predicate SameButCount(e: Entry, f: Entry) {
    e.key == f.key && e.row == f.row.(count := e.row.count)
  }

  ghost predicate Matches(merged: seq<Entry>, es: seq<Entry>, kept: seq<nat>) {
    && |merged| == |kept|
    && (forall a :: 0 <= a < |kept| ==> kept[a] < |es|)
    && (forall a :: 0 <= a < |kept| ==> SameButCount(merged[a], es[kept[a]]))
    && (forall a :: 0 <= a < |kept| && merged[a].key.None? ==> merged[a].row.count == es[kept[a]].row.count)
  }

  lemma {:induction false} MergedRows(es: seq<Entry>)
    ensures KeysDistinct(MergeAll(es)) && Matches(MergeAll(es), es, Kept(es))
    ensures forall k :: HasKey(MergeAll(es), k) <==> HasKey(es, k)
  {
    hide Add, HasKey, KeysDistinct, Matches;
    if es == [] {
      NothingMerged();
    } else {
      var n := |es| - 1;
      MergedRows(es[..n]);
      AddMatches(MergeAll(es[..n]), es[..n], Kept(es[..n]), es[n]);
      assert es == es[..n] + [es[n]];
    }
  }

  lemma NothingMerged()
    ensures KeysDistinct([]) && Matches([], [], [])
  {
  }

  lemma AddMatches(merged: seq<Entry>, es: seq<Entry>, kept: seq<nat>, e: Entry)
    requires KeysDistinct(merged) && Matches(merged, es, kept)
    requires forall k :: HasKey(merged, k) <==> HasKey(es, k)
    ensures var fs := es + [e];
      && KeysDistinct(Add(merged, e))
      && Matches(Add(merged, e), fs, if e.key.Some? && HasKey(es, e.key.value) then kept else kept + [|es|])
      && forall k :: HasKey(Add(merged, e), k) <==> HasKey(fs, k)
  {
    hide HasKey, KeysDistinct, Matches;
    HasKeyAppend(es, e);
    HasKeyAppend(merged, e);
    if e.key.Some? && HasKey(es, e.key.value) {
      HasKeyRaise(merged, IndexOf(merged, e.key.value), e.row.count);
      RaiseMatches(merged, es, kept, e, IndexOf(merged, e.key.value));
    } else {
      AppendMatches(merged, es, kept, e);
    }
  }

  lemma AppendMatches(merged: seq<Entry>, es: seq<Entry>, kept: seq<nat>, e: Entry)
    requires KeysDistinct(merged) && Matches(merged, es, kept)
    requires e.key.Some? ==> !HasKey(merged, e.key.value)
    ensures KeysDistinct(merged + [e]) && Matches(merged + [e], es + [e], kept + [|es|])
  {
    assert e.key.Some? ==> forall i :: 0 <= i < |merged| ==> merged[i].key != e.key;
  }

  lemma RaiseMatches(merged: seq<Entry>, es: seq<Entry>, kept: seq<nat>, e: Entry, i: nat)
    requires KeysDistinct(merged) && Matches(merged, es, kept)
    requires i < |merged| && merged[i].key.Some?
    ensures var raised := merged[i := Raise(merged[i], e.row.count)];
      KeysDistinct(raised) && Matches(raised, es + [e], kept)
  {
  }

  lemma HasKeyAppend(es: seq<Entry>, e: Entry)
    ensures forall k :: HasKey(es + [e], k) <==> HasKey(es, k) || e.key == Some(k)
  {
    forall k
      ensures HasKey(es + [e], k) <==> HasKey(es, k) || e.key == Some(k)
    {
      assert forall i :: 0 <= i < |es| ==> (es + [e])[i] == es[i];
      assert (es + [e])[|es|] == e;
    }
  }

  lemma HasKeyRaise(es: seq<Entry>, i: nat, count: int)
    requires i < |es|
    ensures forall k :: HasKey(es[i := Raise(es[i], count)], k) <==> HasKey(es, k)
  {
    var fs := es[i := Raise(es[i], count)];
    assert forall j :: 0 <= j < |es| ==> fs[j].key == es[j].key;
  }

  /** Row by row: what is merged under a key carries that key's whole sum. */
  lemma MergedExactly(es: seq<Entry>, a: nat)
    requires a < |MergeAll(es)|
    ensures |Kept(es)| == |MergeAll(es)| && Kept(es)[a] < |es|
    ensures var e, first := MergeAll(es)[a], es[Kept(es)[a]];
      && SameButCount(e, first)
      && e.row.count == if first.key.None? then first.row.count else SumFor(es, first.key.value)
  {
    hide MergeAll, Kept, SumFor, HasKey;
    MergedRows(es);
    var merged := MergeAll(es);
    if merged[a].key.Some? {
      SumsKept(es, merged[a].key.value);
      SumOfDistinct(merged, a);
    }
  }

  lemma {:induction false} SumOfDistinct(es: seq<Entry>, a: nat)
    requires KeysDistinct(es) && a < |es| && es[a].key.Some?
    ensures SumFor(es, es[a].key.value) == es[a].row.count
  {
    var n := |es| - 1;
    if a < n {
      SumOfDistinct(es[..n], a);
    } else {
      NoSum(es[..n], es[a].key.value);
    }
  }

  lemma {:induction false} NoSum(es: seq<Entry>, k: Key)
    requires forall i :: 0 <= i < |es| ==> es[i].key != Some(k)
    ensures SumFor(es, k) == 0
  {
    if es != [] {
      NoSum(es[..|es| - 1], k);
    }
  }

  // ----- merging what is already merged

  lemma {:induction false} DistinctIsMerged(es: seq<Entry>)
    requires KeysDistinct(es)
    ensures MergeAll(es) == es
  {
    if es != [] {
      var n := |es| - 1;
      DistinctIsMerged(es[..n]);
      assert es == es[..n] + [es[n]];
    }
  }

  /** The merged rows as they would come in again. */
  function Raw(v: Values): RawRow { RawRow(Text(v.timestamp), v.platformId, v.platformType, Number(v.count), v.extra) }

  function Raws(es: seq<Entry>): (r: seq<RawRow>)
    ensures |r| == |es| && forall i :: 0 <= i < |r| ==> r[i] == Raw(es[i].row)
  {
    seq(|es|, i requires 0 <= i < |es| => Raw(es[i].row))
  }

  function Rows(es: seq<Entry>): (r: seq<Values>)
    ensures |r| == |es| && forall i :: 0 <= i < |r| ==> r[i] == es[i].row
  {
    seq(|es|, i requires 0 <= i < |es| => es[i].row)
  }

  function Merge(lib: Library, rows: seq<RawRow>): seq<Entry> { MergeAll(Normals(lib, rows)) }

  /** What is needed of the library: int keeps integers, a time in normal form stays as it is, stripping
      is idempotent and does not matter to parsing, and the str of an object that is no text and no time
      has no white space around it and is never itself a time in normal form. */
  ghost predicate Sane(lib: Library) {
    && (forall n :: lib.toInt(Number(n)) == Some(n))
    && (forall c :: lib.normalize(c).Some? ==> lib.normalize(Text(lib.normalize(c).value)) == lib.normalize(c))
    && (forall s :: lib.strip(lib.strip(s)) == lib.strip(s) && lib.normalize(Text(lib.strip(s))) == lib.normalize(Text(s)))
    && lib.strip("") == "" && lib.normalize(Text("")) == None
    && (forall c: Cell :: lib.normalize(c).None? && !c.Text? ==>
          lib.strip(lib.str(c)) == lib.str(c) && lib.normalize(Text(lib.str(c))) != Some(lib.str(c)))
  }

  /** A timestamp that is no text and no time, yet whose str reads as a time, such as the number 20240101. */
  ghost predicate Leaks(lib: Library, raw: RawRow) {
    var c := raw.timestamp;
    lib.normalize(c).None? && !c.Text? && !c.Null? && !c.Absent? && lib.normalize(Text(lib.str(c))).Some?
  }

  /** A stored timestamp reads back as itself, or as none. */
  ghost predicate Stable(lib: Library, timestamp: string) {
    lib.normalize(Text(timestamp)) == Some(timestamp)
    || (lib.normalize(Text(timestamp)).None? && lib.strip(timestamp) == timestamp)
  }

  lemma StableExactly(lib: Library, raw: RawRow)
    requires Sane(lib)
    ensures Stable(lib, TimestampOf(lib, raw.timestamp)) <==> !Leaks(lib, raw)
    ensures raw.timestamp.Text? ==> !Leaks(lib, raw)
  {
  }

  lemma ReadsBack(lib: Library, e: Entry, raw: RawRow)
    requires Sane(lib) && SameButCount(e, Normal(lib, raw))
    ensures Normal(lib, Raw(e.row)) == e <==> !Leaks(lib, raw)
    ensures Leaks(lib, raw) ==> e.key.None? && !Stable(lib, e.row.timestamp)
  {
    StableExactly(lib, raw);
  }

  /** Where a row of the result came from. */
  lemma Origin(lib: Library, rows: seq<RawRow>, a: nat) returns (i: nat)
    requires a < |Merge(lib, rows)|
    ensures i < |rows| && a < |Kept(Normals(lib, rows))| && Kept(Normals(lib, rows))[a] == i
    ensures SameButCount(Merge(lib, rows)[a], Normal(lib, rows[i]))
  {
    hide MergeAll, Kept, Normal, KeysDistinct, HasKey;
    MergedRows(Normals(lib, rows));
    i := Kept(Normals(lib, rows))[a];
  }

  lemma NoLeakSame(lib: Library, rows: seq<RawRow>)
    requires Sane(lib) && forall i :: 0 <= i < |rows| ==> !Leaks(lib, rows[i])
    ensures Merge(lib, Raws(Merge(lib, rows))) == Merge(lib, rows)
  {
    hide Sane, Leaks, MergeAll, Normal, Kept, HasKey, Matches;
    var once := Merge(lib, rows);
    forall a | 0 <= a < |once|
      ensures Normal(lib, Raw(once[a].row)) == once[a]
    {
      var i := Origin(lib, rows, a);
      ReadsBack(lib, once[a], rows[i]);
    }
    assert Normals(lib, Raws(once)) == once;
    MergedRows(Normals(lib, rows));
    DistinctIsMerged(once);
  }

  lemma LeakStored(lib: Library, rows: seq<RawRow>, i: nat) returns (a: nat)
    requires Sane(lib) && i < |rows| && Leaks(lib, rows[i])
    ensures a < |Merge(lib, rows)| && !Stable(lib, Merge(lib, rows)[a].row.timestamp)
  {
    hide Sane, MergeAll, Kept, HasKey, Stable, SameButCount, KeysDistinct;
    var es := Normals(lib, rows);
    KeptExactly(es, i);
    MergedRows(es);
    a :| 0 <= a < |Kept(es)| && Kept(es)[a] == i;
    ReadsBack(lib, MergeAll(es)[a], rows[i]);
  }

  lemma AllStable(lib: Library, raws: seq<RawRow>)
    requires Sane(lib) && forall i :: 0 <= i < |raws| ==> raws[i].timestamp.Text?
    ensures forall b :: 0 <= b < |Merge(lib, raws)| ==> Stable(lib, Merge(lib, raws)[b].row.timestamp)
  {
    hide Sane, MergeAll, Kept, Stable, Leaks;
    forall b | 0 <= b < |Merge(lib, raws)|
      ensures Stable(lib, Merge(lib, raws)[b].row.timestamp)
    {
      var i := Origin(lib, raws, b);
      StableExactly(lib, raws[i]);
    }
  }

  lemma RowsDiffer(es: seq<Entry>, fs: seq<Entry>, a: nat)
    requires a < |fs| && forall b :: 0 <= b < |es| ==> es[b].row.timestamp != fs[a].row.timestamp
    ensures Rows(es) != Rows(fs)
  {
    if a < |es| {
      assert Rows(es)[a] != Rows(fs)[a];
    }
  }

  /** Merging the merged rows again changes nothing if and only if no row leaks. */
  lemma SecondMergeExactly(lib: Library, rows: seq<RawRow>)
    requires Sane(lib)
    ensures Rows(Merge(lib, Raws(Merge(lib, rows)))) == Rows(Merge(lib, rows))
            <==> forall i :: 0 <= i < |rows| ==> !Leaks(lib, rows[i])
  {
    hide Sane, Leaks, Merge, Stable;
    var once := Merge(lib, rows);
    var again := Merge(lib, Raws(once));
    if forall i :: 0 <= i < |rows| ==> !Leaks(lib, rows[i]) {
      NoLeakSame(lib, rows);
    } else {
      var i :| 0 <= i < |rows| && Leaks(lib, rows[i]);
      var a := LeakStored(lib, rows, i);
      AllStable(lib, Raws(once));
      RowsDiffer(again, once, a);
    }
  }

  /** A library that keeps the laws, and a row that leaks under it: a number whose str is "d", the text "d"
      being a time whose normal form is "D". */
  function SmallLibrary(): Library {
    Library(
      (c: Cell) => if c == Text("d") || c == Text("D") then Some("D") else None,
      (c: Cell) => "d",
      (s: string) => s,
      (c: Cell) => if c.Number? then Some(c.n) else None)
  }

  const LEAKING := RawRow(Number(20240101), Text("p"), Text("t"), Number(1), map[])

  lemma SecondMergeCanDiffer()
    ensures Sane(SmallLibrary()) && Leaks(SmallLibrary(), LEAKING)
    ensures var lib := SmallLibrary(); Rows(Merge(lib, Raws(Merge(lib, [LEAKING])))) != Rows(Merge(lib, [LEAKING]))
  {
    var lib := SmallLibrary();
    assert Sane(lib);
    assert [LEAKING][0] == LEAKING;
    SecondMergeExactly(lib, [LEAKING]);
  }
}
