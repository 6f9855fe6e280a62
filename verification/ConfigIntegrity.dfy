/** The integrity pass over a configuration (astrbot/core/config/astrbot_config.py,
    check_config_integrity). Dictionaries are objects on the heap and the pass works in place; a
    default that it inserts is the reference's own dictionary object, so after one pass the
    configuration and the reference can share objects. A snapshot is a finite tree that records
    which object sits where. */
module ConfigIntegrity {
  import opened Wrappers
  import opened JsonValues

  datatype PyValue = PyNull | PyLeaf(leaf: Json) | PyRef(dict: PyDict)
  datatype PyEntry = PyEntry(key: string, value: PyValue)

  class PyDict {
    var entries: seq<PyEntry>

    constructor (entries: seq<PyEntry>)
      ensures this.entries == entries
    {
      this.entries := entries;
    }
  }

  /** A dictionary snapshot also lists all dictionary objects at and below it. */
  datatype Snap = NullSnap | LeafSnap(leaf: Json) | DictSnap(dict: PyDict, entries: seq<SnapEntry>, objs: set<PyDict>)
  datatype SnapEntry = SnapEntry(key: string, snap: Snap)

  ghost function Objs(s: Snap): set<PyDict> { if s.DictSnap? then s.objs else {} }

  ghost function Below(entries: seq<SnapEntry>): set<PyDict> {
    set i, o | 0 <= i < |entries| && o in Objs(entries[i].snap) :: o
  }

  /** The heap below v looks as the snapshot says. */
  ghost predicate Holds(v: PyValue, s: Snap)
    reads Objs(s)
    decreases s
  {
    match s
    case NullSnap => v == PyNull
    case LeafSnap(j) => v == PyLeaf(j)
    case DictSnap(d, es, objs) =>
      && v == PyRef(d)
      && d in objs
      && |d.entries| == |es|
      && forall i :: 0 <= i < |es| ==>
           d.entries[i].key == es[i].key && Objs(es[i].snap) <= objs && Holds(d.entries[i].value, es[i].snap)
  }

  /** No object occurs twice, no key occurs twice, and the object sets are as they should be. */
  ghost predicate Tree(s: Snap) {
    s.DictSnap? ==>
      && s.objs == {s.dict} + Below(s.entries)
      && (forall i :: 0 <= i < |s.entries| ==> Tree(s.entries[i].snap) && s.dict !in Objs(s.entries[i].snap))
      && (forall i, j :: 0 <= i < j < |s.entries| ==>
            s.entries[i].key != s.entries[j].key && Objs(s.entries[i].snap) !! Objs(s.entries[j].snap))
  }

  /** How reference and configuration may share objects: not at all, or the same dictionary at the
      same path. */
  ghost predicate Compatible(r: Snap, c: Snap) {
    || r == c
    || Objs(r) !! Objs(c)
    || (&& r.DictSnap? && c.DictSnap?
        && r.dict !in Objs(c) && c.dict !in Objs(r)
        && forall i, j :: 0 <= i < |r.entries| && 0 <= j < |c.entries| ==>
             if r.entries[i].key == c.entries[j].key then Compatible(r.entries[i].snap, c.entries[j].snap)
             else Objs(r.entries[i].snap) !! Objs(c.entries[j].snap))
  }

  // ----- the pass on snapshots

  function Find(entries: seq<SnapEntry>, key: string): Option<Snap> {
    if entries == [] then None
    else if entries[0].key == key then Some(entries[0].snap)
    else Find(entries[1..], key)
  }

  function Keys(entries: seq<SnapEntry>): seq<string> {
    seq(|entries|, i requires 0 <= i < |entries| => entries[i].key)
  }

  /** What the pass stores under one reference key. */
  ghost function MergeValue(r: Snap, found: Option<Snap>): Snap
    decreases r, 1
  {
    match found
    case None => r
    case Some(c) => if c.NullSnap? then r else if !r.DictSnap? then c else if c.DictSnap? then Merge(r, c) else r
  }

  /** The configuration after the pass: same dictionary object, the reference's keys in its order. */
  ghost function Merge(r: Snap, c: Snap): (m: Snap)
    requires r.DictSnap? && c.DictSnap?
    ensures m.DictSnap? && |m.entries| == |r.entries|
    decreases r, 0
  {
    var entries := seq(|r.entries|, i requires 0 <= i < |r.entries| =>
      SnapEntry(r.entries[i].key, MergeValue(r.entries[i].snap, Find(c.entries, r.entries[i].key))));
    DictSnap(c.dict, entries, {c.dict} + Below(entries))
  }

  predicate ValueChanged(r: Snap, found: Option<Snap>)
    decreases r, 1
  {
    match found
    case None => true
    case Some(c) => c.NullSnap? || (r.DictSnap? && (!c.DictSnap? || Changed(r, c)))
  }

  /** What the pass returns: something was missing, null, of the wrong kind, extra or out of order. */
  predicate Changed(r: Snap, c: Snap)
    requires r.DictSnap? && c.DictSnap?
    decreases r, 0
  {
    || Keys(c.entries) != Keys(r.entries)
    || exists i :: 0 <= i < |r.entries| && ValueChanged(r.entries[i].snap, Find(c.entries, r.entries[i].key))
  }

  // ----- sharing

  /** What the pass relies on at reference entry i and configuration entry k. */
  lemma Apart(r: Snap, c: Snap, i: nat, k: nat)
    requires r.DictSnap? && c.DictSnap? && Tree(r) && Tree(c) && Compatible(r, c)
    requires i < |r.entries| && k < |c.entries|
    ensures r.dict !in Objs(c.entries[k].snap) && c.dict !in Objs(r.entries[i].snap) && c.dict !in Objs(c.entries[k].snap)
    ensures if r.entries[i].key == c.entries[k].key then Compatible(r.entries[i].snap, c.entries[k].snap)
            else Objs(r.entries[i].snap) !! Objs(c.entries[k].snap)
  {
    var ri, ck := r.entries[i].snap, c.entries[k].snap;
    assert Objs(ri) <= Objs(r) && Objs(ck) <= Objs(c);
    if r == c {
      assert i != k ==> Objs(ri) !! Objs(ck);
    } else if Objs(r) !! Objs(c) {
      assert Objs(ri) !! Objs(ck);
    }
  }

  /** Sharing the top object means being the same snapshot. */
  lemma SameDictSame(r: Snap, c: Snap)
    requires r.DictSnap? && c.DictSnap? && Compatible(r, c) && Tree(r) && Tree(c)
    ensures r.dict == c.dict ==> r == c
    ensures r.dict != c.dict ==> c.dict !in Objs(r) || r == c
  {
  }

  lemma {:induction false} FindAt(entries: seq<SnapEntry>, key: string, k: nat)
    requires forall i, j :: 0 <= i < j < |entries| ==> entries[i].key != entries[j].key
    requires k < |entries| && entries[k].key == key
    ensures Find(entries, key) == Some(entries[k].snap)
  {
    if k > 0 {
      FindAt(entries[1..], key, k - 1);
    }
  }

  lemma {:induction false} FindNone(entries: seq<SnapEntry>, key: string)
    requires forall i :: 0 <= i < |entries| ==> entries[i].key != key
    ensures Find(entries, key) == None
  {
    if entries != [] {
      FindNone(entries[1..], key);
    }
  }

  lemma {:induction false} FindIndex(entries: seq<SnapEntry>, key: string) returns (k: nat)
    requires Find(entries, key).Some?
    ensures k < |entries| && entries[k] == SnapEntry(key, Find(entries, key).value)
  {
    if entries[0].key == key {
      k := 0;
    } else {
      var j := FindIndex(entries[1..], key);
      k := j + 1;
    }
  }

  /** A merged value consists of objects of the reference value and of the value found. */
  lemma {:induction false} MergeObjs(r: Snap, found: Option<Snap>)
    requires Tree(r) && (found.Some? ==> Tree(found.value))
    ensures Objs(MergeValue(r, found)) <= Objs(r) + (if found.Some? then Objs(found.value) else {})
    decreases r
  {
    if found.Some? && r.DictSnap? && found.value.DictSnap? {
      var c := found.value;
      var m := Merge(r, c);
      forall i, o | 0 <= i < |m.entries| && o in Objs(m.entries[i].snap)
        ensures o in Objs(r) + Objs(c)
      {
        var at := Find(c.entries, r.entries[i].key);
        if at.Some? {
          var k := FindIndex(c.entries, r.entries[i].key);
        }
        MergeObjs(r.entries[i].snap, at);
      }
    }
  }

  /** A merged child stays clear of an object or of another child's objects. */
  lemma MergeChildApart(r: Snap, c: Snap, i: nat, k: nat)
    requires r.DictSnap? && c.DictSnap? && Tree(r) && Tree(c) && Compatible(r, c)
    requires i < |r.entries| && k < |c.entries|
    ensures c.dict !in Objs(Merge(r, c).entries[i].snap)
    ensures r.entries[i].key != c.entries[k].key ==> Objs(Merge(r, c).entries[i].snap) !! Objs(c.entries[k].snap)
  {
    var at := Find(c.entries, r.entries[i].key);
    Apart(r, c, i, k);
    if at.Some? {
      var q := FindIndex(c.entries, r.entries[i].key);
      Apart(r, c, i, q);
    }
    MergeObjs(r.entries[i].snap, at);
  }

  lemma ChildAway(r: Snap, c: Snap, i: nat)
    requires r.DictSnap? && c.DictSnap? && Tree(r) && Tree(c) && Compatible(r, c) && i < |r.entries|
    ensures c.dict !in Objs(Merge(r, c).entries[i].snap)
  {
    if c.entries != [] {
      MergeChildApart(r, c, i, 0);
    } else {
      MergeObjs(r.entries[i].snap, None);
      if r != c && !(Objs(r) !! Objs(c)) {
        assert c.dict !in Objs(r);
      }
    }
  }

  lemma {:induction false} MergeSelf(r: Snap)
    requires r.DictSnap? && Tree(r)
    ensures Merge(r, r) == r
    decreases r
  {
    forall i | 0 <= i < |r.entries|
      ensures Merge(r, r).entries[i] == r.entries[i]
    {
      FindAt(r.entries, r.entries[i].key, i);
      if r.entries[i].snap.DictSnap? {
        MergeSelf(r.entries[i].snap);
      }
    }
    assert Merge(r, r).entries == r.entries;
  }

  // ----- the pass on the heap

  function PyKeys(entries: seq<PyEntry>): seq<string> {
    seq(|entries|, i requires 0 <= i < |entries| => entries[i].key)
  }

  function IndexOf(entries: seq<PyEntry>, key: string): (k: nat)
    ensures k <= |entries|
    ensures k < |entries| ==> entries[k].key == key
    ensures forall i :: 0 <= i < k ==> entries[i].key != key
  {
    if entries == [] || entries[0].key == key then 0 else 1 + IndexOf(entries[1..], key)
  }

  /** Merged prefix: the first i entries of the new dictionary look as the merge says. */
  ghost predicate Built(newConf: seq<PyEntry>, r: Snap, c: Snap, i: nat)
    requires r.DictSnap? && c.DictSnap? && i <= |r.entries|
    reads set j, o | 0 <= j < i && o in Objs(Merge(r, c).entries[j].snap) :: o
  {
    && |newConf| == i
    && forall j :: 0 <= j < i ==>
         newConf[j].key == r.entries[j].key && Holds(newConf[j].value, Merge(r, c).entries[j].snap)
  }

  /** The configuration's entries that no reference key before i names are as before. */
  ghost predicate Untouched(entries: seq<PyEntry>, r: Snap, c: Snap, i: nat)
    requires r.DictSnap? && c.DictSnap? && i <= |r.entries|
    reads Objs(c)
  {
    && |entries| == |c.entries|
    && forall k :: 0 <= k < |c.entries| ==>
         && entries[k].key == c.entries[k].key
         && Objs(c.entries[k].snap) <= Objs(c)
         && ((forall j :: 0 <= j < i ==> r.entries[j].key != c.entries[k].key) ==> Holds(entries[k].value, c.entries[k].snap))
  }

  /** The objects of the configuration that handling a key may change. */
  ghost function Touched(c: Snap, key: string): set<PyDict>
    requires c.DictSnap?
  {
    match Find(c.entries, key) case Some(s) => Objs(s) case None => {}
  }

  lemma TouchedApart(r: Snap, c: Snap, i: nat)
    requires r.DictSnap? && c.DictSnap? && Tree(r) && Tree(c) && Compatible(r, c) && i < |r.entries|
    ensures Touched(c, r.entries[i].key) <= Objs(c)
    ensures r.dict !in Touched(c, r.entries[i].key) && c.dict !in Touched(c, r.entries[i].key)
    ensures forall j :: 0 <= j < |r.entries| && j != i ==> Objs(r.entries[j].snap) !! Touched(c, r.entries[i].key)
    ensures forall j :: 0 <= j < |r.entries| && j != i ==> Objs(Merge(r, c).entries[j].snap) !! Touched(c, r.entries[i].key)
    ensures forall k :: 0 <= k < |c.entries| && c.entries[k].key != r.entries[i].key ==>
              Objs(c.entries[k].snap) !! Touched(c, r.entries[i].key)
  {
    hide Compatible, Merge;
    if Find(c.entries, r.entries[i].key).Some? {
      var k := FindIndex(c.entries, r.entries[i].key);
      Apart(r, c, i, k);
      forall j | 0 <= j < |r.entries| && j != i
        ensures Objs(r.entries[j].snap) !! Touched(c, r.entries[i].key)
        ensures Objs(Merge(r, c).entries[j].snap) !! Touched(c, r.entries[i].key)
      {
        Apart(r, c, j, k);
        MergeChildApart(r, c, j, k);
      }
    }
  }

  lemma UntouchedFind(before: seq<PyEntry>, r: Snap, c: Snap, i: nat, k: nat)
    requires r.DictSnap? && c.DictSnap? && Tree(r) && Tree(c) && i < |r.entries| && k <= |before|
    requires Untouched(before, r, c, i)
    requires forall j :: 0 <= j < k ==> before[j].key != r.entries[i].key
    requires k < |before| ==> before[k].key == r.entries[i].key
    ensures Find(c.entries, r.entries[i].key) == if k == |before| then None else Some(c.entries[k].snap)
    ensures k < |before| ==> Holds(before[k].value, c.entries[k].snap)
  {
    if k == |before| {
      FindNone(c.entries, r.entries[i].key);
    } else {
      FindAt(c.entries, r.entries[i].key, k);
    }
  }

  lemma EntriesHold(d: PyDict, r: Snap)
    requires r.DictSnap? && Holds(PyRef(d), r)
    ensures d == r.dict && |d.entries| == |r.entries|
    ensures forall i :: 0 <= i < |r.entries| ==> d.entries[i].key == r.entries[i].key && Holds(d.entries[i].value, r.entries[i].snap)
  {
  }

  lemma HoldsFromEntries(d: PyDict, r: Snap)
    requires r.DictSnap? && Tree(r) && d == r.dict && |d.entries| == |r.entries|
    requires forall i :: 0 <= i < |r.entries| ==> d.entries[i].key == r.entries[i].key && Holds(d.entries[i].value, r.entries[i].snap)
    ensures Holds(PyRef(d), r)
  {
  }

  /** The value to store under reference key number i; a dictionary of the configuration is brought
      up to date in place. */
  method MergeKey(refer: PyDict, conf: PyDict, i: nat, ghost r: Snap, ghost c: Snap) returns (value: PyValue, changed: bool)
    requires r.DictSnap? && c.DictSnap? && Holds(PyRef(refer), r) && conf == c.dict
    requires Tree(r) && Tree(c) && Compatible(r, c)
    requires i < |r.entries| && Untouched(conf.entries, r, c, i)
    modifies Touched(c, r.entries[i].key)
    ensures Holds(PyRef(refer), r)
    ensures Holds(value, Merge(r, c).entries[i].snap)
    ensures Untouched(conf.entries, r, c, i + 1)
    ensures changed == ValueChanged(r.entries[i].snap, Find(c.entries, r.entries[i].key))
    decreases r, 0
  {
    EntriesHold(refer, r);
    TouchedApart(r, c, i);
    hide Compatible, Untouched, Others;
    var key, default := refer.entries[i].key, refer.entries[i].value;
    var k := IndexOf(conf.entries, key);
    UntouchedFind(conf.entries, r, c, i, k);
    UntouchedNext(conf.entries, r, c, i);
    if k == |conf.entries| {
      return default, true;
    }
    var current := conf.entries[k].value;
    if current == PyNull {
      return default, true;
    }
    if !default.PyRef? {
      return current, false;
    }
    if !current.PyRef? {
      return default, true;
    }
    FoundAt(conf.entries, r, c, i, k);
    Apart(r, c, i, k);
    OthersHold(conf.entries, r, c, i);
    EntriesHold(refer, r);
    assert r.entries[i].snap.DictSnap? && c.entries[k].snap.DictSnap?;
    hide Touched, MergeValue, Merge, ValueChanged, Tree;
    label Before:
    changed := CheckConfigIntegrity(default.dict, current.dict, r.entries[i].snap, c.entries[k].snap);
    value := current;
    forall j | 0 <= j < |r.entries|
      ensures refer.entries[j].key == r.entries[j].key && Holds(refer.entries[j].value, r.entries[j].snap)
    {
      assert old@Before(Holds(refer.entries[j].value, r.entries[j].snap));
      if j != i {
        assert Objs(r.entries[j].snap) !! Objs(c.entries[k].snap);
      }
    }
    HoldsFromEntries(refer, r);
    forall q | 0 <= q < |c.entries| && Others(r, c, i, q)
      ensures Holds(conf.entries[q].value, c.entries[q].snap)
    {
      assert old@Before(Holds(conf.entries[q].value, c.entries[q].snap));
      assert Objs(c.entries[q].snap) !! Objs(c.entries[k].snap);
    }
    OthersAreUntouched(conf.entries, r, c, i);
  }

  /** The entries that no reference key up to i names. */
  ghost predicate Others(r: Snap, c: Snap, i: nat, k: nat)
    requires r.DictSnap? && c.DictSnap? && i < |r.entries| && k < |c.entries|
  {
    forall j :: 0 <= j <= i ==> r.entries[j].key != c.entries[k].key
  }

  lemma OthersHold(entries: seq<PyEntry>, r: Snap, c: Snap, i: nat)
    requires r.DictSnap? && c.DictSnap? && i < |r.entries| && Untouched(entries, r, c, i)
    ensures |entries| == |c.entries| && forall k :: 0 <= k < |c.entries| ==> entries[k].key == c.entries[k].key
    ensures forall k :: 0 <= k < |c.entries| && Others(r, c, i, k) ==> Holds(entries[k].value, c.entries[k].snap)
    ensures forall k :: 0 <= k < |c.entries| && Others(r, c, i, k) ==> c.entries[k].key != r.entries[i].key
  {
  }

  lemma OthersAreUntouched(entries: seq<PyEntry>, r: Snap, c: Snap, i: nat)
    requires r.DictSnap? && c.DictSnap? && i < |r.entries|
    requires Tree(c) && |entries| == |c.entries| && forall k :: 0 <= k < |c.entries| ==> entries[k].key == c.entries[k].key
    requires forall k :: 0 <= k < |c.entries| && Others(r, c, i, k) ==> Holds(entries[k].value, c.entries[k].snap)
    ensures Untouched(entries, r, c, i + 1)
  {
  }

  lemma UntouchedNext(entries: seq<PyEntry>, r: Snap, c: Snap, i: nat)
    requires r.DictSnap? && c.DictSnap? && i < |r.entries| && Untouched(entries, r, c, i)
    ensures Untouched(entries, r, c, i + 1)
  {
  }

  lemma FoundAt(before: seq<PyEntry>, r: Snap, c: Snap, i: nat, k: nat)
    requires r.DictSnap? && c.DictSnap? && i < |r.entries| && Tree(r) && Tree(c) && i <= |r.entries|
    requires Untouched(before, r, c, i) && k < |before| && before[k].key == r.entries[i].key
    ensures k < |c.entries| && c.entries[k].key == r.entries[i].key && Tree(c.entries[k].snap) && Tree(r.entries[i].snap)
    ensures Touched(c, r.entries[i].key) == Objs(c.entries[k].snap)
    ensures r.entries[i].snap.DictSnap? && c.entries[k].snap.DictSnap? ==>
      && Merge(r, c).entries[i].snap == Merge(r.entries[i].snap, c.entries[k].snap)
      && ValueChanged(r.entries[i].snap, Find(c.entries, r.entries[i].key)) == Changed(r.entries[i].snap, c.entries[k].snap)
  {
    FindAt(c.entries, r.entries[i].key, k);
  }

  method CheckConfigIntegrity(refer: PyDict, conf: PyDict, ghost r: Snap, ghost c: Snap) returns (hasNew: bool)
    requires r.DictSnap? && c.DictSnap? && Holds(PyRef(refer), r) && Holds(PyRef(conf), c)
    requires Tree(r) && Tree(c) && Compatible(r, c)
    modifies Objs(c)
    ensures Holds(PyRef(conf), Merge(r, c))
    ensures Holds(PyRef(refer), r)
    ensures hasNew == Changed(r, c)
    decreases r, 1
  {
    hide Compatible, Untouched, ValueChanged, Built, Touched, Tree, Merge, Find, Keys, PyKeys;
    hasNew := false;
    var newConf: seq<PyEntry> := [];
    var before := conf.entries;
    EntriesHold(refer, r);
    EntriesHold(conf, c);
    NothingDone(before, r, c);
    for i := 0 to |refer.entries|
      invariant Holds(PyRef(refer), r) && |refer.entries| == |r.entries| && conf.entries == before
      invariant Built(newConf, r, c, i) && Untouched(before, r, c, i)
      invariant hasNew <==> exists j :: 0 <= j < i && ValueChanged(r.entries[j].snap, Find(c.entries, r.entries[j].key))
    {
      TouchedApart(r, c, i);
      BuiltHolds(newConf, r, c, i);
      label Before:
      var value, changed := MergeKey(refer, conf, i, r, c);
      forall j | 0 <= j < i
        ensures newConf[j].key == r.entries[j].key && Holds(newConf[j].value, Merge(r, c).entries[j].snap)
      {
        assert old@Before(Holds(newConf[j].value, Merge(r, c).entries[j].snap));
      }
      BuiltNext(newConf, r, c, i, value);
      EntriesHold(refer, r);
      newConf := newConf + [PyEntry(refer.entries[i].key, value)];
      hasNew := hasNew || changed;
    }
    var extra := exists k :: 0 <= k < |before| && IndexOf(refer.entries, before[k].key) == |refer.entries|;
    if extra {
      hasNew := true;
    }
    if PyKeys(before) != PyKeys(newConf) {
      hasNew := true;
    }
    BuiltHolds(newConf, r, c, |r.entries|);
    KeysCompared(before, newConf, refer, r, c);
    Store(refer, conf, newConf, r, c);
  }

  lemma BuiltHolds(newConf: seq<PyEntry>, r: Snap, c: Snap, i: nat)
    requires r.DictSnap? && c.DictSnap? && i <= |r.entries| && Built(newConf, r, c, i)
    ensures |newConf| == i
    ensures forall j :: 0 <= j < i ==> newConf[j].key == r.entries[j].key && Holds(newConf[j].value, Merge(r, c).entries[j].snap)
  {
  }

  lemma BuiltNext(newConf: seq<PyEntry>, r: Snap, c: Snap, i: nat, value: PyValue)
    requires r.DictSnap? && c.DictSnap? && i < |r.entries| && |newConf| == i
    requires forall j :: 0 <= j < i ==> newConf[j].key == r.entries[j].key && Holds(newConf[j].value, Merge(r, c).entries[j].snap)
    requires Holds(value, Merge(r, c).entries[i].snap)
    ensures Built(newConf + [PyEntry(r.entries[i].key, value)], r, c, i + 1)
  {
  }

  lemma NothingDone(entries: seq<PyEntry>, r: Snap, c: Snap)
    requires r.DictSnap? && c.DictSnap? && Holds(PyRef(c.dict), c) && entries == c.dict.entries
    ensures Untouched(entries, r, c, 0) && Built([], r, c, 0)
  {
  }

  /** conf.clear() and conf.update(new_conf). */
  method Store(refer: PyDict, conf: PyDict, newConf: seq<PyEntry>, ghost r: Snap, ghost c: Snap)
    requires r.DictSnap? && c.DictSnap? && Holds(PyRef(refer), r) && conf == c.dict
    requires Tree(r) && Tree(c) && Compatible(r, c) && Built(newConf, r, c, |r.entries|)
    modifies conf
    ensures Holds(PyRef(conf), Merge(r, c))
    ensures Holds(PyRef(refer), r)
  {
    SameDictSame(r, c);
    if r == c {
      MergeSelf(r);
    }
    hide Compatible;
    forall j | 0 <= j < |r.entries|
      ensures c.dict !in Objs(Merge(r, c).entries[j].snap)
    {
      ChildAway(r, c, j);
    }
    conf.entries := newConf;
  }

  lemma KeysCompared(before: seq<PyEntry>, newConf: seq<PyEntry>, refer: PyDict, r: Snap, c: Snap)
    requires r.DictSnap? && c.DictSnap? && |before| == |c.entries| && |newConf| == |r.entries| == |refer.entries|
    requires forall k :: 0 <= k < |before| ==> before[k].key == c.entries[k].key
    requires forall k :: 0 <= k < |newConf| ==> newConf[k].key == r.entries[k].key == refer.entries[k].key
    ensures PyKeys(before) != PyKeys(newConf) <==> Keys(c.entries) != Keys(r.entries)
    ensures (exists k :: 0 <= k < |before| && IndexOf(refer.entries, before[k].key) == |refer.entries|) ==>
              Keys(c.entries) != Keys(r.entries)
  {
    assert PyKeys(before) == Keys(c.entries) && PyKeys(newConf) == Keys(r.entries);
    if Keys(c.entries) == Keys(r.entries) {
      forall k | 0 <= k < |before|
        ensures IndexOf(refer.entries, before[k].key) < |refer.entries|
      {
        assert Keys(c.entries)[k] == Keys(r.entries)[k];
      }
    }
  }

  // ----- what the pass establishes

  /** The value at a path of keys. */
  ghost function At(s: Snap, path: seq<string>): Option<Snap>
    decreases path
  {
    if path == [] then Some(s)
    else if !s.DictSnap? then None
    else match Find(s.entries, path[0])
      case None => None
      case Some(child) => At(child, path[1..])
  }

  lemma FindMerge(r: Snap, c: Snap, key: string)
    requires r.DictSnap? && c.DictSnap? && Tree(r)
    ensures Find(Merge(r, c).entries, key) ==
      match Find(r.entries, key) case None => None case Some(rv) => Some(MergeValue(rv, Find(c.entries, key)))
  {
    var m := Merge(r, c);
    if Find(r.entries, key).Some? {
      var i := FindIndex(r.entries, key);
      forall a, b | 0 <= a < b < |m.entries|
        ensures m.entries[a].key != m.entries[b].key
      {
        assert r.entries[a].key != r.entries[b].key;
      }
      FindAt(m.entries, key, i);
    } else {
      FindNoneMeans(r.entries, key);
      FindNone(m.entries, key);
    }
  }

  lemma {:induction false} FindNoneMeans(entries: seq<SnapEntry>, key: string)
    requires Find(entries, key) == None
    ensures forall i :: 0 <= i < |entries| ==> entries[i].key != key
  {
    if entries != [] {
      FindNoneMeans(entries[1..], key);
    }
  }

  /** A user value counts when it exists and is not null. */
  ghost predicate Usable(found: Option<Snap>) { found.Some? && !found.value.NullSnap? }

  /** Where the reference has a plain value: the user's usable value survives, whatever its kind,
      and otherwise the default stands. */
  lemma {:induction false} PlainValueAfterPass(r: Snap, c: Snap, path: seq<string>)
    requires r.DictSnap? && c.DictSnap? && Tree(r)
    requires At(r, path).Some? && !At(r, path).value.DictSnap?
    ensures At(Merge(r, c), path) == if Usable(At(c, path)) then At(c, path) else At(r, path)
    decreases path
  {
    FindMerge(r, c, path[0]);
    var k := FindIndex(r.entries, path[0]);
    var rv, found := r.entries[k].snap, Find(c.entries, path[0]);
    if rv.DictSnap? && found.Some? && found.value.DictSnap? {
      PlainValueAfterPass(rv, found.value, path[1..]);
    }
  }

  /** Where the reference has a dictionary: the result has one with exactly its keys in its order. */
  lemma {:induction false} DictAfterPass(r: Snap, c: Snap, path: seq<string>)
    requires r.DictSnap? && c.DictSnap? && Tree(r)
    requires At(r, path).Some? && At(r, path).value.DictSnap?
    ensures At(Merge(r, c), path).Some? && At(Merge(r, c), path).value.DictSnap?
    ensures Keys(At(Merge(r, c), path).value.entries) == Keys(At(r, path).value.entries)
    decreases path
  {
    if path != [] {
      FindMerge(r, c, path[0]);
      var k := FindIndex(r.entries, path[0]);
      var rv, found := r.entries[k].snap, Find(c.entries, path[0]);
      if rv.DictSnap? && found.Some? && found.value.DictSnap? {
        DictAfterPass(rv, found.value, path[1..]);
      }
    }
  }

  // ----- null defaults

  /** The value of the configuration that belongs to entry i of the reference dictionary. */
  ghost function ChildOf(found: Option<Snap>, key: string): Option<Snap> {
    if found.Some? && found.value.DictSnap? then Find(found.value.entries, key) else None
  }

  /** Some null default has no usable user value over it. */
  ghost predicate Gap(r: Snap, found: Option<Snap>)
    decreases r
  {
    match r
    case NullSnap => !Usable(found)
    case LeafSnap(_) => false
    case DictSnap(_, es, _) => exists i :: 0 <= i < |es| && Gap(es[i].snap, ChildOf(found, es[i].key))
  }

  ghost predicate GapAt(r: Snap, found: Option<Snap>, path: seq<string>) {
    At(r, path) == Some(NullSnap) && !(found.Some? && Usable(At(found.value, path)))
  }

  /** Read as a condition on paths: the reference is null there and the configuration is missing or null. */
  lemma {:induction false} GapIsPath(r: Snap, found: Option<Snap>)
    requires Tree(r)
    ensures Gap(r, found) <==> exists path :: GapAt(r, found, path)
    decreases r
  {
    if Gap(r, found) {
      if r.NullSnap? {
        assert GapAt(r, found, []);
      } else {
        var i :| 0 <= i < |r.entries| && Gap(r.entries[i].snap, ChildOf(found, r.entries[i].key));
        GapIsPath(r.entries[i].snap, ChildOf(found, r.entries[i].key));
        var rest :| GapAt(r.entries[i].snap, ChildOf(found, r.entries[i].key), rest);
        FindAt(r.entries, r.entries[i].key, i);
        var path := [r.entries[i].key] + rest;
        assert path[1..] == rest;
        assert GapAt(r, found, path);
      }
    }
    if path :| GapAt(r, found, path) {
      if path != [] {
        var i := FindIndex(r.entries, path[0]);
        assert GapAt(r.entries[i].snap, ChildOf(found, path[0]), path[1..]);
        GapIsPath(r.entries[i].snap, ChildOf(found, path[0]));
      }
    }
  }

  // ----- the returned flag

  lemma {:induction false} UnchangedValue(r: Snap, found: Option<Snap>)
    requires Tree(r) && (found.Some? ==> Tree(found.value))
    ensures !ValueChanged(r, found) <==> found.Some? && MergeValue(r, found) == found.value && !Gap(r, found)
    decreases r
  {
    if r.DictSnap? && found.Some? && found.value.DictSnap? {
      var c := found.value;
      var m := Merge(r, c);
      forall i | 0 <= i < |r.entries|
        ensures var at := Find(c.entries, r.entries[i].key);
                !ValueChanged(r.entries[i].snap, at) <==>
                  at.Some? && MergeValue(r.entries[i].snap, at) == at.value && !Gap(r.entries[i].snap, at)
      {
        var at := Find(c.entries, r.entries[i].key);
        if at.Some? {
          var k := FindIndex(c.entries, r.entries[i].key);
        }
        UnchangedValue(r.entries[i].snap, at);
      }
      assert Keys(m.entries) == Keys(r.entries);
      if Keys(c.entries) == Keys(r.entries) {
        forall i | 0 <= i < |r.entries|
          ensures |c.entries| == |r.entries| && c.entries[i].key == r.entries[i].key
          ensures Find(c.entries, r.entries[i].key) == Some(c.entries[i].snap)
        {
          assert Keys(c.entries)[i] == Keys(r.entries)[i];
          FindAt(c.entries, r.entries[i].key, i);
        }
        SameEntries(r, c);
      }
    }
  }

  lemma SameEntries(r: Snap, c: Snap)
    requires r.DictSnap? && c.DictSnap? && Tree(c) && |c.entries| == |r.entries|
    requires forall i :: 0 <= i < |r.entries| ==> c.entries[i].key == r.entries[i].key
    requires forall i :: 0 <= i < |r.entries| ==> Find(c.entries, r.entries[i].key) == Some(c.entries[i].snap)
    ensures Merge(r, c) == c <==>
      forall i :: 0 <= i < |r.entries| ==> MergeValue(r.entries[i].snap, Some(c.entries[i].snap)) == c.entries[i].snap
  {
    var m := Merge(r, c);
    forall i | 0 <= i < |r.entries|
      ensures m.entries[i] == c.entries[i] <==> MergeValue(r.entries[i].snap, Some(c.entries[i].snap)) == c.entries[i].snap
    {
    }
    if forall i :: 0 <= i < |r.entries| ==> MergeValue(r.entries[i].snap, Some(c.entries[i].snap)) == c.entries[i].snap {
      assert m.entries == c.entries;
    }
  }

  /** The pass returns False if and only if it changed nothing, order included, and no null default
      went unanswered. */
  lemma FalseExactly(r: Snap, c: Snap)
    requires r.DictSnap? && c.DictSnap? && Tree(r) && Tree(c)
    ensures !Changed(r, c) <==> Merge(r, c) == c && !exists path :: GapAt(r, Some(c), path)
  {
    UnchangedValue(r, Some(c));
    GapIsPath(r, Some(c));
  }

  // ----- the second pass

  lemma MergeValueKeys(r: Snap, found: Option<Snap>)
    requires r.DictSnap?
    ensures MergeValue(r, found).DictSnap? && Keys(MergeValue(r, found).entries) == Keys(r.entries)
  {
    if found.Some? && found.value.DictSnap? {
      var m := Merge(r, found.value);
      assert forall i :: 0 <= i < |r.entries| ==> m.entries[i].key == r.entries[i].key;
    }
  }

  lemma {:induction false} ChangedAgain(r: Snap, found: Option<Snap>)
    requires Tree(r)
    ensures ValueChanged(r, Some(MergeValue(r, found))) <==> Gap(r, found)
    decreases r
  {
    if r.DictSnap? {
      var m := MergeValue(r, found);
      forall i | 0 <= i < |r.entries|
        ensures Find(m.entries, r.entries[i].key) == Some(MergeValue(r.entries[i].snap, ChildOf(found, r.entries[i].key)))
        ensures ValueChanged(r.entries[i].snap, Find(m.entries, r.entries[i].key)) <==>
                  Gap(r.entries[i].snap, ChildOf(found, r.entries[i].key))
      {
        FindAt(r.entries, r.entries[i].key, i);
        if found.Some? && found.value.DictSnap? {
          FindMerge(r, found.value, r.entries[i].key);
        }
        ChangedAgain(r.entries[i].snap, ChildOf(found, r.entries[i].key));
      }
      MergeValueKeys(r, found);
    }
  }

  /** A second pass reports a change exactly when a null default has no usable user value over it;
      without null defaults it always returns False. */
  lemma SecondPassExactly(r: Snap, c: Snap)
    requires r.DictSnap? && c.DictSnap? && Tree(r)
    ensures Changed(r, Merge(r, c)) <==> exists path :: GapAt(r, Some(c), path)
    ensures (forall path :: At(r, path) != Some(NullSnap)) ==> !Changed(r, Merge(r, c))
  {
    ChangedAgain(r, Some(c));
    GapIsPath(r, Some(c));
  }

  lemma {:induction false} MergeAgain(r: Snap, found: Option<Snap>)
    requires Tree(r)
    ensures MergeValue(r, Some(MergeValue(r, found))) == MergeValue(r, found)
    decreases r
  {
    if r.DictSnap? {
      if found.Some? && found.value.DictSnap? {
        var c := found.value;
        var m := Merge(r, c);
        forall i | 0 <= i < |r.entries|
          ensures Merge(r, m).entries[i] == m.entries[i]
        {
          FindAt(r.entries, r.entries[i].key, i);
          FindMerge(r, c, r.entries[i].key);
          MergeAgain(r.entries[i].snap, Find(c.entries, r.entries[i].key));
        }
        assert Merge(r, m).entries == m.entries;
      } else {
        MergeSelf(r);
      }
    }
  }

  // ----- after a pass the configuration may share the reference's objects, and that is safe

  lemma {:induction false} MergeKeepsSharing(r: Snap, found: Option<Snap>)
    requires Tree(r) && (found.Some? ==> Tree(found.value) && Compatible(r, found.value))
    ensures Tree(MergeValue(r, found)) && Compatible(r, MergeValue(r, found))
    decreases r
  {
    if r.DictSnap? && found.Some? && found.value.DictSnap? {
      var c := found.value;
      var m := Merge(r, c);
      if r == c {
        MergeSelf(r);
      } else {
        SameDictSame(r, c);
        forall i | 0 <= i < |r.entries|
          ensures Tree(m.entries[i].snap) && c.dict !in Objs(m.entries[i].snap)
          ensures Compatible(r.entries[i].snap, m.entries[i].snap)
        {
          ChildAway(r, c, i);
          MergeChildKeepsSharing(r, c, i);
        }
        forall i, j | 0 <= i < |r.entries| && 0 <= j < |r.entries| && i != j
          ensures Objs(r.entries[i].snap) !! Objs(m.entries[j].snap)
          ensures Objs(m.entries[i].snap) !! Objs(m.entries[j].snap)
          ensures r.dict !in Objs(m.entries[j].snap)
        {
          MergedApart(r, c, i, j);
        }
        forall j | 0 <= j < |r.entries|
          ensures r.dict !in Objs(m.entries[j].snap)
        {
          MergedApartFromTop(r, c, j);
        }
      }
    }
  }

  lemma MergeChildKeepsSharing(r: Snap, c: Snap, i: nat)
    requires r.DictSnap? && c.DictSnap? && Tree(r) && Tree(c) && Compatible(r, c) && i < |r.entries|
    ensures Tree(Merge(r, c).entries[i].snap) && Compatible(r.entries[i].snap, Merge(r, c).entries[i].snap)
    decreases r, 0
  {
    var at := Find(c.entries, r.entries[i].key);
    if at.Some? {
      var k := FindIndex(c.entries, r.entries[i].key);
      Apart(r, c, i, k);
    }
    MergeKeepsSharing(r.entries[i].snap, at);
  }

  lemma MergedApartFromTop(r: Snap, c: Snap, j: nat)
    requires r.DictSnap? && c.DictSnap? && Tree(r) && Tree(c) && Compatible(r, c) && j < |r.entries|
    ensures r.dict !in Objs(Merge(r, c).entries[j].snap)
  {
    var at := Find(c.entries, r.entries[j].key);
    if at.Some? {
      var k := FindIndex(c.entries, r.entries[j].key);
      Apart(r, c, j, k);
    }
    MergeObjs(r.entries[j].snap, at);
  }

  lemma MergedApart(r: Snap, c: Snap, i: nat, j: nat)
    requires r.DictSnap? && c.DictSnap? && Tree(r) && Tree(c) && Compatible(r, c)
    requires i < |r.entries| && j < |r.entries| && i != j
    ensures Objs(r.entries[i].snap) !! Objs(Merge(r, c).entries[j].snap)
    ensures Objs(Merge(r, c).entries[i].snap) !! Objs(Merge(r, c).entries[j].snap)
    ensures r.dict !in Objs(Merge(r, c).entries[j].snap)
  {
    MergedApartFromTop(r, c, j);
    var ai, aj := Find(c.entries, r.entries[i].key), Find(c.entries, r.entries[j].key);
    assert r.entries[i].key != r.entries[j].key;
    if aj.Some? {
      var k := FindIndex(c.entries, r.entries[j].key);
      Apart(r, c, i, k);
    }
    if ai.Some? {
      var k := FindIndex(c.entries, r.entries[i].key);
      Apart(r, c, j, k);
    }
    if ai.Some? && aj.Some? {
      var k := FindIndex(c.entries, r.entries[i].key);
      var l := FindIndex(c.entries, r.entries[j].key);
      assert Objs(c.entries[k].snap) !! Objs(c.entries[l].snap);
    }
    MergeObjs(r.entries[i].snap, ai);
    MergeObjs(r.entries[j].snap, aj);
  }

  /** Two passes in a row over any admissible heap: the second changes nothing, although it may now
      run over the reference's own dictionaries, and its flag reports exactly the unanswered null
      defaults. */
  method CheckTwice(refer: PyDict, conf: PyDict, ghost r: Snap, ghost c: Snap) returns (first: bool, second: bool)
    requires r.DictSnap? && c.DictSnap? && Holds(PyRef(refer), r) && Holds(PyRef(conf), c)
    requires Tree(r) && Tree(c) && Compatible(r, c)
    modifies Objs(c) + Objs(r)
    ensures Holds(PyRef(conf), Merge(r, c)) && Holds(PyRef(refer), r)
    ensures first == Changed(r, c)
    ensures second <==> exists path :: GapAt(r, Some(c), path)
  {
    first := CheckConfigIntegrity(refer, conf, r, c);
    MergeKeepsSharing(r, Some(c));
    MergeObjs(r, Some(c));
    MergeAgain(r, Some(c));
    SecondPassExactly(r, c);
    second := CheckConfigIntegrity(refer, conf, r, Merge(r, c));
  }

  /** A reference whose only default is null, and an empty configuration: both passes report a change. */
  method NullDefault() returns (first: bool, second: bool)
    ensures first && second
  {
    var refer := new PyDict([PyEntry("key", PyNull)]);
    var conf := new PyDict([]);
    ghost var r := DictSnap(refer, [SnapEntry("key", NullSnap)], {refer});
    ghost var c := DictSnap(conf, [], {conf});
    assert Tree(r) && Tree(c) && Compatible(r, c);
    assert Find(c.entries, "key") == None && ValueChanged(r.entries[0].snap, Find(c.entries, r.entries[0].key));
    NullGap(r, c);
    first, second := CheckTwice(refer, conf, r, c);
  }

  lemma NullGap(r: Snap, c: Snap)
    requires r.DictSnap? && c.DictSnap? && r.entries == [SnapEntry("key", NullSnap)] && c.entries == []
    ensures GapAt(r, Some(c), ["key"])
  {
    assert ["key"][1..] == [];
  }
}
