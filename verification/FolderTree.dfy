/** The persona folder tree (astrbot/core/persona_mgr.py, get_folder_tree): parent pointers become
    child lists, which are then sorted in place from the roots down. The parent table may hold cycles
    and missing parents; folder dictionaries are identified by the id under which folder_map holds them. */
module FolderTree {
  import opened Selections
  import opened StableSorting
  import opened Wrappers

  datatype Folder = Folder(id: string, name: string, parent: Option<string>, description: Option<string>, sortOrder: int)

  function SortKey(data: map<string, Folder>): string -> Key {
    id => if id in data then Key(data[id].sortOrder, data[id].name) else Key(0, "")
  }

  /** folder_map after all folders were stored: a repeated id keeps its first place and its last value. */
  function DataOf(folders: seq<Folder>): map<string, Folder> {
    if folders == [] then map[]
    else
      var last := folders[|folders| - 1];
      DataOf(folders[..|folders| - 1])[last.id := last]
  }

  function OrderOf(folders: seq<Folder>): seq<string> {
    if folders == [] then []
    else
      var before := OrderOf(folders[..|folders| - 1]);
      var id := folders[|folders| - 1].id;
      if id in before then before else before + [id]
  }

  /** The ids whose parent is p, in folder_map order. */
  function ChildrenOf(data: map<string, Folder>, order: seq<string>, p: Option<string>): seq<string> {
    if order == [] then []
    else
      var id := order[|order| - 1];
      ChildrenOf(data, order[..|order| - 1], p) + (if id in data && data[id].parent == p then [id] else [])
  }

  function Linked(data: map<string, Folder>, order: seq<string>): map<string, seq<string>> {
    map id | id in data :: ChildrenOf(data, order, Some(id))
  }

  ghost predicate Distinct(ids: seq<string>) {
    forall i, j :: 0 <= i < j < |ids| ==> ids[i] != ids[j]
  }

  // ----- parent chains

  /** The parent chain of id reaches a root after n steps. */
  ghost predicate AtDepth(data: map<string, Folder>, id: string, n: nat)
    decreases n
  {
    id in data && match data[id].parent
      case None => n == 0
      case Some(p) => n > 0 && AtDepth(data, p, n - 1)
  }

  ghost predicate ReachesRoot(data: map<string, Folder>, id: string) {
    exists n: nat :: AtDepth(data, id, n)
  }

  lemma {:induction false} DepthUnique(data: map<string, Folder>, id: string, m: nat, n: nat)
    requires AtDepth(data, id, m) && AtDepth(data, id, n)
    ensures m == n
    decreases m
  {
    if data[id].parent.Some? {
      DepthUnique(data, data[id].parent.value, m - 1, n - 1);
    }
  }

  ghost function Ancestors(data: map<string, Folder>, id: string, n: nat): set<string>
    requires AtDepth(data, id, n)
    decreases n
  {
    if n == 0 then {id} else {id} + Ancestors(data, data[id].parent.value, n - 1)
  }

  ghost predicate DepthAtMost(data: map<string, Folder>, id: string, n: nat) {
    exists m: nat :: m <= n && AtDepth(data, id, m)
  }

  lemma {:induction false} AncestorsCount(data: map<string, Folder>, id: string, n: nat)
    requires AtDepth(data, id, n)
    ensures Ancestors(data, id, n) <= data.Keys && |Ancestors(data, id, n)| == n + 1
    ensures forall a :: a in Ancestors(data, id, n) ==> DepthAtMost(data, a, n)
    decreases n
  {
    if n > 0 {
      var p := data[id].parent.value;
      AncestorsCount(data, p, n - 1);
      if id in Ancestors(data, p, n - 1) {
        assert DepthAtMost(data, id, n - 1);
        var m: nat :| m <= n - 1 && AtDepth(data, id, m);
        DepthUnique(data, id, m, n);
        assert false;
      }
      forall a | a in Ancestors(data, p, n - 1)
        ensures DepthAtMost(data, a, n)
      {
        assert DepthAtMost(data, a, n - 1);
        var m: nat :| m <= n - 1 && AtDepth(data, a, m);
      }
    }
    assert AtDepth(data, id, n);
  }

  /** No chain is longer than the table: this bounds the recursion of the sort. */
  lemma DepthBelowSize(data: map<string, Folder>, id: string, n: nat)
    requires AtDepth(data, id, n)
    ensures n < |data|
  {
    AncestorsCount(data, id, n);
    SubsetSize(Ancestors(data, id, n), data.Keys);
    assert |data.Keys| == |data|;
  }

  lemma {:induction false} SubsetSize<T>(a: set<T>, b: set<T>)
    requires a <= b
    ensures |a| <= |b|
  {
    assert b == a + (b - a) && a !! (b - a);
  }

  /** The k-th ancestor of id. */
  ghost function Up(data: map<string, Folder>, id: string, k: nat): string
    decreases k
  {
    if k == 0 || id !in data || data[id].parent.None? then id
    else Up(data, data[id].parent.value, k - 1)
  }

  lemma {:induction false} UpDepth(data: map<string, Folder>, id: string, n: nat, k: nat)
    requires AtDepth(data, id, n) && k <= n
    ensures AtDepth(data, Up(data, id, k), n - k)
    ensures k < n ==> data[Up(data, id, k)].parent == Some(Up(data, id, k + 1))
    decreases k
  {
    if k > 0 {
      UpDepth(data, data[id].parent.value, n - 1, k - 1);
    }
  }

  /** x lies at or below one of the ids, all of which have depth d. */
  ghost predicate Under(data: map<string, Folder>, x: string, ids: seq<string>, d: nat) {
    exists m: nat :: m >= d && AtDepth(data, x, m) && Up(data, x, m - d) in ids
  }

  // ----- the child lists

  type Children = map<string, seq<string>>

  /** Every child list holds exactly the ids that name it as parent, each once. */
  ghost predicate ListsChildren(data: map<string, Folder>, children: Children) {
    && children.Keys == data.Keys
    && (forall id :: id in children ==> Distinct(children[id]))
    && forall id, c :: id in children ==> (c in children[id] <==> c in data && data[c].parent == Some(id))
  }

  ghost predicate Level(data: map<string, Folder>, ids: seq<string>, d: nat) {
    Distinct(ids) && forall id :: id in ids ==> AtDepth(data, id, d)
  }

  lemma ChildLevel(data: map<string, Folder>, children: Children, id: string, d: nat)
    requires ListsChildren(data, children) && AtDepth(data, id, d)
    ensures Level(data, children[id], d + 1)
  {
  }

  lemma UnderOneDown(data: map<string, Folder>, children: Children, x: string, id: string, d: nat)
    requires ListsChildren(data, children) && AtDepth(data, id, d)
    requires Under(data, x, [id], d) && x != id
    ensures Under(data, x, children[id], d + 1)
  {
    var m: nat :| m >= d && AtDepth(data, x, m) && Up(data, x, m - d) in [id];
    assert m > d;
    UpDepth(data, x, m, m - d - 1);
    hide AtDepth, Up;
    assert Up(data, x, m - (d + 1)) in children[id];
  }

  lemma UnderOneUp(data: map<string, Folder>, children: Children, x: string, id: string, d: nat)
    requires ListsChildren(data, children) && AtDepth(data, id, d)
    requires Under(data, x, children[id], d + 1)
    ensures Under(data, x, [id], d) && x != id
  {
    hide Up;
    var m: nat :| m >= d + 1 && AtDepth(data, x, m) && Up(data, x, m - (d + 1)) in children[id];
    UpDepth(data, x, m, m - d - 1);
    hide AtDepth;
    assert Up(data, x, m - d) == id;
    if x == id {
      DepthUnique(data, id, m, d);
      assert false;
    }
  }

  /** Below a single folder: the folder itself, or below its children, and never both. */
  lemma UnderOne(data: map<string, Folder>, children: Children, x: string, id: string, d: nat)
    requires ListsChildren(data, children) && AtDepth(data, id, d)
    ensures Under(data, x, [id], d) <==> x == id || Under(data, x, children[id], d + 1)
    ensures !Under(data, id, children[id], d + 1)
  {
    if Under(data, x, [id], d) && x != id {
      UnderOneDown(data, children, x, id, d);
    }
    if Under(data, x, children[id], d + 1) {
      UnderOneUp(data, children, x, id, d);
    }
    assert Up(data, id, d - d) in [id];
    if Under(data, id, children[id], d + 1) {
      UnderOneUp(data, children, id, id, d);
    }
  }

  /** A folder lies below at most one of the ids of a level. */
  lemma UnderSplit(data: map<string, Folder>, x: string, a: seq<string>, b: seq<string>, d: nat)
    requires Level(data, a + b, d)
    ensures Under(data, x, a + b, d) <==> Under(data, x, a, d) || Under(data, x, b, d)
    ensures !(Under(data, x, a, d) && Under(data, x, b, d))
  {
    hide AtDepth, Up;
    assert forall u :: u in a + b <==> u in a || u in b;
    assert forall u :: !(u in a && u in b) by {
      forall i, j | 0 <= i < |a| && 0 <= j < |b|
        ensures a[i] != b[j]
      {
        assert (a + b)[i] == a[i] && (a + b)[|a| + j] == b[j];
      }
    }
    forall m: nat, n: nat | AtDepth(data, x, m) && AtDepth(data, x, n)
      ensures n == m
    {
      DepthUnique(data, x, m, n);
    }
  }

  // ----- sorting child lists in place

  function Sorted(data: map<string, Folder>, ids: seq<string>): seq<string> { Sort(ids, SortKey(data)) }

  /** How the in-place sort changes the child lists when started on `ids`: exactly the lists of the
      folders at or below them are sorted. */
  ghost predicate SortedUnder(data: map<string, Folder>, before: Children, after: Children, ids: seq<string>, d: nat) {
    && after.Keys == before.Keys
    && forall x :: x in before ==>
         after[x] == if Under(data, x, ids, d) then Sorted(data, before[x]) else before[x]
  }

  lemma {:induction false} DistinctCounts(ids: seq<string>, x: string)
    requires Distinct(ids)
    ensures multiset(ids)[x] == if x in ids then 1 else 0
  {
    if ids != [] {
      assert ids == ids[..|ids| - 1] + [ids[|ids| - 1]];
      DistinctCounts(ids[..|ids| - 1], x);
    }
  }

  lemma {:induction false} CountsDistinct(ids: seq<string>)
    requires forall x :: multiset(ids)[x] <= 1
    ensures Distinct(ids)
  {
    if ids != [] {
      var n := |ids| - 1;
      assert ids == ids[..n] + [ids[n]];
      forall x
        ensures multiset(ids[..n])[x] <= 1
      {
        assert multiset(ids)[x] >= multiset(ids[..n])[x];
      }
      CountsDistinct(ids[..n]);
      assert multiset(ids)[ids[n]] == multiset(ids[..n])[ids[n]] + 1;
    }
  }

  lemma SortedSame(data: map<string, Folder>, ids: seq<string>)
    ensures forall x :: x in Sorted(data, ids) <==> x in ids
    ensures Distinct(ids) ==> Distinct(Sorted(data, ids))
    ensures multiset(Sorted(data, ids)) == multiset(ids)
  {
    SortPermutes(ids, SortKey(data));
    forall x
      ensures x in Sorted(data, ids) <==> x in ids
    {
      assert x in multiset(ids) <==> x in ids;
      assert x in multiset(Sorted(data, ids)) <==> x in Sorted(data, ids);
    }
    if Distinct(ids) {
      forall x
        ensures multiset(ids)[x] <= 1
      {
        DistinctCounts(ids, x);
      }
      CountsDistinct(Sorted(data, ids));
    }
  }

  lemma SortedUnderListsChildren(data: map<string, Folder>, before: Children, after: Children, ids: seq<string>, d: nat)
    requires ListsChildren(data, before) && SortedUnder(data, before, after, ids, d)
    ensures ListsChildren(data, after)
  {
    hide Under, Sorted;
    forall id | id in after
      ensures Distinct(after[id]) && forall c :: c in after[id] <==> c in before[id]
    {
      SortedSame(data, before[id]);
    }
  }

  /** One turn of the loop: sort below `id`, then store its sorted list. */
  lemma SortStep(data: map<string, Folder>, before: Children, mid: Children, below: Children, done: seq<string>, id: string, d: nat)
    requires ListsChildren(data, before) && Level(data, done + [id], d)
    requires SortedUnder(data, before, mid, done, d)
    requires id in before && id in mid && mid[id] == before[id]
    requires SortedUnder(data, mid, below, before[id], d + 1)
    ensures SortedUnder(data, before, below[id := Sorted(data, before[id])], done + [id], d)
  {
    hide Under, Sorted, AtDepth;
    assert id in done + [id];
    forall x | x in before
      ensures below[id := Sorted(data, before[id])][x]
           == if Under(data, x, done + [id], d) then Sorted(data, before[x]) else before[x]
    {
      UnderSplit(data, x, done, [id], d);
      UnderOne(data, before, x, id, d);
    }
  }

  lemma NotUnderEarlier(data: map<string, Folder>, done: seq<string>, id: string, d: nat)
    requires Level(data, done + [id], d)
    ensures !Under(data, id, done, d)
  {
    assert id in done + [id];
    UnderSplit(data, id, done, [id], d);
    assert Up(data, id, d - d) in [id];
  }

  lemma LevelPart(data: map<string, Folder>, ids: seq<string>, n: nat, d: nat)
    requires Level(data, ids, d) && n < |ids|
    ensures Level(data, ids[..n] + [ids[n]], d) && ids[..n] + [ids[n]] == ids[..n + 1]
  {
  }

  // ----- siblings, told on the folders

  /** Of two siblings the one that comes first: by sort_order, then by name, then by place in the table. */
  ghost predicate ComesFirst(data: map<string, Folder>, order: seq<string>, a: string, b: string) {
    a in data && b in data &&
    (|| data[a].sortOrder < data[b].sortOrder
     || (data[a].sortOrder == data[b].sortOrder && TextBelow(data[a].name, data[b].name))
     || (data[a].sortOrder == data[b].sortOrder && data[a].name == data[b].name && Before(order, a, b)))
  }

  /** The folders under p, each once, in that order. */
  ghost predicate SiblingsOf(data: map<string, Folder>, order: seq<string>, p: Option<string>, s: seq<string>) {
    && (forall c :: c in s <==> c in data && data[c].parent == p)
    && forall i, j :: 0 <= i < j < |s| ==> s[i] != s[j] && ComesFirst(data, order, s[i], s[j])
  }

  /** The table: for every id the folder that was listed last under it; ids stand where they were listed first. */
  ghost predicate StoredAs(folders: seq<Folder>, data: map<string, Folder>, order: seq<string>) {
    && (forall id :: id in data <==> exists i :: 0 <= i < |folders| && folders[i].id == id)
    && (forall id :: id in data ==> exists i :: 0 <= i < |folders| && LastUnder(folders, id, i) && folders[i] == data[id])
    && exists at: seq<nat> :: FirstsAre(folders, order, at)
  }

  ghost predicate FirstsAre(folders: seq<Folder>, order: seq<string>, at: seq<nat>) {
    && Ascends(at, |folders|) && |at| == |order| && (forall k :: 0 <= k < |at| ==> order[k] == folders[at[k]].id)
    && forall i: nat :: i in at <==> i < |folders| && FirstUnder(folders, i)
  }

  ghost predicate LastUnder(folders: seq<Folder>, id: string, i: nat)
    requires i < |folders|
  {
    folders[i].id == id && forall j :: i < j < |folders| ==> folders[j].id != id
  }

  ghost predicate FirstUnder(folders: seq<Folder>, i: nat)
    requires i < |folders|
  {
    forall j :: 0 <= j < i ==> folders[j].id != folders[i].id
  }

  /** Places in the table, with what has one place below the other. */
  lemma {:induction false} FilteredPrecede(data: map<string, Folder>, order: seq<string>, p: Option<string>, i: nat, j: nat)
    requires i < j < |ChildrenOf(data, order, p)|
    ensures Before(order, ChildrenOf(data, order, p)[i], ChildrenOf(data, order, p)[j])
  {
    var n := |order| - 1;
    var front, last := order[..n], order[n];
    var kept := ChildrenOf(data, front, p);
    if j < |kept| {
      FilteredPrecede(data, front, p, i, j);
      var a, b :| 0 <= a < b < |front| && front[a] == kept[i] && front[b] == kept[j];
      assert order[a] == kept[i] && order[b] == kept[j];
    } else {
      ChildrenOfAre(data, front, p);
      assert kept[i] in kept && kept[i] in front;
      var a :| 0 <= a < |front| && front[a] == kept[i];
      assert order[a] == kept[i] && order[n] == last;
    }
  }

  /** Sorting the children of p lists each of them once, by sort_order, then name, then place in the table. */
  lemma SiblingsOrdered(data: map<string, Folder>, order: seq<string>, p: Option<string>)
    requires Distinct(order) && forall id :: id in order <==> id in data
    ensures SiblingsOf(data, order, p, Sorted(data, ChildrenOf(data, order, p)))
  {
    var ids := ChildrenOf(data, order, p);
    var s := Sorted(data, ids);
    ChildrenOfAre(data, order, p);
    SortedSame(data, ids);
    hide Sorted, ChildrenOf, TextBelow, Before;
    forall i: nat, j: nat | i < j < |s|
      ensures ComesFirst(data, order, s[i], s[j])
    {
      assert s[i] in ids && s[j] in ids;
      SiblingBefore(data, order, p, i, j);
    }
  }

  lemma SiblingBefore(data: map<string, Folder>, order: seq<string>, p: Option<string>, i: nat, j: nat)
    requires i < j < |Sorted(data, ChildrenOf(data, order, p))|
    requires var s := Sorted(data, ChildrenOf(data, order, p)); s[i] in data && s[j] in data
    ensures var s := Sorted(data, ChildrenOf(data, order, p)); ComesFirst(data, order, s[i], s[j])
  {
    var ids, key := ChildrenOf(data, order, p), SortKey(data);
    var s := Sorted(data, ids);
    var a, b := s[i], s[j];
    SortSorts(ids, key);
    assert KeyLe(key(a), key(b));
    TextLeExactly(data[a].name, data[b].name);
    if key(a) == key(b) {
      SortStable(ids, key, key(a));
      assert Before(s, a, b);
      WithKeyBefore(s, key, key(a), a, b);
      WithKeyBefore(ids, key, key(a), a, b);
      var m: nat, n: nat :| m < n < |ids| && ids[m] == a && ids[n] == b;
      FilteredPrecede(data, order, p, m, n);
    }
  }

  lemma {:induction false} DataTells(folders: seq<Folder>, id: string)
    ensures id in DataOf(folders) <==> exists i :: 0 <= i < |folders| && folders[i].id == id
    ensures id in DataOf(folders) ==> exists i :: 0 <= i < |folders| && LastUnder(folders, id, i) && folders[i] == DataOf(folders)[id]
  {
    if folders != [] {
      var n := |folders| - 1;
      var front, last := folders[..n], folders[n];
      assert folders == front + [last];
      DataTells(front, id);
      if last.id == id {
        assert LastUnder(folders, id, n);
      } else if id in DataOf(front) {
        var i :| 0 <= i < |front| && LastUnder(front, id, i) && front[i] == DataOf(front)[id];
        assert LastUnder(folders, id, i) && folders[i] == DataOf(folders)[id];
      }
    }
  }

  lemma {:induction false} OrderTells(folders: seq<Folder>) returns (at: seq<nat>)
    ensures FirstsAre(folders, OrderOf(folders), at)
  {
    at := [];
    if folders != [] {
      var n := |folders| - 1;
      var front, last := folders[..n], folders[n];
      var before := OrderTells(front);
      assert folders == front + [last];
      OrderIsKeys(front);
      DataTells(front, last.id);
      at := before + if last.id in OrderOf(front) then [] else [n];
      FirstsMore(front, OrderOf(front), before, last);
      hide FirstsAre;
      assert OrderOf(front) + [] == OrderOf(front);
    }
  }

  lemma FirstsMore(folders: seq<Folder>, order: seq<string>, at: seq<nat>, last: Folder)
    requires FirstsAre(folders, order, at)
    requires last.id in order <==> exists i :: 0 <= i < |folders| && folders[i].id == last.id
    ensures FirstsAre(folders + [last], order + (if last.id in order then [] else [last.id]), at + if last.id in order then [] else [|folders|])
  {
    var all := folders + [last];
    assert forall j :: 0 <= j < |folders| ==> all[j] == folders[j];
    if i :| 0 <= i < |folders| && folders[i].id == last.id {
      assert all[i].id == last.id;
    }
    assert FirstUnder(all, |folders|) <==> last.id !in order;
    forall i: nat | i < |folders|
      ensures FirstUnder(all, i) <==> FirstUnder(folders, i)
    {
    }
    hide FirstUnder;
  }

  lemma TableTells(folders: seq<Folder>)
    ensures StoredAs(folders, DataOf(folders), OrderOf(folders))
  {
    var at := OrderTells(folders);
    hide DataOf, OrderOf, LastUnder, FirstsAre;
    forall id
      ensures id in DataOf(folders) <==> exists i :: 0 <= i < |folders| && folders[i].id == id
      ensures id in DataOf(folders) ==> exists i :: 0 <= i < |folders| && LastUnder(folders, id, i) && folders[i] == DataOf(folders)[id]
    {
      DataTells(folders, id);
    }
  }

  class FolderTreeBuilder {
    var data: map<string, Folder>
    var order: seq<string>
    var children: Children

    constructor ()
      ensures data == map[] && order == [] && children == map[]
    {
      data, order, children := map[], [], map[];
    }

    /** folder_map: one dictionary per id, each with an empty child list. */
    method StoreFolders(folders: seq<Folder>)
      requires data == map[] && order == [] && children == map[]
      modifies this
      ensures data == DataOf(folders) && order == OrderOf(folders)
      ensures children == Childless(data)
    {
      hide DataOf, OrderOf;
      NoFolders(folders);
      for i := 0 to |folders|
        invariant data == DataOf(folders[..i]) && order == OrderOf(folders[..i])
        invariant children == Childless(data)
      {
        var folder := folders[i];
        OrderIsKeys(folders[..i]);
        OneFolderMore(folders, i);
        NoChildrenYet(data, folder);
        if folder.id !in data {
          order := order + [folder.id];
        }
        data := data[folder.id := folder];
        children := children[folder.id := []];
      }
      assert folders[..|folders|] == folders;
    }

    /** Appends every folder to the child list of its parent; parentless folders are the roots,
        folders with an unknown parent go nowhere. */
    method LinkChildren() returns (roots: seq<string>)
      requires forall id :: id in order <==> id in data
      requires children == Childless(data)
      modifies this`children
      ensures roots == ChildrenOf(data, order, None)
      ensures children == Linked(data, order)
    {
      hide ChildrenOf, Linked;
      roots := [];
      NothingLinked(data);
      for i := 0 to |order|
        invariant roots == ChildrenOf(data, order[..i], None)
        invariant children.Keys == data.Keys && children == Linked(data, order[..i])
      {
        var id := order[i];
        assert id in order;
        LinkStep(data, order, i);
        match data[id].parent {
          case None => roots := roots + [id];
          case Some(p) =>
            if p in data {
              children := children[p := children[p] + [id]];
            }
        }
      }
      assert order[..|order|] == order;
    }

    /** The folder tree: the sorted roots, with the child lists of everything below them sorted. */
    method GetFolderTree(folders: seq<Folder>) returns (roots: seq<string>)
      requires data == map[] && order == [] && children == map[]
      modifies this
      ensures data == DataOf(folders) && order == OrderOf(folders)
      ensures roots == Sorted(data, ChildrenOf(data, order, None))
      ensures StoredAs(folders, data, order) && SiblingsOf(data, order, None, roots)
      ensures ListsChildren(data, children) && Level(data, roots, 0)
      ensures forall x :: x in data && ReachesRoot(data, x) ==>
                children[x] == Sorted(data, ChildrenOf(data, order, Some(x))) && SiblingsOf(data, order, Some(x), children[x])
      ensures forall x :: multiset(Preorder(data, children, roots, 0))[x] == if ReachesRoot(data, x) then 1 else 0
    {
      hide Sorted, Under, ReachesRoot, Preorder, DataOf, OrderOf, ChildrenOf, AtDepth, Level, StoredAs, SiblingsOf;
      StoreFolders(folders);
      OrderIsKeys(folders);
      TableTells(folders);
      SiblingsOrdered(data, order, None);
      forall x
        ensures SiblingsOf(data, order, Some(x), Sorted(data, ChildrenOf(data, order, Some(x))))
      {
        SiblingsOrdered(data, order, Some(x));
      }
      var unsorted := LinkChildren();
      ghost var linked := children;
      LinkedLists(data, order);
      roots := SortFolders(unsorted, 0);
      SortedUnderListsChildren(data, linked, children, unsorted, 0);
      SortedLevel(data, unsorted, 0);
      forall x
        ensures Under(data, x, roots, 0) == Under(data, x, unsorted, 0) == ReachesRoot(data, x)
      {
        UnderRoots(data, order, x);
        UnderSorted(data, x, unsorted, 0);
      }
      forall x
        ensures multiset(Preorder(data, children, roots, 0))[x] == if ReachesRoot(data, x) then 1 else 0
      {
        AppearsOnceIfUnder(data, children, roots, 0, x);
      }
    }

    method SortFolders(ids: seq<string>, ghost d: nat) returns (sorted: seq<string>)
      requires Level(data, ids, d) && ListsChildren(data, children)
      modifies this`children
      ensures sorted == Sorted(data, ids)
      ensures SortedUnder(data, old(children), children, ids, d)
      decreases |data| - d
    {
      hide *;
      SortedIs(data, ids);
      sorted := Sort(ids, SortKey(data));
      ghost var before := children;
      NothingUnder(data, before, d);
      for i := 0 to |sorted|
        invariant SortedUnder(data, before, children, sorted[..i], d)
      {
        var id := sorted[i];
        ghost var mid := children;
        LoopTurn(data, before, mid, ids, sorted, i, d);
        if children[id] != [] {
          var below := SortFolders(children[id], d + 1);
          SortStep(data, before, mid, children, sorted[..i], id, d);
          children := children[id := below];
        } else {
          NothingUnder(data, mid, d + 1);
          SortStep(data, before, mid, mid, sorted[..i], id, d);
          SortedIs(data, []);
          assert mid[id := []] == mid;
        }
      }
      assert sorted[..|sorted|] == sorted;
      SameUnder(data, before, children, ids, d);
    }
  }

  lemma NoFolders(folders: seq<Folder>)
    ensures DataOf(folders[..0]) == map[] && OrderOf(folders[..0]) == []
  {
  }

  lemma OneFolderMore(folders: seq<Folder>, i: nat)
    requires i < |folders|
    ensures var f, before := folders[i], folders[..i];
      && DataOf(folders[..i + 1]) == DataOf(before)[f.id := f]
      && OrderOf(folders[..i + 1]) == if f.id in OrderOf(before) then OrderOf(before) else OrderOf(before) + [f.id]
  {
    assert folders[..i + 1][..i] == folders[..i];
  }

  function Childless(data: map<string, Folder>): Children { map id | id in data :: [] }

  lemma NoChildrenYet(data: map<string, Folder>, f: Folder)
    ensures Childless(data)[f.id := []] == Childless(data[f.id := f])
  {
  }

  lemma NothingLinked(data: map<string, Folder>)
    ensures Linked(data, []) == map id | id in data :: []
    ensures ChildrenOf(data, [], None) == []
  {
  }

  /** Linking one more folder. */
  lemma LinkStep(data: map<string, Folder>, order: seq<string>, i: nat)
    requires i < |order| && order[i] in data
    ensures var id, before, after := order[i], Linked(data, order[..i]), Linked(data, order[..i + 1]);
            && before.Keys == after.Keys == data.Keys
            && ChildrenOf(data, order[..i + 1], None)
               == ChildrenOf(data, order[..i], None) + (if data[id].parent.None? then [id] else [])
            && after == (if data[id].parent.Some? && data[id].parent.value in data
                         then before[data[id].parent.value := before[data[id].parent.value] + [id]] else before)
  {
    hide ChildrenOf;
    var id, before, after := order[i], Linked(data, order[..i]), Linked(data, order[..i + 1]);
    ChildrenOfStep(data, order, i, None);
    forall q | q in data
      ensures after[q] == if data[id].parent == Some(q) then before[q] + [id] else before[q]
    {
      ChildrenOfStep(data, order, i, Some(q));
    }
    if data[id].parent.Some? && data[id].parent.value in data {
      var p := data[id].parent.value;
      assert after == before[p := before[p] + [id]];
    } else {
      assert after == before;
    }
  }

  lemma ChildrenOfStep(data: map<string, Folder>, order: seq<string>, i: nat, p: Option<string>)
    requires i < |order| && order[i] in data
    ensures ChildrenOf(data, order[..i + 1], p)
         == if data[order[i]].parent == p then ChildrenOf(data, order[..i], p) + [order[i]] else ChildrenOf(data, order[..i], p)
  {
    assert order[..i + 1][..i] == order[..i];
  }

  /** What a turn of the loop finds: the list at `id` is still the original one, a level further down. */
  lemma LoopTurn(data: map<string, Folder>, before: Children, mid: Children, ids: seq<string>, sorted: seq<string>, i: nat, d: nat)
    requires Level(data, ids, d) && ListsChildren(data, before) && sorted == Sorted(data, ids) && i < |sorted|
    requires SortedUnder(data, before, mid, sorted[..i], d)
    ensures sorted[..i + 1] == sorted[..i] + [sorted[i]] && Level(data, sorted[..i] + [sorted[i]], d)
    ensures sorted[i] in mid && sorted[i] in before && mid[sorted[i]] == before[sorted[i]]
    ensures ListsChildren(data, mid) && Level(data, mid[sorted[i]], d + 1)
    ensures d < |data|
  {
    hide Under, Sorted, AtDepth;
    var id := sorted[i];
    SortedSame(data, ids);
    LevelPart(data, sorted, i, d);
    assert id in ids;
    AtDepthIn(data, id, d);
    NotUnderEarlier(data, sorted[..i], id, d);
    SortedUnderListsChildren(data, before, mid, sorted[..i], d);
    DepthBelowSize(data, id, d);
    ChildLevel(data, mid, id, d);
  }

  lemma SortedIs(data: map<string, Folder>, ids: seq<string>)
    ensures Sorted(data, ids) == Sort(ids, SortKey(data))
    ensures Sorted(data, []) == []
  {
  }

  lemma AtDepthIn(data: map<string, Folder>, id: string, d: nat)
    requires AtDepth(data, id, d)
    ensures id in data
  {
  }

  lemma NothingUnder(data: map<string, Folder>, children: Children, d: nat)
    ensures SortedUnder(data, children, children, [], d)
  {
  }

  lemma UnderSorted(data: map<string, Folder>, x: string, ids: seq<string>, d: nat)
    ensures Under(data, x, Sorted(data, ids), d) <==> Under(data, x, ids, d)
  {
    hide Sorted;
    SortedSame(data, ids);
  }

  lemma SortedLevel(data: map<string, Folder>, ids: seq<string>, d: nat)
    requires Level(data, ids, d)
    ensures Level(data, Sorted(data, ids), d)
  {
    hide Sorted;
    SortedSame(data, ids);
  }

  lemma SameUnder(data: map<string, Folder>, before: Children, after: Children, ids: seq<string>, d: nat)
    requires SortedUnder(data, before, after, Sorted(data, ids), d)
    ensures SortedUnder(data, before, after, ids, d)
  {
    hide Sorted;
    SortedSame(data, ids);
    forall x
      ensures Under(data, x, Sorted(data, ids), d) <==> Under(data, x, ids, d)
    {
    }
  }

  lemma {:induction false} OrderIsKeys(folders: seq<Folder>)
    ensures forall id :: id in OrderOf(folders) <==> id in DataOf(folders)
    ensures Distinct(OrderOf(folders))
  {
    if folders != [] {
      OrderIsKeys(folders[..|folders| - 1]);
    }
  }

  lemma {:induction false} ChildrenOfAre(data: map<string, Folder>, order: seq<string>, p: Option<string>)
    ensures forall c :: c in ChildrenOf(data, order, p) <==> c in order && c in data && data[c].parent == p
    ensures Distinct(order) ==> Distinct(ChildrenOf(data, order, p))
  {
    if order != [] {
      ChildrenOfAre(data, order[..|order| - 1], p);
      assert order == order[..|order| - 1] + [order[|order| - 1]];
    }
  }

  lemma LinkedLists(data: map<string, Folder>, order: seq<string>)
    requires Distinct(order) && forall id :: id in order <==> id in data
    ensures ListsChildren(data, Linked(data, order))
    ensures Level(data, ChildrenOf(data, order, None), 0)
  {
    hide ChildrenOf;
    ChildrenOfAre(data, order, None);
    var children := Linked(data, order);
    forall id | id in data
      ensures Distinct(children[id])
    {
      ChildrenOfAre(data, order, Some(id));
    }
    forall id, c | id in data
      ensures c in children[id] <==> c in data && data[c].parent == Some(id)
    {
      ChildrenOfAre(data, order, Some(id));
    }
    assert ListsChildren(data, children);
  }

  lemma UnderRoots(data: map<string, Folder>, order: seq<string>, x: string)
    requires forall id :: id in order <==> id in data
    ensures Under(data, x, ChildrenOf(data, order, None), 0) <==> ReachesRoot(data, x)
  {
    hide ChildrenOf;
    ChildrenOfAre(data, order, None);
    if ReachesRoot(data, x) {
      var m: nat :| AtDepth(data, x, m);
      UpDepth(data, x, m, m);
      assert Up(data, x, m - 0) in ChildrenOf(data, order, None);
    }
  }

  // ----- each folder appears once, or never

  /** The ids of the tree in the order in which its JSON form lists them. */
  ghost function Preorder(data: map<string, Folder>, children: Children, ids: seq<string>, d: nat): seq<string>
    requires ListsChildren(data, children) && Level(data, ids, d)
    decreases |data| - d, |ids|
  {
    if ids == [] then []
    else
      assert ids[0] in ids;
      DepthBelowSize(data, ids[0], d);
      ChildLevel(data, children, ids[0], d);
      [ids[0]] + Preorder(data, children, children[ids[0]], d + 1) + Preorder(data, children, ids[1..], d)
  }

  lemma PreorderCount(data: map<string, Folder>, children: Children, ids: seq<string>, d: nat, x: string)
    requires ListsChildren(data, children) && Level(data, ids, d) && ids != []
    ensures ids[0] in children && d < |data| && AtDepth(data, ids[0], d)
    ensures Level(data, children[ids[0]], d + 1) && Level(data, ids[1..], d)
    ensures multiset(Preorder(data, children, ids, d))[x]
         == (if x == ids[0] then 1 else 0)
          + multiset(Preorder(data, children, children[ids[0]], d + 1))[x]
          + multiset(Preorder(data, children, ids[1..], d))[x]
  {
    assert ids[0] in ids;
    DepthBelowSize(data, ids[0], d);
    hide AtDepth, DepthAtMost;
    AtDepthIn(data, ids[0], d);
    ChildLevel(data, children, ids[0], d);
  }

  lemma {:induction false} AppearsOnceIfUnder(data: map<string, Folder>, children: Children, ids: seq<string>, d: nat, x: string)
    requires ListsChildren(data, children) && Level(data, ids, d)
    ensures multiset(Preorder(data, children, ids, d))[x] == if Under(data, x, ids, d) then 1 else 0
    decreases |data| - d, |ids|
  {
    hide *;
    if ids == [] {
      NoneUnderNothing(data, children, x, d);
    } else {
      var id, rest := ids[0], ids[1..];
      assert ids == [id] + rest;
      PreorderCount(data, children, ids, d, x);
      AppearsOnceIfUnder(data, children, children[id], d + 1, x);
      AppearsOnceIfUnder(data, children, rest, d, x);
      UnderSplit(data, x, [id], rest, d);
      UnderOne(data, children, x, id, d);
    }
  }

  lemma NoneUnderNothing(data: map<string, Folder>, children: Children, x: string, d: nat)
    requires ListsChildren(data, children)
    ensures !Under(data, x, [], d) && Level(data, [], d) && Preorder(data, children, [], d) == []
  {
  }

  // ----- which folders never appear

  /** The chain from id leads to a folder whose parent does not exist. */
  ghost predicate OrphanAbove(data: map<string, Folder>, id: string) {
    exists k: nat :: var u := Up(data, id, k); u in data && data[u].parent.Some? && data[u].parent.value !in data
  }

  /** The chain from id runs into a cycle. */
  ghost predicate CycleAbove(data: map<string, Folder>, id: string) {
    exists i: nat, j: nat :: i < j && Up(data, id, i) == Up(data, id, j) && Continues(data, id, i)
  }

  ghost predicate Continues(data: map<string, Folder>, id: string, k: nat) {
    Up(data, id, k) in data && data[Up(data, id, k)].parent.Some?
  }

  lemma {:induction false} UpNext(data: map<string, Folder>, id: string, k: nat)
    ensures Up(data, id, k + 1) == Up(data, Up(data, id, k), 1)
    decreases k
  {
    if k > 0 && id in data && data[id].parent.Some? {
      UpNext(data, data[id].parent.value, k - 1);
    }
  }

  /** A chain that is not at a root after k steps started at no smaller depth. */
  lemma {:induction false} ContinuesMeansDeeper(data: map<string, Folder>, id: string, n: nat, k: nat)
    requires AtDepth(data, id, n) && Continues(data, id, k)
    ensures k < n
    decreases k
  {
    if k > 0 && data[id].parent.Some? {
      ContinuesMeansDeeper(data, data[id].parent.value, n - 1, k - 1);
    }
  }

  lemma {:induction false} BackToRoot(data: map<string, Folder>, id: string, k: nat)
    requires ReachesRoot(data, Up(data, id, k)) && forall i: nat :: i < k ==> Continues(data, id, i)
    ensures ReachesRoot(data, id)
    decreases k
  {
    if k > 0 {
      UpNext(data, id, k - 1);
      assert Continues(data, id, k - 1);
      var m: nat :| AtDepth(data, Up(data, id, k), m);
      assert AtDepth(data, Up(data, id, k - 1), m + 1);
      BackToRoot(data, id, k - 1);
    }
  }

  ghost predicate VisitedBefore(data: map<string, Folder>, id: string, k: nat, u: string) {
    exists i: nat :: i < k && Up(data, id, i) == u
  }

  /** k folders in a row with a parent, all different, need k folders. */
  lemma {:induction false} ChainFits(data: map<string, Folder>, id: string, k: nat) returns (seen: set<string>)
    requires forall i: nat :: i < k ==> Continues(data, id, i)
    requires !CycleAbove(data, id)
    ensures seen <= data.Keys && |seen| == k
    ensures forall u :: u in seen ==> VisitedBefore(data, id, k, u)
    decreases k
  {
    seen := {};
    if k > 0 {
      seen := ChainFits(data, id, k - 1);
      var u := Up(data, id, k - 1);
      assert Continues(data, id, k - 1);
      if u in seen {
        assert VisitedBefore(data, id, k - 1, u);
        var i: nat :| i < k - 1 && Up(data, id, i) == u;
        assert Continues(data, id, i);
        assert CycleAbove(data, id);
      }
      forall v | v in seen
        ensures VisitedBefore(data, id, k, v)
      {
        assert VisitedBefore(data, id, k - 1, v);
      }
      seen := seen + {u};
    }
  }

  lemma {:induction false} ContinuesForever(data: map<string, Folder>, id: string, k: nat)
    requires id in data && !ReachesRoot(data, id) && !OrphanAbove(data, id)
    ensures forall i: nat :: i < k ==> Continues(data, id, i)
    ensures Up(data, id, k) in data
    decreases k
  {
    if k > 0 {
      ContinuesForever(data, id, k - 1);
      var u := Up(data, id, k - 1);
      if data[u].parent.None? {
        assert AtDepth(data, u, 0);
        BackToRoot(data, id, k - 1);
      }
      assert Continues(data, id, k - 1);
      UpNext(data, id, k - 1);
    }
  }

  /** A folder is shown if and only if its chain of parents meets no missing parent and no cycle. */
  lemma ShownExactly(data: map<string, Folder>, id: string)
    requires id in data
    ensures ReachesRoot(data, id) <==> !OrphanAbove(data, id) && !CycleAbove(data, id)
  {
    assert |data.Keys| == |data|;
    if n: nat :| AtDepth(data, id, n) {
      forall k: nat | Continues(data, id, k)
        ensures data[Up(data, id, k)].parent.value in data
      {
        ContinuesMeansDeeper(data, id, n, k);
        UpDepth(data, id, n, k);
        UpDepth(data, id, n, k + 1);
      }
      forall i: nat, j: nat | i < j && Continues(data, id, i)
        ensures Up(data, id, i) != Up(data, id, j)
      {
        ContinuesMeansDeeper(data, id, n, i);
        UpDepth(data, id, n, i);
        if Up(data, id, i) == Up(data, id, j) {
          ContinuesMeansDeeper(data, id, n, j);
          UpDepth(data, id, n, j);
          DepthUnique(data, Up(data, id, i), n - i, n - j);
          assert false;
        }
      }
    } else if !OrphanAbove(data, id) && !CycleAbove(data, id) {
      ContinuesForever(data, id, |data| + 1);
      var seen := ChainFits(data, id, |data| + 1);
      SubsetSize(seen, data.Keys);
    }
  }
}
