/** The set of tools offered to a model (astrbot/core/agent/tool.py): a list with one tool a name, in
    which an active tool is not overwritten by an inactive one. */
module ToolSets {
  import opened Wrappers

  /** Tools are objects; the id stands for their identity. */
  datatype Tool = Tool(name: string, active: bool, id: nat)

  predicate HasName(tools: seq<Tool>, name: string) { exists i :: 0 <= i < |tools| && tools[i].name == name }

  /** The first position with the name, or the length. */
  function Position(tools: seq<Tool>, name: string): (i: nat)
    ensures i <= |tools| && (forall j :: 0 <= j < i ==> tools[j].name != name)
    ensures i < |tools| ==> tools[i].name == name
    ensures i < |tools| <==> HasName(tools, name)
  {
    if tools == [] || tools[0].name == name then 0 else
      var k := Position(tools[1..], name);
      assert forall j :: 1 <= j <= k ==> tools[1..][j - 1] == tools[j];
      1 + k
  }

  function Added(tools: seq<Tool>, tool: Tool): seq<Tool> {
    var i := Position(tools, tool.name);
    if i == |tools| then tools + [tool]
    else if tool.active || !tools[i].active then tools[i := tool]
    else tools
  }

  function Removed(tools: seq<Tool>, name: string): seq<Tool> {
    if tools == [] then [] else
      Removed(tools[..|tools| - 1], name) + if tools[|tools| - 1].name != name then [tools[|tools| - 1]] else []
  }

  function AddedAll(tools: seq<Tool>, more: seq<Tool>): seq<Tool> {
    if more == [] then tools else Added(AddedAll(tools, more[..|more| - 1]), more[|more| - 1])
  }

  lemma AddedNone(tools: seq<Tool>, more: seq<Tool>)
    ensures AddedAll(tools, more[..0]) == tools
  {
  }

  lemma AddedOneMore(tools: seq<Tool>, more: seq<Tool>, i: nat)
    requires i < |more|
    ensures AddedAll(tools, more[..i + 1]) == Added(AddedAll(tools, more[..i]), more[i])
  {
    assert more[..i + 1][..i] == more[..i];
  }

  /** Adding a tool the list holds at position i changes nothing behind i. */
  lemma StillToCome(tools: seq<Tool>, more: seq<Tool>, i: nat)
    requires |tools| == |more| && i < |more| && tools[i..] == more[i..]
    ensures tools[i] == more[i] && tools[i + 1..] == more[i + 1..]
    ensures |Added(tools, more[i])| == |more| && Added(tools, more[i])[i + 1..] == more[i + 1..]
  {
    assert tools[i..][0] == more[i..][0];
    assert tools[i + 1..] == tools[i..][1..] == more[i..][1..] == more[i + 1..];
    assert Position(tools, more[i].name) <= i;
  }

  class ToolSet {
    var tools: seq<Tool>

    constructor ()
      ensures tools == []
    {
      tools := [];
    }

    method AddTool(tool: Tool)
      modifies this
      ensures tools == Added(old(tools), tool)
    {
      for i := 0 to |tools|
        invariant tools == old(tools)
        invariant forall j :: 0 <= j < i ==> tools[j].name != tool.name
      {
        if tools[i].name == tool.name {
          if tool.active || !tools[i].active {
            tools := tools[i := tool];
          }
          return;
        }
      }
      tools := tools + [tool];
    }

    method RemoveTool(name: string)
      modifies this
      ensures tools == Removed(old(tools), name)
    {
      var kept := [];
      for i := 0 to |tools|
        invariant tools == old(tools) && kept == Removed(tools[..i], name)
      {
        assert tools[..i + 1][..i] == tools[..i];
        if tools[i].name != name {
          kept := kept + [tools[i]];
        }
      }
      assert tools[..|tools|] == tools;
      tools := kept;
    }

    method GetTool(name: string) returns (tool: Option<Tool>)
      ensures tool == if HasName(tools, name) then Some(tools[Position(tools, name)]) else None
    {
      for i := 0 to |tools|
        invariant forall j :: 0 <= j < i ==> tools[j].name != name
      {
        if tools[i].name == name {
          return Some(tools[i]);
        }
      }
      return None;
    }

    /** The other set may be this one: its list is read anew at every step. */
    method Merge(other: ToolSet)
      modifies this
      ensures tools == AddedAll(old(tools), old(other.tools))
    {
      hide AddedAll, Added;
      ghost var more := other.tools;
      AddedNone(tools, more);
      var i := 0;
      while i < |other.tools|
        invariant i <= |other.tools| == |more| && other.tools[i..] == more[i..]
        invariant tools == AddedAll(old(tools), more[..i])
        invariant other != this ==> other.tools == more
        decreases |more| - i
      {
        AddedOneMore(old(tools), more, i);
        StillToCome(other.tools, more, i);
        AddTool(other.tools[i]);
        i := i + 1;
      }
      assert more[..|more|] == more;
    }
  }

  ghost predicate Distinct(tools: seq<Tool>) {
    forall i, j :: 0 <= i < j < |tools| ==> tools[i].name != tools[j].name
  }

  // ----- what a set holds after any history of additions and removals

  datatype Event = Add(tool: Tool) | Remove(name: string)

  function Apply(tools: seq<Tool>, e: Event): seq<Tool> {
    match e case Add(tool) => Added(tools, tool) case Remove(name) => Removed(tools, name)
  }

  function Replay(h: seq<Event>): seq<Tool> {
    if h == [] then [] else Apply(Replay(h[..|h| - 1]), h[|h| - 1])
  }

  /** Event i adds a tool of that name, which has not been removed since. */
  ghost predicate Standing(h: seq<Event>, name: string, i: nat) {
    i < |h| && h[i].Add? && h[i].tool.name == name && forall k :: i < k < |h| ==> h[k] != Remove(name)
  }

  /** Event i is the last addition of an active tool among the standing ones, or the last of them if none
      is active. */
  ghost predicate Preferred(h: seq<Event>, name: string, i: nat) {
    Standing(h, name, i) && forall k: nat :: Standing(h, name, k) && k != i ==> !Prefers(h, k, i)
  }

  /** Of two additions, the later one of an active tool wins, then the later one. */
  predicate Prefers(h: seq<Event>, k: nat, i: nat)
    requires k < |h| && h[k].Add? && i < |h| && h[i].Add?
  {
    if h[k].tool.active == h[i].tool.active then k > i else h[k].tool.active
  }

  /** Event i is the first addition since the last removal. */
  ghost predicate First(h: seq<Event>, name: string, i: nat) {
    Standing(h, name, i) && forall k: nat :: Standing(h, name, k) ==> i <= k
  }

  ghost predicate Known(h: seq<Event>, name: string) { exists i: nat :: Standing(h, name, i) }

  /** The list holds, for each name with standing additions, the preferred tool; names are in the order of
      their first standing additions. */
  ghost predicate Tells(h: seq<Event>, tools: seq<Tool>) {
    && Distinct(tools)
    && (forall name :: HasName(tools, name) <==> Known(h, name))
    && (forall i, p: nat :: 0 <= i < |tools| && Preferred(h, tools[i].name, p) ==> tools[i] == h[p].tool)
    && (forall i, j, f: nat, g: nat :: 0 <= i < j < |tools| && First(h, tools[i].name, f) && First(h, tools[j].name, g) ==> f < g)
  }

  lemma StandingStep(h: seq<Event>, e: Event, name: string)
    ensures forall k: nat :: k < |h| ==> (Standing(h + [e], name, k) <==> Standing(h, name, k) && e != Remove(name))
    ensures Standing(h + [e], name, |h|) <==> e.Add? && e.tool.name == name
  {
    var g := h + [e];
    assert g[|h|] == e && forall k :: 0 <= k < |h| ==> g[k] == h[k];
  }

  lemma OtherNames(h: seq<Event>, e: Event, name: string)
    requires match e case Add(tool) => tool.name != name case Remove(n) => n != name
    ensures forall k: nat :: Standing(h + [e], name, k) <==> Standing(h, name, k)
    ensures forall k: nat :: Preferred(h + [e], name, k) <==> Preferred(h, name, k)
    ensures forall k: nat :: First(h + [e], name, k) <==> First(h, name, k)
  {
    StandingStep(h, e, name);
    forall k: nat, i: nat | Standing(h, name, k) && Standing(h, name, i)
      ensures Prefers(h + [e], k, i) <==> Prefers(h, k, i)
    {
    }
  }

  lemma SomePreferred(h: seq<Event>, name: string, i: nat) returns (p: nat)
    requires Standing(h, name, i)
    ensures Preferred(h, name, p)
  {
    p := i;
    for k := 0 to |h|
      invariant Standing(h, name, p)
      invariant forall j: nat :: j < k && j != p && Standing(h, name, j) ==> !Prefers(h, j, p)
    {
      if Standing(h, name, k) && k != p && Prefers(h, k, p) {
        p := k;
      }
    }
  }

  lemma SomeFirst(h: seq<Event>, name: string, i: nat) returns (f: nat)
    requires Standing(h, name, i)
    ensures First(h, name, f)
  {
    f := 0;
    while !Standing(h, name, f)
      invariant f <= i && forall k: nat :: k < f ==> !Standing(h, name, k)
      decreases i - f
    {
      f := f + 1;
    }
  }

  lemma AddKeepsNames(h: seq<Event>, tools: seq<Tool>, t: Tool)
    requires Tells(h, tools)
    ensures Distinct(Added(tools, t))
    ensures forall name :: HasName(Added(tools, t), name) <==> Known(h + [Add(t)], name)
  {
    var next := Added(tools, t);
    forall name
      ensures HasName(next, name) <==> HasName(tools, name) || name == t.name
    {
      assert forall i :: 0 <= i < |tools| ==> next[i].name == tools[i].name;
      assert |next| > |tools| ==> next[|tools|].name == t.name;
    }
    forall name
      ensures Known(h + [Add(t)], name) <==> Known(h, name) || name == t.name
    {
      StandingStep(h, Add(t), name);
      assert name == t.name ==> Standing(h + [Add(t)], name, |h|);
    }
  }

  lemma AddKeepsPreferred(h: seq<Event>, tools: seq<Tool>, t: Tool, i: nat, p: nat)
    requires Tells(h, tools) && i < |Added(tools, t)|
    requires Preferred(h + [Add(t)], Added(tools, t)[i].name, p)
    ensures Added(tools, t)[i] == (h + [Add(t)])[p].tool
  {
    var next, g := Added(tools, t), h + [Add(t)];
    var name := next[i].name;
    StandingStep(h, Add(t), name);
    if name != t.name {
      OtherNames(h, Add(t), name);
    } else if i < |tools| {
      assert HasName(tools, name) && Known(h, name);
      var k: nat :| Standing(h, name, k);
      var q := SomePreferred(h, name, k);
      assert tools[i] == h[q].tool && Position(tools, name) == i;
      assert Standing(g, name, q) && Standing(g, name, |h|) && g[q] == h[q];
      assert p < |h| ==> Preferred(h, name, p) by {
        forall j: nat | p < |h| && Standing(h, name, j) && j != p
          ensures !Prefers(h, j, p)
        {
          assert Standing(g, name, j) && !Prefers(g, j, p);
        }
      }
    }
  }

  lemma AddKeepsOrder(h: seq<Event>, tools: seq<Tool>, t: Tool, i: nat, j: nat, f: nat, g: nat)
    requires Tells(h, tools) && i < j < |Added(tools, t)|
    requires First(h + [Add(t)], Added(tools, t)[i].name, f) && First(h + [Add(t)], Added(tools, t)[j].name, g)
    ensures f < g
  {
    var next := Added(tools, t);
    FirstKept(h, t, tools, i, f);
    if j < |tools| {
      FirstKept(h, t, tools, j, g);
    } else {
      assert !HasName(tools, t.name) && !Known(h, t.name);
      StandingStep(h, Add(t), t.name);
    }
  }

  lemma FirstKept(h: seq<Event>, t: Tool, tools: seq<Tool>, i: nat, f: nat)
    requires Tells(h, tools) && i < |tools| && First(h + [Add(t)], Added(tools, t)[i].name, f)
    ensures Added(tools, t)[i].name == tools[i].name && First(h, tools[i].name, f)
  {
    var name := tools[i].name;
    StandingStep(h, Add(t), name);
    assert HasName(tools, name) && Known(h, name);
    var k: nat :| Standing(h, name, k);
    assert Standing(h + [Add(t)], name, k);
    assert forall k: nat :: Standing(h, name, k) ==> Standing(h + [Add(t)], name, k);
  }

  lemma TellsAdd(h: seq<Event>, tools: seq<Tool>, t: Tool)
    requires Tells(h, tools)
    ensures Tells(h + [Add(t)], Added(tools, t))
  {
    var next, k := Added(tools, t), h + [Add(t)];
    AddKeepsNames(h, tools, t);
    forall i, p: nat | 0 <= i < |next| && Preferred(k, next[i].name, p)
      ensures next[i] == k[p].tool
    {
      AddKeepsPreferred(h, tools, t, i, p);
    }
    forall i, j, f: nat, g: nat | 0 <= i < j < |next| && First(k, next[i].name, f) && First(k, next[j].name, g)
      ensures f < g
    {
      AddKeepsOrder(h, tools, t, i, j, f, g);
    }
  }

  /** At these positions, in order, stand the tools that a removal leaves. */
  ghost predicate Positions(tools: seq<Tool>, name: string, left: seq<Tool>, pos: seq<nat>) {
    && |pos| == |left|
    && (forall a :: 0 <= a < |pos| ==> pos[a] < |tools| && left[a] == tools[pos[a]] && tools[pos[a]].name != name)
    && (forall a, b :: 0 <= a < b < |pos| ==> pos[a] < pos[b])
    && forall i :: 0 <= i < |tools| && tools[i].name != name ==> i in pos
  }

  lemma RemovedStep(tools: seq<Tool>, name: string)
    requires tools != []
    ensures var n := |tools| - 1;
      Removed(tools, name) == if tools[n].name != name then Removed(tools[..n], name) + [tools[n]] else Removed(tools[..n], name)
  {
    assert Removed(tools[..|tools| - 1], name) + [] == Removed(tools[..|tools| - 1], name);
  }

  lemma PositionsMore(front: seq<Tool>, last: Tool, name: string, left: seq<Tool>, pos: seq<nat>)
    requires Positions(front, name, left, pos)
    ensures last.name == name ==> Positions(front + [last], name, left, pos)
    ensures last.name != name ==> Positions(front + [last], name, left + [last], pos + [|front|])
  {
    assert forall i :: 0 <= i < |front| ==> (front + [last])[i] == front[i];
    assert forall i :: i in pos ==> i in pos + [|front|];
    assert |front| in pos + [|front|] by {
      assert (pos + [|front|])[|pos|] == |front|;
    }
  }

  /** What is left keeps its order. */
  lemma {:induction false} RemovedPositions(tools: seq<Tool>, name: string) returns (pos: seq<nat>)
    ensures Positions(tools, name, Removed(tools, name), pos)
  {
    pos := [];
    if tools != [] {
      var front, last := tools[..|tools| - 1], tools[|tools| - 1];
      assert tools == front + [last];
      hide Removed, Positions;
      pos := RemovedPositions(front, name);
      RemovedStep(tools, name);
      PositionsMore(front, last, name, Removed(front, name), pos);
      if last.name != name {
        pos := pos + [|front|];
      }
    }
  }

  lemma TellsRemove(h: seq<Event>, tools: seq<Tool>, name: string)
    requires Tells(h, tools)
    ensures Tells(h + [Remove(name)], Removed(tools, name))
  {
    var next, k := Removed(tools, name), h + [Remove(name)];
    var pos := RemovedPositions(tools, name);
    forall m | m != name
      ensures HasName(next, m) <==> HasName(tools, m)
      ensures Known(k, m) <==> Known(h, m)
    {
      OtherNames(h, Remove(name), m);
      forall i | 0 <= i < |tools| && tools[i].name == m
        ensures HasName(next, m)
      {
        var a :| 0 <= a < |pos| && pos[a] == i;
        assert next[a].name == m;
      }
    }
    StandingStep(h, Remove(name), name);
    forall i, p: nat | 0 <= i < |next| && Preferred(k, next[i].name, p)
      ensures next[i] == k[p].tool
    {
      OtherNames(h, Remove(name), next[i].name);
    }
    forall i, j, f: nat, g: nat | 0 <= i < j < |next| && First(k, next[i].name, f) && First(k, next[j].name, g)
      ensures f < g
    {
      OtherNames(h, Remove(name), next[i].name);
      OtherNames(h, Remove(name), next[j].name);
    }
  }

  /** After any history: the names are distinct and exactly those with a standing addition; for each the
      tool held is the last active one added since the last removal, or the last one added if none was
      active; and the names stand in the order of their first addition since. */
  lemma {:induction false} ReplayTells(h: seq<Event>)
    ensures Tells(h, Replay(h))
  {
    if h != [] {
      var front, e := h[..|h| - 1], h[|h| - 1];
      ReplayTells(front);
      assert h == front + [e];
      match e
      case Add(tool) => TellsAdd(front, Replay(front), tool);
      case Remove(name) => TellsRemove(front, Replay(front), name);
    }
  }

  /** What looking a name up answers after any history. */
  lemma Held(h: seq<Event>, name: string) returns (p: nat, f: nat)
    requires Known(h, name)
    ensures Preferred(h, name, p) && First(h, name, f)
    ensures HasName(Replay(h), name) && Replay(h)[Position(Replay(h), name)] == h[p].tool
  {
    ReplayTells(h);
    var i: nat :| Standing(h, name, i);
    p := SomePreferred(h, name, i);
    f := SomeFirst(h, name, i);
  }

  function Additions(more: seq<Tool>): (r: seq<Event>)
    ensures |r| == |more| && forall i :: 0 <= i < |r| ==> r[i] == Add(more[i])
  {
    seq(|more|, i requires 0 <= i < |more| => Add(more[i]))
  }

  lemma ReplayMore(h: seq<Event>, e: Event)
    ensures Replay(h + [e]) == Apply(Replay(h), e)
  {
    assert (h + [e])[..|h|] == h;
  }

  lemma AddedAllStep(tools: seq<Tool>, more: seq<Tool>)
    requires more != []
    ensures AddedAll(tools, more) == Added(AddedAll(tools, more[..|more| - 1]), more[|more| - 1])
  {
  }

  lemma AdditionsStep(h: seq<Event>, more: seq<Tool>)
    requires more != []
    ensures h + Additions(more) == h + Additions(more[..|more| - 1]) + [Add(more[|more| - 1])]
  {
  }

  /** A merge is the additions of the other set's tools, in order. */
  lemma {:induction false} MergeIsAdditions(h: seq<Event>, more: seq<Tool>)
    ensures AddedAll(Replay(h), more) == Replay(h + Additions(more))
  {
    hide Replay, Added, Additions;
    if more == [] {
      assert h + Additions(more) == h;
    } else {
      var front := more[..|more| - 1];
      MergeIsAdditions(h, front);
      AddedAllStep(Replay(h), more);
      AdditionsStep(h, more);
      ReplayMore(h + Additions(front), Add(more[|more| - 1]));
    }
  }
}
