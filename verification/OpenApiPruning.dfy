/** Pruning the OpenAPI document to the public endpoints (docs/scripts/update_openapi_json.py):
    the walk over local component references, the worklist that closes them over possibly cyclic
    components, and the proof that what is kept is exactly what the kept operations reach. */
module OpenApiPruning {
  import opened Wrappers
  import opened JsonValues

  const COMPONENT_REF_PREFIX := "#/components/"
  const SECURITY_SCHEMES := "securitySchemes"

  const PUBLIC_TAGS: set<string> := {
    "Open API", "System Config", "Config Profiles", "Bot Config Routes", "Bots", "Provider Sources",
    "Providers", "Chat", "IM", "Files", "Plugins", "Plugin Sources", "Plugin Pages", "MCP", "Skills",
    "Personas", "T2I", "Subagents"
  }
  /** The members of the document that the pass writes. */
  const REWRITTEN: set<string> := { "tags", "paths", "components" }

  const EXCLUDED_PATHS: set<string> := { "/api/v1/live-chat/ws", "/api/v1/unified-chat/ws" }

  // ----- references

  /** All local component references in a value, in the order the generator yields them. */
  function IterRefs(value: Json): seq<string>
    decreases value, 1
  {
    match value
    case Obj(fields) => OwnRef(fields) + FieldRefs(fields)
    case List(items) => ItemRefs(items)
    case _ => []
  }

  function OwnRef(fields: Fields): seq<string> {
    match Get(fields, "$ref")
    case Some(Str(s)) => if COMPONENT_REF_PREFIX <= s then [s] else []
    case _ => []
  }

  function FieldRefs(fields: Fields): seq<string>
    decreases fields, 0
  {
    if fields == [] then [] else IterRefs(fields[0].value) + FieldRefs(fields[1..])
  }

  function ItemRefs(items: seq<Json>): seq<string>
    decreases items, 0
  {
    if items == [] then [] else IterRefs(items[0]) + ItemRefs(items[1..])
  }

  datatype Ref = Ref(section: string, name: string)

  function SlashAt(s: string): (i: nat)
    ensures i <= |s| && '/' !in s[..i]
    ensures i < |s| ==> s[i] == '/'
  {
    if s == [] || s[0] == '/' then 0
    else
      var j := SlashAt(s[1..]);
      assert s[..j + 1] == [s[0]] + s[1..][..j];
      j + 1
  }

  function ParseComponentRef(ref: string): Option<Ref> {
    if !(COMPONENT_REF_PREFIX <= ref) then None
    else
      var rest := ref[|COMPONENT_REF_PREFIX|..];
      var slash := SlashAt(rest);
      if slash == |rest| then None
      else Some(Ref(rest[..slash], rest[slash + 1..]))
  }

  function RefString(r: Ref): string { COMPONENT_REF_PREFIX + (r.section + ['/'] + r.name) }

  /** Reading a written reference gives back its section and name, whatever the name contains. */
  lemma RefRoundTrip(r: Ref)
    requires '/' !in r.section
    ensures COMPONENT_REF_PREFIX <= RefString(r) && ParseComponentRef(RefString(r)) == Some(r)
  {
    var rest := r.section + ['/'] + r.name;
    assert RefString(r)[|COMPONENT_REF_PREFIX|..] == rest;
    assert rest[..|r.section|] == r.section && rest[|r.section| + 1..] == r.name;
    FirstSlash(rest, |r.section|);
  }

  lemma {:induction false} FirstSlash(s: string, i: nat)
    requires i < |s| && s[i] == '/' && '/' !in s[..i]
    ensures SlashAt(s) == i
  {
    if i > 0 {
      assert s[0] == s[..i][0];
      assert s[1..][..i - 1] == s[..i][1..];
      FirstSlash(s[1..], i - 1);
    }
  }

  // ----- components

  /** components.get(section, {}).get(name), which raises when the section is not a dictionary. */
  datatype Found = Missing | Present(value: Json) | NotADict

  function Lookup(components: Fields, r: Ref): Found {
    match Get(components, r.section)
    case None => Missing
    case Some(Obj(values)) => (match Get(values, r.name) case None => Missing case Some(v) => Present(v))
    case Some(_) => NotADict
  }

  /** The references inside the component that r names. */
  function Targets(components: Fields, r: Ref): seq<string> {
    match Lookup(components, r)
    case Present(v) => IterRefs(v)
    case _ => []
  }

  ghost predicate PointsTo(refs: seq<string>, r: Ref) {
    exists s :: s in refs && ParseComponentRef(s) == Some(r)
  }

  /** A chain of local references that starts in `roots`, each next one inside the component
      that the previous one names. */
  ghost predicate Chain(c: seq<Ref>, roots: seq<string>, components: Fields) {
    && c != []
    && PointsTo(roots, c[0])
    && forall i :: 0 <= i < |c| - 1 ==> PointsTo(Targets(components, c[i]), c[i + 1])
  }

  ghost predicate Reachable(r: Ref, roots: seq<string>, components: Fields) {
    exists c :: Chain(c, roots, components) && c[|c| - 1] == r
  }

  lemma ReachableRoot(s: string, r: Ref, roots: seq<string>, components: Fields)
    requires s in roots && ParseComponentRef(s) == Some(r)
    ensures Reachable(r, roots, components)
  {
    assert Chain([r], roots, components);
  }

  lemma ReachableStep(from: Ref, s: string, r: Ref, roots: seq<string>, components: Fields)
    requires Reachable(from, roots, components)
    requires s in Targets(components, from) && ParseComponentRef(s) == Some(r)
    ensures Reachable(r, roots, components)
  {
    var c :| Chain(c, roots, components) && c[|c| - 1] == from;
    var d := c + [r];
    forall i | 0 <= i < |d| - 1
      ensures PointsTo(Targets(components, d[i]), d[i + 1])
    {
      if i < |c| - 1 {
        assert PointsTo(Targets(components, c[i]), c[i + 1]);
      }
    }
    assert Chain(d, roots, components);
  }

  /** Any set that holds the roots and is closed under references holds everything reachable. */
  lemma {:induction false} ClosedCoversReachable(c: seq<Ref>, marked: set<Ref>, roots: seq<string>, components: Fields)
    requires c != [] && Chain(c, roots, components)
    requires forall r :: PointsTo(roots, r) ==> r in marked
    requires forall from, r :: from in marked && PointsTo(Targets(components, from), r) ==> r in marked
    ensures c[|c| - 1] in marked
  {
    if |c| > 1 {
      var shorter := c[..|c| - 1];
      forall i | 0 <= i < |shorter| - 1
        ensures PointsTo(Targets(components, shorter[i]), shorter[i + 1])
      {
        assert PointsTo(Targets(components, c[i]), c[i + 1]);
      }
      ClosedCoversReachable(shorter, marked, roots, components);
      assert PointsTo(Targets(components, c[|c| - 2]), c[|c| - 1]);
    }
  }

  // ----- the finite universe that bounds the worklist

  function ParsedRefs(refs: seq<string>): set<Ref> {
    set s | s in refs && ParseComponentRef(s).Some? :: ParseComponentRef(s).value
  }

  /** Every reference that occurs anywhere in the components. */
  function AllTargets(components: Fields): set<Ref> {
    ParsedRefs(FieldRefs(components))
  }

  lemma {:induction false} FieldRefsOf(fields: Fields, key: string, s: string)
    requires Get(fields, key).Some? && s in IterRefs(Get(fields, key).value)
    ensures s in FieldRefs(fields)
  {
    if fields[0].key != key {
      FieldRefsOf(fields[1..], key, s);
    }
  }

  lemma TargetsInUniverse(components: Fields, from: Ref, s: string)
    requires s in Targets(components, from)
    ensures s in FieldRefs(components)
  {
    var values := Get(components, from.section).value.fields;
    FieldRefsOf(values, from.name, s);
    FieldRefsOf(components, from.section, s);
  }

  // ----- the worklist

  /** used_refs as a set of pairs. */
  ghost function Marked(used: map<string, set<string>>): set<Ref> {
    set section, name | section in used && name in used[section] :: Ref(section, name)
  }

  function SetDefault(used: map<string, set<string>>, section: string): set<string> {
    if section in used then used[section] else {}
  }

  lemma MarkedAfterAdd(used: map<string, set<string>>, r: Ref)
    ensures Marked(used[r.section := SetDefault(used, r.section) + {r.name}]) == Marked(used) + {r}
  {
    var after := used[r.section := SetDefault(used, r.section) + {r.name}];
    forall q
      ensures q in Marked(after) <==> q in Marked(used) + {r}
    {
      assert q in Marked(after) <==> q.section in after && q.name in after[q.section];
      assert q in Marked(used) <==> q.section in used && q.name in used[q.section];
    }
  }

  /** Every reference still to follow is reachable. */
  ghost predicate AllReachable(refs: seq<string>, roots: seq<string>, components: Fields) {
    forall s :: s in refs && ParseComponentRef(s).Some? ==> Reachable(ParseComponentRef(s).value, roots, components)
  }

  /** Following a reference that names a non-dictionary section raises, and then the whole pass raises. */
  ghost predicate Raises(roots: seq<string>, components: Fields) {
    exists r :: Reachable(r, roots, components) && Lookup(components, r) == NotADict
  }

  /** Each reference of `refs` is marked already or still pending. */
  ghost predicate Covered(refs: seq<string>, marked: set<Ref>, pending: seq<string>) {
    forall s :: s in refs && ParseComponentRef(s).Some? ==> ParseComponentRef(s).value in marked || s in pending
  }

  /** What the worklist keeps true between pops. */
  ghost predicate Worklist(marked: set<Ref>, pending: seq<string>, roots: seq<string>, components: Fields) {
    && (forall s :: s in pending ==> s in roots || s in FieldRefs(components))
    && AllReachable(pending, roots, components)
    && (forall r :: r in marked ==> Reachable(r, roots, components) && Lookup(components, r) != NotADict)
    && Covered(roots, marked, pending)
    && (forall from :: from in marked ==> Covered(Targets(components, from), marked, pending))
  }

  /** Popping a string that is no component reference, or whose target is marked already. */
  lemma PopIgnored(marked: set<Ref>, pending: seq<string>, s: string, roots: seq<string>, components: Fields)
    requires Worklist(marked, pending + [s], roots, components)
    requires ParseComponentRef(s).Some? ==> ParseComponentRef(s).value in marked
    ensures Worklist(marked, pending, roots, components)
  {
    forall t | t in pending
      ensures t in pending + [s]
    {
    }
    forall refs | Covered(refs, marked, pending + [s])
      ensures Covered(refs, marked, pending)
    {
    }
  }

  /** Popping a new reference marks it and pushes the references of its component. */
  lemma PopNew(marked: set<Ref>, pending: seq<string>, s: string, r: Ref, roots: seq<string>, components: Fields)
    requires Worklist(marked, pending + [s], roots, components)
    requires ParseComponentRef(s) == Some(r) && Lookup(components, r) != NotADict
    ensures Worklist(marked + {r}, pending + Targets(components, r), roots, components)
  {
    var next := pending + Targets(components, r);
    assert s in pending + [s];
    forall t | t in next
      ensures t in roots || t in FieldRefs(components)
      ensures ParseComponentRef(t).Some? ==> Reachable(ParseComponentRef(t).value, roots, components)
    {
      if t in pending {
        assert t in pending + [s];
      } else {
        TargetsInUniverse(components, r, t);
        if ParseComponentRef(t).Some? {
          ReachableStep(r, t, ParseComponentRef(t).value, roots, components);
        }
      }
    }
    forall refs | Covered(refs, marked, pending + [s])
      ensures Covered(refs, marked + {r}, next)
    {
    }
    forall from | from in marked + {r}
      ensures Covered(Targets(components, from), marked + {r}, next)
    {
    }
  }

  /** Once nothing is pending, the marked references are exactly the reachable ones. */
  lemma DrainedIsExact(marked: set<Ref>, roots: seq<string>, components: Fields)
    requires Worklist(marked, [], roots, components)
    ensures forall r :: r in marked <==> Reachable(r, roots, components)
    ensures !Raises(roots, components)
  {
    DrainedIsClosed(marked, roots, components);
    hide Worklist, Covered, Lookup, Targets, Chain;
    forall r | Reachable(r, roots, components)
      ensures r in marked
    {
      var c :| Chain(c, roots, components) && c[|c| - 1] == r;
      ClosedCoversReachable(c, marked, roots, components);
    }
  }

  lemma DrainedIsClosed(marked: set<Ref>, roots: seq<string>, components: Fields)
    requires Worklist(marked, [], roots, components)
    ensures forall r :: PointsTo(roots, r) ==> r in marked
    ensures forall from, r :: from in marked && PointsTo(Targets(components, from), r) ==> r in marked
    ensures forall r :: r in marked ==> Reachable(r, roots, components) && Lookup(components, r) != NotADict
  {
    hide Lookup, Targets, Reachable, ParseComponentRef;
  }

  lemma ReferenceInUniverse(marked: set<Ref>, pending: seq<string>, s: string, r: Ref, roots: seq<string>, components: Fields)
    requires Worklist(marked, pending + [s], roots, components) && ParseComponentRef(s) == Some(r)
    ensures r in ParsedRefs(roots) + AllTargets(components)
  {
    assert s in pending + [s];
  }

  /** Collects every reference reachable from the kept paths, popping from the end of the list.
      None means that the pass raised. */
  method CollectUsedRefs(paths: Json, components: Fields) returns (used: Option<map<string, set<string>>>)
    ensures used.None? <==> Raises(IterRefs(paths), components)
    ensures used.Some? ==> forall r :: r in Marked(used.value) <==> Reachable(r, IterRefs(paths), components)
  {
    hide Worklist, Marked, Lookup, IterRefs, ParseComponentRef, SetDefault;
    var usedRefs: map<string, set<string>> := map[];
    var pending := IterRefs(paths);
    ghost var roots := pending;
    ghost var universe := ParsedRefs(roots) + AllTargets(components);
    ghost var marked: set<Ref> := {};
    StartsReachable(roots, components);
    MarkedNothing();
    while pending != []
      invariant marked == Marked(usedRefs) && marked <= universe
      invariant Worklist(marked, pending, roots, components)
      decreases |universe - marked|, |pending|
    {
      var s := pending[|pending| - 1];
      assert pending == pending[..|pending| - 1] + [s];
      pending := pending[..|pending| - 1];
      var parsed := ParseComponentRef(s);
      if parsed.None? {
        PopIgnored(marked, pending, s, roots, components);
        continue;
      }
      var r := parsed.value;
      var usedNames := SetDefault(usedRefs, r.section);
      MarkedMember(usedRefs, r);
      if r.name in usedNames {
        PopIgnored(marked, pending, s, roots, components);
        continue;
      }
      ReferenceInUniverse(marked, pending, s, r, roots, components);
      MarkedAfterAdd(usedRefs, r);
      usedRefs := usedRefs[r.section := usedNames + {r.name}];
      var found := Lookup(components, r);
      if found.NotADict? {
        PoppedIsReachable(marked, pending, s, r, roots, components);
        return None;
      }
      PopNew(marked, pending, s, r, roots, components);
      MarkShrinks(universe, marked, r);
      marked := marked + {r};
      pending := pending + (if found.Present? then IterRefs(found.value) else []);
    }
    DrainedIsExact(marked, roots, components);
    used := Some(usedRefs);
  }

  lemma MarkedNothing()
    ensures Marked(map[]) == {}
  {
    var none: map<string, set<string>> := map[];
    assert forall r :: r in Marked(none) ==> r.section in none;
  }

  lemma MarkedMember(used: map<string, set<string>>, r: Ref)
    ensures r in Marked(used) <==> r.name in SetDefault(used, r.section)
  {
  }

  lemma MarkShrinks(universe: set<Ref>, marked: set<Ref>, r: Ref)
    requires r in universe && r !in marked
    ensures |universe - (marked + {r})| < |universe - marked|
  {
    assert universe - (marked + {r}) == universe - marked - {r};
  }

  lemma PoppedIsReachable(marked: set<Ref>, pending: seq<string>, s: string, r: Ref, roots: seq<string>, components: Fields)
    requires Worklist(marked, pending + [s], roots, components) && ParseComponentRef(s) == Some(r)
    ensures Reachable(r, roots, components)
  {
    assert s in pending + [s];
  }

  lemma StartsReachable(roots: seq<string>, components: Fields)
    ensures Worklist({}, roots, roots, components)
  {
    forall s | s in roots && ParseComponentRef(s).Some?
      ensures Reachable(ParseComponentRef(s).value, roots, components)
    {
      ReachableRoot(s, ParseComponentRef(s).value, roots, components);
    }
  }

  // ----- which operations are public

  /** any(tag in PUBLIC_TAGS for tag in tags); None when Python raises (tags not iterable, tag not hashable). */
  function AnyPublic(tags: Json): Option<bool> {
    match tags
    case List(items) => AnyPublicItem(items)
    case Obj(fields) => Some(exists i :: 0 <= i < |fields| && fields[i].key in PUBLIC_TAGS)
    case Str(_) => Some(false)
    case _ => None
  }

  function AnyPublicItem(items: seq<Json>): Option<bool> {
    if items == [] then Some(false)
    else match items[0]
      case Str(tag) => if tag in PUBLIC_TAGS then Some(true) else AnyPublicItem(items[1..])
      case List(_) => None
      case Obj(_) => None
      case _ => AnyPublicItem(items[1..])
  }

  function IsPublic(operation: Json): Option<bool> {
    match operation
    case Obj(fields) => (match Get(fields, "tags") case None => Some(false) case Some(tags) => AnyPublic(tags))
    case _ => None
  }

  function KeptMethods(methods: Fields): Option<Fields> {
    if methods == [] then Some([])
    else
      var keep :- IsPublic(methods[0].value);
      var rest :- KeptMethods(methods[1..]);
      Some((if keep then [methods[0]] else []) + rest)
  }

  function KeptPaths(paths: Fields): Option<Fields> {
    if paths == [] then Some([])
    else if paths[0].key in EXCLUDED_PATHS then KeptPaths(paths[1..])
    else if !paths[0].value.Obj? then None
    else
      var kept :- KeptMethods(paths[0].value.fields);
      var rest :- KeptPaths(paths[1..]);
      Some((if kept == [] then [] else [Field(paths[0].key, Obj(kept))]) + rest)
  }

  /** The tags that stay; None when Python raises (tags not iterable, a name not hashable). */
  function KeptTags(tags: Json): Option<seq<Json>> {
    match tags
    case List(items) => KeptTagItems(items)
    case Obj(_) => Some([])
    case Str(_) => Some([])
    case _ => None
  }

  function KeptTagItems(items: seq<Json>): Option<seq<Json>> {
    if items == [] then Some([])
    else
      var keep :- IsPublicTag(items[0]);
      var rest :- KeptTagItems(items[1..]);
      Some((if keep then [items[0]] else []) + rest)
  }

  function IsPublicTag(tag: Json): Option<bool> {
    match tag
    case Obj(fields) =>
      (match Get(fields, "name")
       case Some(Str(name)) => Some(name in PUBLIC_TAGS)
       case Some(List(_)) => None
       case Some(Obj(_)) => None
       case _ => Some(false))
    case _ => Some(false)
  }

  // ----- what is kept of the components

  ghost function KeptValues(values: Fields, section: string, components: Fields, roots: seq<string>): Fields {
    if values == [] then []
    else
      var last := values[|values| - 1];
      KeptValues(values[..|values| - 1], section, components, roots) +
      (if Reachable(Ref(section, last.key), roots, components) then [last] else [])
  }

  /** Security schemes and sections that are no dictionaries are kept whole. */
  predicate KeptWhole(section: Field) {
    section.key == SECURITY_SCHEMES || !section.value.Obj?
  }

  ghost function KeptSection(section: Field, components: Fields, roots: seq<string>): Fields {
    if KeptWhole(section) then [section]
    else
      var kept := KeptValues(section.value.fields, section.key, components, roots);
      if kept == [] then [] else [Field(section.key, Obj(kept))]
  }

  /** The components that survive, section by section, in their old order. */
  ghost function Kept(sections: Fields, components: Fields, roots: seq<string>): Fields {
    if sections == [] then []
    else Kept(sections[..|sections| - 1], components, roots) + KeptSection(sections[|sections| - 1], components, roots)
  }

  ghost function Pruned(components: Fields, roots: seq<string>): Fields { Kept(components, components, roots) }

  // ----- the document

  function TagsOf(doc: Fields): Option<seq<Json>> {
    match Get(doc, "tags") case None => Some([]) case Some(tags) => KeptTags(tags)
  }

  function PathsOf(doc: Fields): Option<Fields> {
    match Get(doc, "paths") case None => Some([]) case Some(Obj(paths)) => KeptPaths(paths) case _ => None
  }

  function ComponentsOf(doc: Fields): Option<Fields> {
    match Get(doc, "components") case None => Some([]) case Some(Obj(components)) => Some(components) case _ => None
  }

  /** The references with which the walk starts. */
  function Roots(doc: Fields): seq<string> {
    match PathsOf(doc) case Some(paths) => IterRefs(Obj(paths)) case None => []
  }

  ghost predicate Fails(doc: Fields) {
    TagsOf(doc).None? || PathsOf(doc).None? || ComponentsOf(doc).None? || Raises(Roots(doc), ComponentsOf(doc).value)
  }

  /** The output: three members replaced or added, every other one as it was. */
  function WithMembers(doc: Fields, tags: seq<Json>, paths: Fields, components: Fields): Fields {
    Set(Set(Set(doc, "tags", List(tags)), "paths", Obj(paths)), "components", Obj(components))
  }

  ghost function Filtered(doc: Fields): Fields
    requires !Fails(doc)
  {
    WithMembers(doc, TagsOf(doc).value, PathsOf(doc).value, Pruned(ComponentsOf(doc).value, Roots(doc)))
  }

  method PruneSection(section: Field, names: set<string>, ghost components: Fields, ghost roots: seq<string>) returns (kept: Fields)
    requires section.value.Obj?
    requires forall name :: name in names <==> Reachable(Ref(section.key, name), roots, components)
    ensures kept == KeptValues(section.value.fields, section.key, components, roots)
  {
    kept := [];
    var values := section.value.fields;
    for i := 0 to |values|
      invariant kept == KeptValues(values[..i], section.key, components, roots)
    {
      assert values[..i + 1][..i] == values[..i];
      if values[i].key in names {
        kept := kept + [values[i]];
      }
    }
    assert values[..|values|] == values;
  }

  /** The whole pass over a document: keep the public tags and operations, follow their references, prune. */
  method FilterPublicOpenApi(doc: Fields) returns (out: Option<Fields>)
    ensures out.None? <==> Fails(doc)
    ensures out.Some? ==> out.value == Filtered(doc)
  {
    var tags := TagsOf(doc);
    if tags.None? {
      return None;
    }
    var keptPaths := PathsOf(doc);
    var found := ComponentsOf(doc);
    if keptPaths.None? || found.None? {
      return None;
    }
    var paths, components := keptPaths.value, found.value;
    ghost var roots := IterRefs(Obj(paths));
    var used := CollectUsedRefs(Obj(paths), components);
    if used.None? {
      return None;
    }
    var pruned := [];
    for i := 0 to |components|
      invariant pruned == Kept(components[..i], components, roots)
    {
      var section := components[i];
      assert components[..i + 1][..i] == components[..i];
      if KeptWhole(section) {
        pruned := pruned + [section];
      } else {
        var names := SetDefault(used.value, section.key);
        forall name
          ensures name in names <==> Reachable(Ref(section.key, name), roots, components)
        {
          MarkedMember(used.value, Ref(section.key, name));
        }
        var kept := PruneSection(section, names, components, roots);
        if kept != [] {
          pruned := pruned + [Field(section.key, Obj(kept))];
        }
      }
    }
    assert components[..|components|] == components;
    return Some(WithMembers(doc, tags.value, paths, pruned));
  }

  // ----- what the pruning means

  lemma {:induction false} GetSplit(a: Fields, b: Fields, key: string)
    ensures Get(a + b, key) == if Get(a, key).Some? then Get(a, key) else Get(b, key)
  {
    if a == [] {
      assert a + b == b;
    } else {
      assert (a + b)[1..] == a[1..] + b;
      GetSplit(a[1..], b, key);
    }
  }

  lemma {:induction false} KeptValuesGet(values: Fields, section: string, name: string, components: Fields, roots: seq<string>)
    ensures Get(KeptValues(values, section, components, roots), name)
         == if Reachable(Ref(section, name), roots, components) then Get(values, name) else None
  {
    hide Reachable;
    if values != [] {
      var n := |values| - 1;
      KeptValuesGet(values[..n], section, name, components, roots);
      assert values == values[..n] + [values[n]];
      GetSplit(values[..n], [values[n]], name);
      GetSplit(KeptValues(values[..n], section, components, roots),
               if Reachable(Ref(section, values[n].key), roots, components) then [values[n]] else [], name);
    }
  }

  lemma KeptSectionGet(section: Field, key: string, components: Fields, roots: seq<string>)
    requires key != section.key
    ensures Get(KeptSection(section, components, roots), key) == None
  {
    hide KeptValues;
  }

  lemma {:induction false} KeptGet(sections: Fields, key: string, components: Fields, roots: seq<string>)
    requires DistinctKeys(sections)
    ensures Get(sections, key).None? ==> Get(Kept(sections, components, roots), key).None?
    ensures Get(sections, key).Some? ==>
      Get(Kept(sections, components, roots), key) == Get(KeptSection(Field(key, Get(sections, key).value), components, roots), key)
  {
    hide Reachable, KeptSection, KeptValues, KeptWhole;
    if sections != [] {
      var n := |sections| - 1;
      KeptGet(sections[..n], key, components, roots);
      assert sections == sections[..n] + [sections[n]];
      GetSplit(sections[..n], [sections[n]], key);
      if key != sections[n].key {
        KeptSectionGet(sections[n], key, components, roots);
      }
      GetSplit(Kept(sections[..n], components, roots), KeptSection(sections[n], components, roots), key);
      if Get(sections[..n], key).Some? {
        GetFinds(sections[..n], key);
      }
    }
  }

  /** Outside the sections kept whole, a component is kept if and only if the kept operations reach it
      through a chain of references; what is kept keeps its value. */
  lemma KeptExactly(components: Fields, roots: seq<string>, r: Ref)
    requires DistinctKeys(components)
    ensures Lookup(Pruned(components, roots), r)
         == if r.section == SECURITY_SCHEMES || Lookup(components, r) == NotADict || Reachable(r, roots, components)
            then Lookup(components, r) else Missing
  {
    KeptGet(components, r.section, components, roots);
    match Get(components, r.section)
    case Some(Obj(values)) => KeptValuesGet(values, r.section, r.name, components, roots);
    case _ =>
  }

  lemma TargetsOfReachable(components: Fields, roots: seq<string>, r: Ref)
    requires DistinctKeys(components)
    ensures Reachable(r, roots, components) ==> Targets(Pruned(components, roots), r) == Targets(components, r)
    ensures forall s :: s in Targets(Pruned(components, roots), r) ==> s in Targets(components, r)
  {
    KeptExactly(components, roots, r);
  }

  /** Pruning changes nothing about reachability. */
  lemma {:induction false} ReachableAfterPruning(components: Fields, roots: seq<string>, r: Ref)
    requires DistinctKeys(components)
    ensures Reachable(r, roots, Pruned(components, roots)) <==> Reachable(r, roots, components)
  {
    var pruned := Pruned(components, roots);
    hide Pruned, Targets;
    if Reachable(r, roots, components) {
      var c :| Chain(c, roots, components) && c[|c| - 1] == r;
      ChainSurvives(c, roots, components);
    }
    if Reachable(r, roots, pruned) {
      var c :| Chain(c, roots, pruned) && c[|c| - 1] == r;
      forall i | 0 <= i < |c| - 1
        ensures PointsTo(Targets(components, c[i]), c[i + 1])
      {
        assert PointsTo(Targets(pruned, c[i]), c[i + 1]);
        TargetsOfReachable(components, roots, c[i]);
      }
      assert Chain(c, roots, components);
    }
  }

  lemma {:induction false} ChainSurvives(c: seq<Ref>, roots: seq<string>, components: Fields)
    requires DistinctKeys(components) && Chain(c, roots, components)
    ensures Chain(c, roots, Pruned(components, roots))
  {
    forall i | 0 <= i < |c| - 1
      ensures PointsTo(Targets(Pruned(components, roots), c[i]), c[i + 1])
    {
      assert PointsTo(Targets(components, c[i]), c[i + 1]);
      ChainPrefixReachable(c, i, roots, components);
      TargetsOfReachable(components, roots, c[i]);
    }
  }

  lemma ChainPrefixReachable(c: seq<Ref>, i: nat, roots: seq<string>, components: Fields)
    requires Chain(c, roots, components) && i < |c|
    ensures Reachable(c[i], roots, components)
  {
    var d := c[..i + 1];
    forall k | 0 <= k < |d| - 1
      ensures PointsTo(Targets(components, d[k]), d[k + 1])
    {
      assert PointsTo(Targets(components, c[k]), c[k + 1]);
    }
    assert Chain(d, roots, components);
  }

  // ----- no reference that was followed is left dangling

  predicate Resolves(components: Fields, r: Ref) { Lookup(components, r).Present? }

  /** A reference is followed that occurs in a kept operation or in a component that one reaches. */
  ghost predicate Followed(s: string, roots: seq<string>, components: Fields) {
    s in roots || exists from :: Reachable(from, roots, components) && s in Targets(components, from)
  }

  /** Every reference that is followed still resolves, wherever it occurs. */
  lemma FollowedRefsResolve(components: Fields, roots: seq<string>, s: string)
    requires DistinctKeys(components) && Followed(s, roots, components)
    requires ParseComponentRef(s).Some? && Resolves(components, ParseComponentRef(s).value)
    ensures Resolves(Pruned(components, roots), ParseComponentRef(s).value)
  {
    var r := ParseComponentRef(s).value;
    if s in roots {
      ReachableRoot(s, r, roots, components);
    } else {
      var from :| Reachable(from, roots, components) && s in Targets(components, from);
      ReachableStep(from, s, r, roots, components);
    }
    KeptExactly(components, roots, r);
  }

  lemma ResolvesAfterPruning(components: Fields, roots: seq<string>, r: Ref)
    requires DistinctKeys(components)
    ensures Resolves(Pruned(components, roots), r)
       <==> Resolves(components, r) && (r.section == SECURITY_SCHEMES || Reachable(r, roots, components))
  {
    KeptExactly(components, roots, r);
  }

  // ----- where references of the output come from

  lemma {:induction false} FieldRefsMember(fields: Fields, s: string)
    ensures s in FieldRefs(fields) <==> exists f :: f in fields && s in IterRefs(f.value)
  {
    if fields != [] {
      FieldRefsMember(fields[1..], s);
      assert fields == [fields[0]] + fields[1..];
    }
  }

  /** References inside the components that stay whether or not an operation uses them: a reference on
      the components themselves, the sections kept whole, and a reference on a section, which reads as a
      component named "$ref" and stays if that is reached. */
  ghost predicate CarriedInComponents(s: string, components: Fields, roots: seq<string>) {
    || s in OwnRef(components)
    || (exists f :: f in components && KeptWhole(f) && s in IterRefs(f.value))
    || (exists f :: f in components && OnSection(s, f, components, roots))
  }

  ghost predicate OnSection(s: string, section: Field, components: Fields, roots: seq<string>) {
    !KeptWhole(section) && s in OwnRef(section.value.fields) && Reachable(Ref(section.key, "$ref"), roots, components)
  }

  lemma {:induction false} KeptMember(sections: Fields, f: Field, components: Fields, roots: seq<string>)
    ensures f in Kept(sections, components, roots)
       <==> exists g :: g in sections && f in KeptSection(g, components, roots)
  {
    hide KeptSection;
    if sections != [] {
      var n := |sections| - 1;
      KeptMember(sections[..n], f, components, roots);
      assert sections == sections[..n] + [sections[n]];
    }
  }

  lemma {:induction false} KeptValuesMember(values: Fields, v: Field, section: string, components: Fields, roots: seq<string>)
    ensures v in KeptValues(values, section, components, roots)
       <==> v in values && Reachable(Ref(section, v.key), roots, components)
  {
    hide Reachable;
    if values != [] {
      var n := |values| - 1;
      KeptValuesMember(values[..n], v, section, components, roots);
      assert values == values[..n] + [values[n]];
    }
  }

  lemma OwnRefPruned(components: Fields, roots: seq<string>)
    requires DistinctKeys(components)
    ensures OwnRef(Pruned(components, roots)) == OwnRef(components)
  {
    hide KeptValues;
    KeptGet(components, "$ref", components, roots);
  }

  /** What one section that is not kept whole contributes. */
  lemma SectionRefs(g: Field, s: string, components: Fields, roots: seq<string>)
    requires DistinctKeys(components) && g in components && !KeptWhole(g) && DistinctKeys(g.value.fields)
    ensures forall f :: f in KeptSection(g, components, roots) && s in IterRefs(f.value) ==>
      OnSection(s, g, components, roots) || Followed(s, roots, components)
    ensures OnSection(s, g, components, roots) ==>
      exists f :: f in KeptSection(g, components, roots) && s in IterRefs(f.value)
  {
    hide Reachable;
    var kept := KeptValues(g.value.fields, g.key, components, roots);
    KeptValuesGet(g.value.fields, g.key, "$ref", components, roots);
    FieldRefsMember(kept, s);
    if v :| v in kept && s in IterRefs(v.value) {
      KeptValuesMember(g.value.fields, v, g.key, components, roots);
      ComponentRefs(components, g, v, s);
    }
    if OnSection(s, g, components, roots) {
      assert kept != [] && Field(g.key, Obj(kept)) in KeptSection(g, components, roots);
    }
  }

  lemma ComponentRefs(components: Fields, g: Field, v: Field, s: string)
    requires DistinctKeys(components) && g in components && g.value.Obj? && DistinctKeys(g.value.fields) && v in g.value.fields
    requires s in IterRefs(v.value)
    ensures s in Targets(components, Ref(g.key, v.key))
  {
    var i :| 0 <= i < |components| && components[i] == g;
    var j :| 0 <= j < |g.value.fields| && g.value.fields[j] == v;
    GetAt(components, i);
    GetAt(g.value.fields, j);
  }

  lemma PrunedRefs(components: Fields, roots: seq<string>, s: string)
    requires WellFormed(Obj(components))
    ensures s in IterRefs(Obj(Pruned(components, roots))) ==>
      CarriedInComponents(s, components, roots) || Followed(s, roots, components)
    ensures CarriedInComponents(s, components, roots) ==> s in IterRefs(Obj(Pruned(components, roots)))
  {
    hide Reachable, Followed, KeptSection, OnSection;
    var pruned := Pruned(components, roots);
    OwnRefPruned(components, roots);
    FieldRefsMember(pruned, s);
    forall f
      ensures f in pruned <==> exists g :: g in components && f in KeptSection(g, components, roots)
    {
      KeptMember(components, f, components, roots);
    }
    forall g | g in components
      ensures KeptWhole(g) ==> KeptSection(g, components, roots) == [g]
      ensures !KeptWhole(g) ==> forall f :: f in KeptSection(g, components, roots) && s in IterRefs(f.value) ==>
        OnSection(s, g, components, roots) || Followed(s, roots, components)
      ensures OnSection(s, g, components, roots) ==>
        exists f :: f in KeptSection(g, components, roots) && s in IterRefs(f.value)
    {
      WholeSection(g, components, roots);
      if !KeptWhole(g) {
        SectionRefs(g, s, components, roots);
      } else {
        NotOnWhole(s, g, components, roots);
      }
    }
  }

  lemma WholeSection(g: Field, components: Fields, roots: seq<string>)
    ensures KeptWhole(g) ==> KeptSection(g, components, roots) == [g]
  {
  }

  lemma NotOnWhole(s: string, g: Field, components: Fields, roots: seq<string>)
    requires KeptWhole(g)
    ensures !OnSection(s, g, components, roots)
  {
  }

  /** References in whatever the output keeps without following them: a reference on the document itself,
      the members the pass does not rewrite, the tags that stay, and parts of the components. */
  ghost predicate Carried(s: string, doc: Fields)
    requires !Fails(doc)
  {
    || s in OwnRef(doc)
    || (exists f :: f in doc && f.key !in REWRITTEN && s in IterRefs(f.value))
    || s in ItemRefs(TagsOf(doc).value)
    || CarriedInComponents(s, ComponentsOf(doc).value, Roots(doc))
  }

  lemma {:induction false} SetMember(fields: Fields, key: string, value: Json, f: Field)
    requires DistinctKeys(fields)
    ensures f in Set(fields, key, value) <==> f == Field(key, value) || (f in fields && f.key != key)
  {
    if fields != [] {
      assert fields == [fields[0]] + fields[1..];
      if fields[0].key == key {
        assert forall i :: 0 <= i < |fields[1..]| ==> fields[1..][i] == fields[i + 1];
      } else {
        SetMember(fields[1..], key, value, f);
      }
    }
  }

  lemma OutputMember(doc: Fields, tags: seq<Json>, paths: Fields, components: Fields, f: Field)
    requires DistinctKeys(doc)
    ensures f in WithMembers(doc, tags, paths, components) <==>
      || f == Field("tags", List(tags)) || f == Field("paths", Obj(paths)) || f == Field("components", Obj(components))
      || (f in doc && f.key !in REWRITTEN)
  {
    hide Set;
    var one := Set(doc, "tags", List(tags));
    var two := Set(one, "paths", Obj(paths));
    SetDistinct(doc, "tags", List(tags));
    SetDistinct(one, "paths", Obj(paths));
    SetMember(doc, "tags", List(tags), f);
    SetMember(one, "paths", Obj(paths), f);
    SetMember(two, "components", Obj(components), f);
  }

  lemma OutputGet(doc: Fields, tags: seq<Json>, paths: Fields, components: Fields, key: string)
    ensures Get(WithMembers(doc, tags, paths, components), key) ==
            if key == "components" then Some(Obj(components))
            else if key == "paths" then Some(Obj(paths))
            else if key == "tags" then Some(List(tags))
            else Get(doc, key)
  {
    hide Set, Get;
    var one := Set(doc, "tags", List(tags));
    var two := Set(one, "paths", Obj(paths));
    GetSet(doc, "tags", List(tags), key);
    GetSet(one, "paths", Obj(paths), key);
    GetSet(two, "components", Obj(components), key);
  }

  /** The rewritten members of the output; every other member is the document's. */
  lemma FilteredGet(doc: Fields, key: string)
    requires !Fails(doc)
    ensures key !in REWRITTEN ==> Get(Filtered(doc), key) == Get(doc, key)
    ensures ComponentsOf(Filtered(doc)) == Some(Pruned(ComponentsOf(doc).value, Roots(doc)))
    ensures Get(Filtered(doc), "paths") == Some(Obj(PathsOf(doc).value))
    ensures Get(Filtered(doc), "tags") == Some(List(TagsOf(doc).value))
  {
    hide Pruned, WithMembers, Raises, PathsOf, TagsOf, Roots;
    var tags, paths, pruned := TagsOf(doc).value, PathsOf(doc).value, Pruned(ComponentsOf(doc).value, Roots(doc));
    OutputGet(doc, tags, paths, pruned, key);
    OutputGet(doc, tags, paths, pruned, "components");
    OutputGet(doc, tags, paths, pruned, "paths");
    OutputGet(doc, tags, paths, pruned, "tags");
  }

  lemma ComponentsWellFormed(doc: Fields)
    requires WellFormed(Obj(doc)) && ComponentsOf(doc).Some?
    ensures WellFormed(Obj(ComponentsOf(doc).value))
  {
    GetFinds(doc, "components");
  }

  lemma ObjRefs(fields: Fields, s: string)
    ensures s in IterRefs(Obj(fields)) <==> s in OwnRef(fields) || exists f :: f in fields && s in IterRefs(f.value)
  {
    FieldRefsMember(fields, s);
  }

  lemma OwnRefKept(doc: Fields)
    requires !Fails(doc)
    ensures OwnRef(Filtered(doc)) == OwnRef(doc)
  {
    FilteredGet(doc, "$ref");
    hide Filtered, Fails;
  }

  /** The fields of the output. */
  lemma FilteredMember(doc: Fields, f: Field)
    requires DistinctKeys(doc) && !Fails(doc)
    ensures f in Filtered(doc) <==>
      || f == Field("tags", List(TagsOf(doc).value)) || f == Field("paths", Obj(PathsOf(doc).value))
      || f == Field("components", Obj(Pruned(ComponentsOf(doc).value, Roots(doc))))
      || (f in doc && f.key !in REWRITTEN)
  {
    hide Pruned, WithMembers, TagsOf, PathsOf, ComponentsOf, Roots, Raises;
    OutputMember(doc, TagsOf(doc).value, PathsOf(doc).value, Pruned(ComponentsOf(doc).value, Roots(doc)), f);
  }

  /** The references of the output, member by member. */
  lemma FilteredRefs(doc: Fields, s: string)
    requires DistinctKeys(doc) && !Fails(doc)
    ensures s in IterRefs(Obj(Filtered(doc))) <==>
      || s in OwnRef(doc) || s in ItemRefs(TagsOf(doc).value) || s in Roots(doc)
      || s in IterRefs(Obj(Pruned(ComponentsOf(doc).value, Roots(doc))))
      || exists f :: f in doc && f.key !in REWRITTEN && s in IterRefs(f.value)
  {
    var tags, paths, pruned := TagsOf(doc).value, PathsOf(doc).value, Pruned(ComponentsOf(doc).value, Roots(doc));
    assert IterRefs(List(tags)) == ItemRefs(tags) && IterRefs(Obj(paths)) == Roots(doc);
    OwnRefKept(doc);
    hide *;
    ObjRefs(Filtered(doc), s);
    forall f
      ensures f in Filtered(doc) <==>
        || f == Field("tags", List(tags)) || f == Field("paths", Obj(paths)) || f == Field("components", Obj(pruned))
        || (f in doc && f.key !in REWRITTEN)
    {
      FilteredMember(doc, f);
    }
    assert Field("tags", List(tags)) in Filtered(doc) && Field("paths", Obj(paths)) in Filtered(doc);
    assert Field("components", Obj(pruned)) in Filtered(doc);
  }

  /** A reference occurs in the output only if it is carried or followed; carried ones do, and so do those
      of the kept operations. */
  lemma OutputRefs(doc: Fields, s: string)
    requires WellFormed(Obj(doc)) && !Fails(doc)
    ensures s in IterRefs(Obj(Filtered(doc))) ==> Carried(s, doc) || Followed(s, Roots(doc), ComponentsOf(doc).value)
    ensures Carried(s, doc) || s in Roots(doc) ==> s in IterRefs(Obj(Filtered(doc)))
  {
    hide CarriedInComponents, Reachable, Pruned, Filtered, TagsOf, PathsOf, ComponentsOf, Roots, Raises, IterRefs, OwnRef, ItemRefs;
    ComponentsWellFormed(doc);
    PrunedRefs(ComponentsOf(doc).value, Roots(doc), s);
    FilteredRefs(doc, s);
  }

  /** No reference anywhere in the output that resolved in the input has lost its component. */
  ghost predicate NothingDangles(doc: Fields)
    requires !Fails(doc) && ComponentsOf(Filtered(doc)).Some?
  {
    forall s | s in IterRefs(Obj(Filtered(doc))) && ParseComponentRef(s).Some? ::
      var r := ParseComponentRef(s).value;
      Resolves(ComponentsOf(doc).value, r) ==> Resolves(ComponentsOf(Filtered(doc)).value, r)
  }

  /** What is carried refers only to components that stay. */
  ghost predicate CarriesOnlyKept(doc: Fields)
    requires !Fails(doc)
  {
    forall s | Carried(s, doc) && ParseComponentRef(s).Some? ::
      var r := ParseComponentRef(s).value;
      Resolves(ComponentsOf(doc).value, r) ==> r.section == SECURITY_SCHEMES || Reachable(r, Roots(doc), ComponentsOf(doc).value)
  }

  /** No reference anywhere in the output newly dangles if and only if everything kept without being
      followed refers only to components that stay. */
  lemma NothingDanglesExactly(doc: Fields)
    requires WellFormed(Obj(doc)) && !Fails(doc)
    ensures ComponentsOf(Filtered(doc)).Some?
    ensures NothingDangles(doc) <==> CarriesOnlyKept(doc)
  {
    FilteredGet(doc, "");
    ComponentsWellFormed(doc);
    var components, roots := ComponentsOf(doc).value, Roots(doc);
    hide Fails, ComponentsOf, Roots, Carried, Filtered, Pruned, Resolves, Reachable, Followed, IterRefs, ParseComponentRef;
    forall s
      ensures s in IterRefs(Obj(Filtered(doc))) ==> Carried(s, doc) || Followed(s, roots, components)
      ensures Carried(s, doc) ==> s in IterRefs(Obj(Filtered(doc)))
    {
      OutputRefs(doc, s);
    }
    forall r
      ensures Resolves(Pruned(components, roots), r)
         <==> Resolves(components, r) && (r.section == SECURITY_SCHEMES || Reachable(r, roots, components))
    {
      ResolvesAfterPruning(components, roots, r);
    }
    forall s | Followed(s, roots, components) && ParseComponentRef(s).Some? && Resolves(components, ParseComponentRef(s).value)
      ensures Resolves(Pruned(components, roots), ParseComponentRef(s).value)
    {
      FollowedRefsResolve(components, roots, s);
    }
  }

  lemma NothingFromNothing(r: Ref, components: Fields)
    ensures !Reachable(r, [], components)
  {
    assert forall q :: !PointsTo([], q);
  }

  lemma SingleRef(ref: string)
    requires COMPONENT_REF_PREFIX <= ref
    ensures IterRefs(Obj([Field("$ref", Str(ref))])) == [ref]
  {
    assert Get([Field("$ref", Str(ref))], "$ref") == Some(Str(ref));
    assert FieldRefs([Field("$ref", Str(ref))]) == [];
  }

  /** With no operation kept, every carried reference to a schema dangles. */
  lemma UnusedDangles(doc: Fields, r: Ref)
    requires WellFormed(Obj(doc)) && !Fails(doc) && Roots(doc) == []
    requires '/' !in r.section && r.section != SECURITY_SCHEMES && Resolves(ComponentsOf(doc).value, r)
    requires Carried(RefString(r), doc)
    ensures ComponentsOf(Filtered(doc)).Some? && !NothingDangles(doc)
  {
    var components := ComponentsOf(doc).value;
    hide ParseComponentRef, Reachable, Fails, Carried, Filtered, ComponentsOf, RefString, NothingDangles, Resolves;
    RefRoundTrip(r);
    NothingFromNothing(r, components);
    NothingDanglesExactly(doc);
  }

  function RefTo(r: Ref): Json { Obj([Field("$ref", Str(RefString(r)))]) }

  const A := Ref("schemas", "A")

  function SchemaA(): Field { Field("schemas", Obj([Field("A", Null)])) }

  function UnusedScheme(): Field { Field(SECURITY_SCHEMES, Obj([Field("oauth", RefTo(A))])) }

  /** A document whose only reference is in a security scheme that nothing uses. */
  function SchemeExample(): Fields { [Field("components", Obj([UnusedScheme(), SchemaA()]))] }

  /** A document whose only reference is in its webhooks. */
  function WebhookExample(): Fields { [Field("webhooks", RefTo(A)), Field("components", Obj([SchemaA()]))] }

  lemma NoOperations(doc: Fields)
    requires Get(doc, "tags").None? && Get(doc, "paths").None? && ComponentsOf(doc).Some?
    ensures !Fails(doc) && Roots(doc) == []
  {
    forall r
      ensures !Reachable(r, [], ComponentsOf(doc).value)
    {
      NothingFromNothing(r, ComponentsOf(doc).value);
    }
    assert IterRefs(Obj([])) == [];
  }

  lemma OnlySchema(components: Fields)
    requires components != [] && components[|components| - 1] == Field("schemas", Obj([Field("A", Null)]))
    requires DistinctKeys(components)
    ensures Resolves(components, A)
  {
    GetAt(components, |components| - 1);
  }

  lemma RefToA()
    ensures IterRefs(RefTo(A)) == [RefString(A)] && WellFormed(RefTo(A)) && WellFormed(SchemaA().value)
    ensures '/' !in A.section && A.section != SECURITY_SCHEMES
  {
    RefRoundTrip(A);
    SingleRef(RefString(A));
    hide RefString, ParseComponentRef, IterRefs;
  }

  lemma ObjHoldsFieldRefs(fields: Fields, s: string)
    requires s in FieldRefs(fields)
    ensures s in IterRefs(Obj(fields))
  {
  }

  lemma UnusedSchemeReads()
    ensures RefString(A) in IterRefs(UnusedScheme().value) && WellFormed(UnusedScheme().value) && KeptWhole(UnusedScheme())
  {
    RefToA();
    hide RefString, ParseComponentRef, RefTo, IterRefs;
    var schemes := UnusedScheme().value.fields;
    assert Get(schemes, "oauth") == Some(RefTo(A));
    FieldRefsOf(schemes, "oauth", RefString(A));
    ObjHoldsFieldRefs(schemes, RefString(A));
  }

  lemma SchemeExampleReads()
    ensures var doc := SchemeExample();
      && Get(doc, "tags").None? && Get(doc, "paths").None? && ComponentsOf(doc) == Some([UnusedScheme(), SchemaA()])
      && WellFormed(Obj(doc)) && Resolves([UnusedScheme(), SchemaA()], A)
  {
    RefToA();
    hide RefTo, IterRefs, RefString, ParseComponentRef;
    assert UnusedScheme().key != SchemaA().key;
    OnlySchema([UnusedScheme(), SchemaA()]);
    assert WellFormed(Obj([UnusedScheme(), SchemaA()]));
  }

  lemma SchemeCarries()
    requires !Fails(SchemeExample()) && ComponentsOf(SchemeExample()) == Some([UnusedScheme(), SchemaA()])
    ensures Carried(RefString(A), SchemeExample())
  {
    UnusedSchemeReads();
    hide RefString, IterRefs, Fails, ComponentsOf, Roots, KeptWhole, OwnRef, OnSection, UnusedScheme;
    var components := [UnusedScheme(), SchemaA()];
    assert components[0] in components;
  }

  /** The schema goes, the reference stays. */
  lemma SchemeCanDangle()
    ensures WellFormed(Obj(SchemeExample())) && !Fails(SchemeExample())
    ensures ComponentsOf(Filtered(SchemeExample())).Some? && !NothingDangles(SchemeExample())
  {
    hide *;
    SchemeExampleReads();
    RefToA();
    NoOperations(SchemeExample());
    SchemeCarries();
    UnusedDangles(SchemeExample(), A);
  }

  lemma WebhookExampleReads()
    ensures var doc := WebhookExample();
      && Get(doc, "tags").None? && Get(doc, "paths").None? && ComponentsOf(doc) == Some([SchemaA()])
      && WellFormed(Obj(doc)) && Resolves([SchemaA()], A)
  {
    RefToA();
    hide RefTo, IterRefs, RefString, ParseComponentRef;
    var doc := WebhookExample();
    OnlySchema([SchemaA()]);
    assert WellFormed(Obj([SchemaA()]));
    assert doc[1..] == [Field("components", Obj([SchemaA()]))];
  }

  lemma WebhookCarries()
    requires !Fails(WebhookExample())
    ensures Carried(RefString(A), WebhookExample())
  {
    RefToA();
    hide RefString, IterRefs, Fails, ComponentsOf, TagsOf, Roots, OwnRef, ItemRefs, CarriedInComponents, RefTo;
    var doc := WebhookExample();
    assert doc[0] in doc && doc[0].key !in REWRITTEN;
  }

  /** Here too. */
  lemma WebhookCanDangle()
    ensures WellFormed(Obj(WebhookExample())) && !Fails(WebhookExample())
    ensures ComponentsOf(Filtered(WebhookExample())).Some? && !NothingDangles(WebhookExample())
  {
    hide *;
    WebhookExampleReads();
    RefToA();
    NoOperations(WebhookExample());
    WebhookCarries();
    UnusedDangles(WebhookExample(), A);
  }

  // ----- pruning twice is pruning once

  lemma {:induction false} KeptValuesAgain(values: Fields, section: string, components: Fields, roots: seq<string>)
    requires DistinctKeys(components)
    ensures var kept := KeptValues(values, section, components, roots);
            KeptValues(kept, section, Pruned(components, roots), roots) == kept
  {
    if values != [] {
      var n := |values| - 1;
      KeptValuesAgain(values[..n], section, components, roots);
      ReachableAfterPruning(components, roots, Ref(section, values[n].key));
      var front := KeptValues(values[..n], section, components, roots);
      assert (front + [values[n]])[..|front|] == front;
      assert front + [] == front;
    }
  }

  lemma {:induction false} KeptAgain(sections: Fields, components: Fields, roots: seq<string>)
    requires DistinctKeys(components)
    ensures var kept := Kept(sections, components, roots);
            Kept(kept, Pruned(components, roots), roots) == kept
  {
    if sections != [] {
      var n := |sections| - 1;
      KeptAgain(sections[..n], components, roots);
      var front, last := Kept(sections[..n], components, roots), KeptSection(sections[n], components, roots);
      if !KeptWhole(sections[n]) {
        KeptValuesAgain(sections[n].value.fields, sections[n].key, components, roots);
      }
      if last == [] {
        assert front + last == front;
      } else {
        assert (front + last)[..|front|] == front && (front + last)[|front|] == last[0];
      }
    }
  }

  lemma {:induction false} KeptMethodsAgain(methods: Fields)
    requires KeptMethods(methods).Some?
    ensures KeptMethods(KeptMethods(methods).value) == KeptMethods(methods)
  {
    if methods != [] {
      KeptMethodsAgain(methods[1..]);
      var rest := KeptMethods(methods[1..]).value;
      assert ([methods[0]] + rest)[1..] == rest;
      assert [] + rest == rest;
    }
  }

  lemma {:induction false} KeptPathsAgain(paths: Fields)
    requires KeptPaths(paths).Some?
    ensures KeptPaths(KeptPaths(paths).value) == KeptPaths(paths)
  {
    if paths != [] {
      KeptPathsAgain(paths[1..]);
      if paths[0].key !in EXCLUDED_PATHS {
        var kept, rest := KeptMethods(paths[0].value.fields).value, KeptPaths(paths[1..]).value;
        KeptMethodsAgain(paths[0].value.fields);
        assert ([Field(paths[0].key, Obj(kept))] + rest)[1..] == rest;
        assert [] + rest == rest;
      }
    }
  }

  lemma RaisesAfterPruning(components: Fields, roots: seq<string>)
    requires DistinctKeys(components)
    ensures Raises(roots, Pruned(components, roots)) <==> Raises(roots, components)
  {
    hide Lookup, Pruned, Reachable;
    forall r
      ensures Reachable(r, roots, Pruned(components, roots)) <==> Reachable(r, roots, components)
      ensures Lookup(Pruned(components, roots), r) == NotADict <==> Lookup(components, r) == NotADict
    {
      ReachableAfterPruning(components, roots, r);
      KeptExactly(components, roots, r);
    }
  }

  lemma {:induction false} KeptTagsAgain(items: seq<Json>)
    requires KeptTagItems(items).Some?
    ensures KeptTagItems(KeptTagItems(items).value) == KeptTagItems(items)
  {
    if items != [] {
      KeptTagsAgain(items[1..]);
      var rest := KeptTagItems(items[1..]).value;
      assert ([items[0]] + rest)[1..] == rest;
      assert [] + rest == rest;
    }
  }

  lemma TagsAgain(doc: Fields)
    requires TagsOf(doc).Some?
    ensures KeptTagItems(TagsOf(doc).value) == TagsOf(doc)
  {
    match Get(doc, "tags")
    case Some(List(items)) => KeptTagsAgain(items);
    case _ =>
  }

  lemma PathsAgain(doc: Fields)
    requires PathsOf(doc).Some?
    ensures KeptPaths(PathsOf(doc).value) == PathsOf(doc)
  {
    match Get(doc, "paths")
    case Some(Obj(paths)) => KeptPathsAgain(paths);
    case _ =>
  }

  /** What the pass reads in its own output. */
  lemma MembersAgain(doc: Fields)
    requires !Fails(doc)
    ensures TagsOf(Filtered(doc)) == TagsOf(doc) && PathsOf(Filtered(doc)) == PathsOf(doc)
    ensures Roots(Filtered(doc)) == Roots(doc)
  {
    TagsAgain(doc);
    PathsAgain(doc);
    FilteredGet(doc, "");
    hide Filtered, IterRefs, Get, KeptTagItems, KeptPaths, Raises;
  }

  lemma SameMembers(doc: Fields, tags: seq<Json>, paths: Fields, components: Fields)
    requires Get(doc, "tags") == Some(List(tags)) && Get(doc, "paths") == Some(Obj(paths))
    requires Get(doc, "components") == Some(Obj(components))
    ensures WithMembers(doc, tags, paths, components) == doc
  {
    SetSame(doc, "tags");
    SetSame(doc, "paths");
    SetSame(doc, "components");
  }

  /** Filtering an already filtered document succeeds and changes nothing. */
  lemma FilterIdempotent(doc: Fields)
    requires WellFormed(Obj(doc)) && !Fails(doc)
    ensures !Fails(Filtered(doc)) && Filtered(Filtered(doc)) == Filtered(doc)
  {
    var components, roots := ComponentsOf(doc).value, Roots(doc);
    var pruned := Pruned(components, roots);
    FilteredGet(doc, "");
    OutputGet(doc, TagsOf(doc).value, PathsOf(doc).value, pruned, "components");
    MembersAgain(doc);
    ComponentsWellFormed(doc);
    RaisesAfterPruning(components, roots);
    KeptAgain(components, components, roots);
    SameMembers(Filtered(doc), TagsOf(doc).value, PathsOf(doc).value, pruned);
    hide Pruned, Kept, TagsOf, PathsOf, ComponentsOf, Roots, WithMembers, Raises, Get;
    assert pruned == Pruned(pruned, roots);
  }
}
