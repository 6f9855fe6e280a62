/** The public OpenAPI document told on the document it is made from (docs/scripts/update_openapi_json.py):
    which tags, operations and components are in the output, in which order, when the pass raises, and
    which references there are, without the functions that compute them. */
module OpenApiContents {
  import opened Wrappers
  import opened JsonValues
  import opened OpenApiPruning
  import opened Selections

  /** The tag has a public name. */
  ghost predicate NamesPublic(tag: Json) {
    tag.Obj? && exists name :: name in PUBLIC_TAGS && Get(tag.fields, "name") == Some(Str(name))
  }

  /** An entry of the operation's tags is a public one. */
  ghost predicate TaggedPublic(operation: Json) {
    operation.Obj? &&
    match Get(operation.fields, "tags")
    case Some(List(items)) => exists i :: 0 <= i < |items| && items[i].Str? && items[i].s in PUBLIC_TAGS
    case Some(Obj(fields)) => exists i :: 0 <= i < |fields| && fields[i].key in PUBLIC_TAGS
    case _ => false
  }

  /** Asking for its tags raises: it is no dictionary, they cannot be iterated, or an entry in front of any
      public one cannot be hashed. */
  ghost predicate TagsUnreadable(operation: Json) {
    !operation.Obj? ||
    match Get(operation.fields, "tags")
    case None => false
    case Some(List(items)) => exists i :: 0 <= i < |items| && Unhashable(items, i)
    case Some(Obj(_)) => false
    case Some(Str(_)) => false
    case _ => true
  }

  ghost predicate Unhashable(items: seq<Json>, i: nat)
    requires i < |items|
  {
    (items[i].List? || items[i].Obj?) && forall j :: 0 <= j < i ==> !(items[j].Str? && items[j].s in PUBLIC_TAGS)
  }

  lemma {:induction false} PublicItems(items: seq<Json>)
    ensures AnyPublicItem(items).None? <==> exists i :: 0 <= i < |items| && Unhashable(items, i)
    ensures AnyPublicItem(items).Some? ==>
      (AnyPublicItem(items).value <==> exists i :: 0 <= i < |items| && items[i].Str? && items[i].s in PUBLIC_TAGS)
  {
    if items != [] {
      var rest := items[1..];
      PublicItems(rest);
      PublicItemsOn(items);
    }
  }

  lemma PublicItemsOn(items: seq<Json>)
    requires items != []
    ensures var (rest, here) := (items[1..], items[0].Str? && items[0].s in PUBLIC_TAGS);
      && ((exists i :: 0 <= i < |items| && Unhashable(items, i)) <==>
            items[0].List? || items[0].Obj? || (!here && exists i :: 0 <= i < |rest| && Unhashable(rest, i)))
      && ((exists i :: 0 <= i < |items| && items[i].Str? && items[i].s in PUBLIC_TAGS) <==>
            here || exists i :: 0 <= i < |rest| && rest[i].Str? && rest[i].s in PUBLIC_TAGS)
  {
    var rest := items[1..];
    forall i | 0 <= i < |rest|
      ensures rest[i] == items[i + 1]
      ensures Unhashable(items, i + 1) <==> !(items[0].Str? && items[0].s in PUBLIC_TAGS) && Unhashable(rest, i)
    {
    }
    if i :| 0 <= i < |items| && Unhashable(items, i) {
      assert i > 0 ==> Unhashable(rest, i - 1);
    }
    if i :| 0 <= i < |items| && items[i].Str? && items[i].s in PUBLIC_TAGS {
      assert i > 0 ==> rest[i - 1].Str? && rest[i - 1].s in PUBLIC_TAGS;
    }
    assert items[0].List? || items[0].Obj? ==> Unhashable(items, 0);
  }

  lemma PublicExactly(operation: Json)
    ensures IsPublic(operation).None? <==> TagsUnreadable(operation)
    ensures IsPublic(operation).Some? ==> (IsPublic(operation).value <==> TaggedPublic(operation))
  {
    if operation.Obj? {
      match Get(operation.fields, "tags")
      case Some(List(items)) => PublicItems(items);
      case _ =>
    }
  }

  /** The same operations in the same order, the public ones. */
  ghost predicate PublicPart(methods: Fields, kept: Fields) {
    exists at: seq<nat> :: Picked(methods, kept, at)
      && forall i: nat :: i in at <==> i < |methods| && TaggedPublic(methods[i].value)
  }

  lemma {:induction false} MethodsPicked(methods: Fields) returns (at: seq<nat>)
    ensures KeptMethods(methods).None? <==> exists i :: 0 <= i < |methods| && TagsUnreadable(methods[i].value)
    ensures KeptMethods(methods).Some? ==>
      && Picked(methods, KeptMethods(methods).value, at)
      && forall i: nat :: i in at <==> i < |methods| && TaggedPublic(methods[i].value)
  {
    hide TagsUnreadable, TaggedPublic, IsPublic, Picked;
    at := [];
    if methods == [] {
      NothingPicked(methods);
    } else {
      var rest := methods[1..];
      var later := MethodsPicked(rest);
      PublicExactly(methods[0].value);
      assert methods == [methods[0]] + rest && forall i :: 0 <= i < |rest| ==> rest[i] == methods[i + 1];
      if KeptMethods(methods).Some? {
        var keep := IsPublic(methods[0].value).value;
        at := Behind(keep, later);
        PickedBehind(methods[0], rest, KeptMethods(rest).value, later, keep);
        PickedAscends(rest, KeptMethods(rest).value, later);
        BehindHolds(keep, later, |rest|);
        forall i: nat
          ensures i in at <==> i < |methods| && TaggedPublic(methods[i].value)
        {
          assert i > 0 ==> (i in at <==> i - 1 in later);
        }
      }
    }
  }

  /** A path of the output: some of its operations are public, and these stay. */
  ghost predicate StaysAs(path: Field, kept: Field) {
    kept.key == path.key && path.value.Obj? && kept.value.Obj? && PublicPart(path.value.fields, kept.value.fields)
  }

  ghost predicate PublicPath(path: Field) {
    && path.key != "/api/v1/live-chat/ws" && path.key != "/api/v1/unified-chat/ws" && path.value.Obj?
    && exists i :: 0 <= i < |path.value.fields| && TaggedPublic(path.value.fields[i].value)
  }

  /** A path that is not excluded raises: it is no dictionary, or the tags of an operation cannot be read. */
  ghost predicate PathUnreadable(path: Field) {
    && path.key != "/api/v1/live-chat/ws" && path.key != "/api/v1/unified-chat/ws"
    && (!path.value.Obj? || exists i :: 0 <= i < |path.value.fields| && TagsUnreadable(path.value.fields[i].value))
  }

  lemma PathRead(path: Field)
    ensures path.key in EXCLUDED_PATHS ==> !PathUnreadable(path) && !PublicPath(path)
    ensures PublicPath(path) ==> path.value.Obj? && path.key !in EXCLUDED_PATHS
    ensures path.key !in EXCLUDED_PATHS ==> ((!path.value.Obj? || KeptMethods(path.value.fields).None?) <==> PathUnreadable(path))
    ensures path.key !in EXCLUDED_PATHS && path.value.Obj? && KeptMethods(path.value.fields).Some? ==>
      var kept := KeptMethods(path.value.fields).value;
      StaysAs(path, Field(path.key, Obj(kept))) && (kept != [] <==> PublicPath(path))
  {
    if path.value.Obj? {
      var methods := path.value.fields;
      var at := MethodsPicked(methods);
      if KeptMethods(methods).Some? {
        hide KeptMethods, TaggedPublic;
        assert at != [] ==> at[0] in at;
      }
    }
  }

  /** The paths kept are those with a public operation, but for the two excluded ones, each with its public
      operations, all in their order. */
  ghost predicate PathsAre(paths: Fields, kept: Fields, at: seq<nat>) {
    && Ascends(at, |paths|) && |kept| == |at| && (forall k :: 0 <= k < |at| ==> StaysAs(paths[at[k]], kept[k]))
    && forall i: nat :: i in at <==> i < |paths| && PublicPath(paths[i])
  }

  lemma PathBehind(first: Field, rest: Fields, front: Fields, keptRest: Fields, at: seq<nat>, keep: bool)
    requires PathsAre(rest, keptRest, at) && (keep <==> PublicPath(first))
    requires if keep then |front| == 1 && StaysAs(first, front[0]) else front == []
    ensures PathsAre([first] + rest, front + keptRest, Behind(keep, at))
  {
    var paths, kept, all := [first] + rest, front + keptRest, Behind(keep, at);
    hide PublicPath, StaysAs, Behind;
    BehindHolds(keep, at, |rest|);
    assert forall i: nat :: 0 < i < |paths| ==> paths[i] == rest[i - 1];
    forall k: nat | k < |all|
      ensures StaysAs(paths[all[k]], kept[k])
    {
      if k >= |front| {
        BehindIs(keep, at, k - |front|);
        assert StaysAs(rest[at[k - |front|]], keptRest[k - |front|]);
      }
    }
  }

  lemma {:induction false} PathsPicked(paths: Fields) returns (at: seq<nat>)
    ensures KeptPaths(paths).None? <==> exists i :: 0 <= i < |paths| && PathUnreadable(paths[i])
    ensures KeptPaths(paths).Some? ==> PathsAre(paths, KeptPaths(paths).value, at)
  {
    hide PathUnreadable, PublicPath, StaysAs, KeptMethods, PathsAre;
    at := [];
    if paths == [] {
      NoPaths();
    } else {
      var first, rest := paths[0], paths[1..];
      var later := PathsPicked(rest);
      assert paths == [first] + rest;
      assert (exists i :: 0 <= i < |paths| && PathUnreadable(paths[i])) <==>
        PathUnreadable(first) || exists i :: 0 <= i < |rest| && PathUnreadable(rest[i]) by {
        assert forall i :: 0 <= i < |rest| ==> rest[i] == paths[i + 1];
      }
      PathRead(first);
      if KeptPaths(paths).Some? {
        var keep := PublicPath(first);
        var front := if keep then [Field(first.key, Obj(KeptMethods(first.value.fields).value))] else [];
        assert KeptPaths(paths).value == front + KeptPaths(rest).value;
        at := Behind(keep, later);
        PathBehind(first, rest, front, KeptPaths(rest).value, later, keep);
      }
    }
  }

  lemma NoPaths()
    ensures PathsAre([], [], [])
  {
  }

  /** Asking for the tag's name raises. */
  ghost predicate NameUnhashable(tag: Json) {
    tag.Obj? && match Get(tag.fields, "name") case Some(List(_)) => true case Some(Obj(_)) => true case _ => false
  }

  /** The tags kept are those with a public name, in their order. */
  ghost predicate TagsAre(tags: seq<Json>, kept: seq<Json>, at: seq<nat>) {
    Picked(tags, kept, at) && forall i: nat :: i in at <==> i < |tags| && NamesPublic(tags[i])
  }

  lemma {:induction false} TagsPicked(items: seq<Json>) returns (at: seq<nat>)
    ensures KeptTagItems(items).None? <==> exists i :: 0 <= i < |items| && NameUnhashable(items[i])
    ensures KeptTagItems(items).Some? ==> TagsAre(items, KeptTagItems(items).value, at)
  {
    at := [];
    if items == [] {
      NothingPicked(items);
    } else {
      var first, rest := items[0], items[1..];
      var later := TagsPicked(rest);
      assert items == [first] + rest && forall i :: 0 <= i < |rest| ==> rest[i] == items[i + 1];
      TagRead(first);
      hide NamesPublic, NameUnhashable, IsPublicTag, Picked;
      if KeptTagItems(items).Some? {
        var keep := NamesPublic(first);
        at := Behind(keep, later);
        PickedAscends(rest, KeptTagItems(rest).value, later);
        PickedBehind(first, rest, KeptTagItems(rest).value, later, keep);
        BehindHolds(keep, later, |rest|);
      }
    }
  }

  lemma TagRead(tag: Json)
    ensures IsPublicTag(tag).None? <==> NameUnhashable(tag)
    ensures IsPublicTag(tag).Some? ==> (IsPublicTag(tag).value <==> NamesPublic(tag))
  {
  }

  /** A member of the document that is a dictionary, or nothing. */
  function Dict(doc: Fields, key: string): Fields {
    match Get(doc, key) case Some(Obj(fields)) => fields case _ => []
  }

  function Items(doc: Fields, key: string): seq<Json> {
    match Get(doc, key) case Some(List(items)) => items case _ => []
  }

  /** Whenever the pass succeeds: the paths and the tags of its output are exactly those of the document that
      are public, in the order of the document. */
  lemma PublicExactlyKept(doc: Fields) returns (paths: seq<nat>, tags: seq<nat>)
    requires !Fails(doc)
    ensures Get(Filtered(doc), "paths") == Some(Obj(Dict(Filtered(doc), "paths")))
    ensures PathsAre(Dict(doc, "paths"), Dict(Filtered(doc), "paths"), paths)
    ensures Get(Filtered(doc), "tags") == Some(List(Items(Filtered(doc), "tags")))
    ensures TagsAre(Items(doc, "tags"), Items(Filtered(doc), "tags"), tags)
  {
    FilteredGet(doc, "");
    hide Filtered, Get, KeptPaths, KeptTagItems, PathsAre, TagsAre, Roots, Raises, Pruned;
    paths := PathsPicked(Dict(doc, "paths"));
    tags := TagsPicked(Items(doc, "tags"));
    NothingAtAll();
  }

  lemma NothingAtAll()
    ensures KeptPaths([]) == Some([]) && KeptTagItems([]) == Some([])
  {
  }

  /** What raises: tags or paths of a wrong kind, a tag whose name cannot be hashed, a path that is no
      dictionary, an operation whose tags cannot be read, components of a wrong kind, or a reference that
      leads into a section that is no dictionary. */
  ghost predicate Unreadable(doc: Fields) {
    || (match Get(doc, "tags")
        case None => false
        case Some(List(items)) => exists i :: 0 <= i < |items| && NameUnhashable(items[i])
        case Some(Obj(_)) => false
        case Some(Str(_)) => false
        case _ => true)
    || (match Get(doc, "paths")
        case None => false
        case Some(Obj(paths)) => exists i :: 0 <= i < |paths| && PathUnreadable(paths[i])
        case _ => true)
    || (match Get(doc, "components") case None => false case Some(Obj(_)) => false case _ => true)
  }

  ghost predicate NoDict(components: Fields, section: string) {
    Get(components, section).Some? && !Get(components, section).value.Obj?
  }

  lemma RaisesIs(roots: seq<string>, components: Fields)
    ensures Raises(roots, components) <==> exists r :: Reachable(r, roots, components) && NoDict(components, r.section)
  {
    hide Reachable;
  }

  /** The pass raises if and only if the document cannot be read, or a reference that the kept operations
      reach leads into a section that is no dictionary. */
  lemma FailsExactly(doc: Fields)
    ensures Unreadable(doc) ==> Fails(doc)
    ensures !Unreadable(doc) ==>
      (Fails(doc) <==> exists r :: Reachable(r, Roots(doc), Dict(doc, "components")) && NoDict(Dict(doc, "components"), r.section))
  {
    var paths := PathsPicked(Dict(doc, "paths"));
    var tags := TagsPicked(Items(doc, "tags"));
    RaisesIs(Roots(doc), Dict(doc, "components"));
    hide Get, KeptPaths, KeptTagItems, PathsAre, TagsAre, Raises, Roots, NameUnhashable, PathUnreadable, Reachable, NoDict;
  }

  function MethodOf(path: Option<Json>, name: string): Option<Json> {
    match path case Some(Obj(methods)) => Get(methods, name) case _ => None
  }

  function Operation(doc: Fields, path: string, name: string): Option<Json> { MethodOf(Get(Dict(doc, "paths"), path), name) }

  /** An operation is in the output if and only if it is in the document, its path is none of the two excluded
      ones and an entry of its tags is public; it is the same one. */
  lemma OperationKeptExactly(doc: Fields, path: string, name: string)
    requires WellFormed(Obj(doc)) && !Fails(doc)
    ensures var operation := Operation(doc, path, name);
      Operation(Filtered(doc), path, name) ==
      if operation.Some? && path != "/api/v1/live-chat/ws" && path != "/api/v1/unified-chat/ws" && TaggedPublic(operation.value)
      then operation else None
  {
    var at, tags := PublicExactlyKept(doc);
    var paths, kept := Dict(doc, "paths"), Dict(Filtered(doc), "paths");
    DictWellFormed(doc, "paths");
    hide Filtered, TaggedPublic, PathsAre, TagsAre, StaysAs, PublicPath;
    PathPicked(paths, kept, at, path);
    if Get(paths, path).Some? {
      MemberWellFormed(paths, path);
      MethodPicked(Field(path, Get(paths, path).value), Get(kept, path), name);
    }
  }

  lemma MethodPicked(path: Field, kept: Option<Json>, name: string)
    requires path.value.Obj? ==> DistinctKeys(path.value.fields)
    requires kept.Some? <==> PublicPath(path)
    requires kept.Some? ==> StaysAs(path, Field(path.key, kept.value))
    ensures var operation := MethodOf(Some(path.value), name);
      MethodOf(kept, name) ==
      if operation.Some? && path.key != "/api/v1/live-chat/ws" && path.key != "/api/v1/unified-chat/ws" && TaggedPublic(operation.value)
      then operation else None
  {
    hide TaggedPublic, PublicPath, StaysAs;
    if path.value.Obj? {
      GetFinds(path.value.fields, name);
      if MethodOf(Some(path.value), name).Some? && TaggedPublic(Get(path.value.fields, name).value) && !PublicPath(path) {
        NotPublicThen(path, name);
      }
    }
    if kept.Some? {
      var at := StaysTells(path, Field(path.key, kept.value));
      OperationPicked(path.value.fields, kept.value.fields, at, name);
    }
  }

  lemma StaysTells(path: Field, kept: Field) returns (at: seq<nat>)
    requires StaysAs(path, kept) && PublicPath(path)
    ensures path.key != "/api/v1/live-chat/ws" && path.key != "/api/v1/unified-chat/ws" && path.value.Obj? && kept.value.Obj?
    ensures Picked(path.value.fields, kept.value.fields, at)
    ensures forall i: nat :: i in at <==> i < |path.value.fields| && TaggedPublic(path.value.fields[i].value)
  {
    hide TaggedPublic, Picked;
    at :| Picked(path.value.fields, kept.value.fields, at)
      && forall i: nat :: i in at <==> i < |path.value.fields| && TaggedPublic(path.value.fields[i].value);
  }

  lemma NotPublicThen(path: Field, name: string)
    requires path.value.Obj? && Get(path.value.fields, name).Some? && TaggedPublic(Get(path.value.fields, name).value)
    requires !PublicPath(path)
    ensures path.key == "/api/v1/live-chat/ws" || path.key == "/api/v1/unified-chat/ws"
  {
    hide TaggedPublic;
    GetFinds(path.value.fields, name);
  }

  lemma DictWellFormed(doc: Fields, key: string)
    requires WellFormed(Obj(doc))
    ensures WellFormed(Obj(Dict(doc, key)))
  {
    GetFinds(doc, key);
  }

  lemma MemberWellFormed(fields: Fields, key: string)
    requires WellFormed(Obj(fields)) && Get(fields, key).Some?
    ensures WellFormed(Get(fields, key).value)
  {
    GetFinds(fields, key);
  }

  lemma PathPicked(paths: Fields, kept: Fields, at: seq<nat>, path: string)
    requires DistinctKeys(paths) && PathsAre(paths, kept, at)
    ensures Get(kept, path).Some? ==> Get(paths, path).Some? && StaysAs(Field(path, Get(paths, path).value), Field(path, Get(kept, path).value))
    ensures Get(kept, path).Some? <==> Get(paths, path).Some? && PublicPath(Field(path, Get(paths, path).value))
  {
    hide PublicPath, StaysAs;
    forall k | 0 <= k < |at|
      ensures kept[k].key == paths[at[k]].key
    {
      assert StaysAs(paths[at[k]], kept[k]);
      StaysKey(paths[at[k]], kept[k]);
    }
    GetPicked(paths, kept, at, path);
    GetFinds(paths, path);
    if Get(paths, path).Some? {
      var i: nat :| i < |paths| && paths[i] == Field(path, Get(paths, path).value);
      assert i in at <==> PublicPath(paths[i]);
      if k: nat :| k < |at| && paths[at[k]].key == path {
        assert at[k] in at && kept[k] == Field(path, Get(kept, path).value);
      }
    }
  }

  lemma StaysKey(path: Field, kept: Field)
    requires StaysAs(path, kept)
    ensures kept.key == path.key
  {
  }

  lemma OperationPicked(src: Fields, dst: Fields, at: seq<nat>, name: string)
    requires DistinctKeys(src) && Picked(src, dst, at)
    requires forall i: nat :: i in at <==> i < |src| && TaggedPublic(src[i].value)
    ensures Get(dst, name) ==
            if Get(src, name).Some? && TaggedPublic(Get(src, name).value) then Get(src, name) else None
  {
    hide TaggedPublic;
    GetPicked(src, dst, at, name);
    GetFinds(src, name);
    if Get(src, name).Some? {
      var i: nat :| i < |src| && src[i] == Field(name, Get(src, name).value);
      assert i in at <==> TaggedPublic(src[i].value);
      if k: nat :| k < |at| && src[at[k]].key == name {
        assert at[k] in at;
      }
    }
  }

  // ----- references, told on the value

  /** At the path there is a dictionary that refers to s. */
  ghost predicate RefersAt(value: Json, path: seq<nat>, s: string) {
    match At(value, path)
    case Some(Obj(fields)) => Get(fields, "$ref") == Some(Str(s)) && "#/components/" <= s
    case _ => false
  }

  lemma RefersBelow(value: Json, s: string)
    ensures (exists path :: RefersAt(value, path, s)) <==>
      RefersAt(value, [], s) || exists i, path :: 0 <= i < |Children(value)| && RefersAt(Children(value)[i], path, s)
  {
    if path :| RefersAt(value, path, s) {
      assert path != [] ==> RefersAt(Children(value)[path[0]], path[1..], s);
    }
    if i, path :| 0 <= i < |Children(value)| && RefersAt(Children(value)[i], path, s) {
      assert ([i] + path)[1..] == path;
      assert RefersAt(value, [i] + path, s);
    }
  }

  lemma {:induction false} ItemRefsMember(items: seq<Json>, s: string)
    ensures s in ItemRefs(items) <==> exists i :: 0 <= i < |items| && s in IterRefs(items[i])
  {
    if items != [] {
      ItemRefsMember(items[1..], s);
      assert forall i :: 0 <= i < |items[1..]| ==> items[1..][i] == items[i + 1];
    }
  }

  lemma ChildRefs(value: Json, s: string)
    ensures s in IterRefs(value) <==> RefersAt(value, [], s) || exists i :: 0 <= i < |Children(value)| && s in IterRefs(Children(value)[i])
  {
    match value
    case Obj(fields) =>
      ObjRefs(fields, s);
      assert forall i :: 0 <= i < |fields| ==> fields[i] in fields && Children(value)[i] == fields[i].value;
      if f :| f in fields && s in IterRefs(f.value) {
        var i :| 0 <= i < |fields| && fields[i] == f;
        assert s in IterRefs(Children(value)[i]);
      }
    case List(items) =>
      ItemRefsMember(items, s);
      assert Children(value) == items;
    case _ =>
  }

  /** The references found in a value are those at any path in it. */
  lemma {:induction false} RefsExactly(value: Json, s: string)
    ensures s in IterRefs(value) <==> exists path :: RefersAt(value, path, s)
    decreases value
  {
    ChildRefs(value, s);
    RefersBelow(value, s);
    forall i | 0 <= i < |Children(value)|
      ensures s in IterRefs(Children(value)[i]) <==> exists path :: RefersAt(Children(value)[i], path, s)
    {
      RefsExactly(Children(value)[i], s);
    }
    hide IterRefs, RefersAt;
  }

  /** A reference names a component if and only if it is written so, with a slash between section and name. */
  lemma ParseExactly(s: string, r: Ref)
    ensures ParseComponentRef(s) == Some(r) <==> '/' !in r.section && s == "#/components/" + r.section + "/" + r.name
  {
    if '/' !in r.section {
      RefRoundTrip(r);
      assert RefString(r) == "#/components/" + r.section + "/" + r.name;
    }
    if ParseComponentRef(s) == Some(r) {
      var rest := s[|COMPONENT_REF_PREFIX|..];
      assert s == COMPONENT_REF_PREFIX + rest && rest == rest[..SlashAt(rest)] + "/" + rest[SlashAt(rest) + 1..];
    }
  }

  // ----- the order of the components

  /** What is kept of a section: those components that are reachable, in their order. */
  ghost predicate ValuesAre(section: Field, kept: Fields, components: Fields, roots: seq<string>, at: seq<nat>)
    requires section.value.Obj?
  {
    && Picked(section.value.fields, kept, at)
    && forall i: nat :: i in at <==>
         i < |section.value.fields| && Reachable(Ref(section.key, section.value.fields[i].key), roots, components)
  }

  lemma {:induction false} ValuesPicked(values: Fields, key: string, components: Fields, roots: seq<string>) returns (at: seq<nat>)
    ensures ValuesAre(Field(key, Obj(values)), KeptValues(values, key, components, roots), components, roots, at)
  {
    hide Reachable, KeptValues, ValuesAre, Picked;
    at := [];
    NoValues(key, components, roots);
    if values != [] {
      var n := |values| - 1;
      var front, last := values[..n], values[n];
      var before := ValuesPicked(front, key, components, roots);
      KeptValuesStep(values, key, components, roots);
      assert values == front + [last];
      at := before + if Reachable(Ref(key, last.key), roots, components) then [n] else [];
      ValuesMore(front, KeptValues(front, key, components, roots), key, components, roots, before, last);
    }
  }

  lemma NoValues(key: string, components: Fields, roots: seq<string>)
    ensures ValuesAre(Field(key, Obj([])), KeptValues([], key, components, roots), components, roots, [])
  {
  }

  lemma KeptValuesStep(values: Fields, key: string, components: Fields, roots: seq<string>)
    requires values != []
    ensures var last := values[|values| - 1];
      KeptValues(values, key, components, roots) == KeptValues(values[..|values| - 1], key, components, roots)
        + (if Reachable(Ref(key, last.key), roots, components) then [last] else [])
  {
    hide Reachable;
  }

  lemma ValuesMore(values: Fields, kept: Fields, key: string, components: Fields, roots: seq<string>, at: seq<nat>, last: Field)
    requires ValuesAre(Field(key, Obj(values)), kept, components, roots, at)
    ensures var keep := Reachable(Ref(key, last.key), roots, components);
      ValuesAre(Field(key, Obj(values + [last])), kept + (if keep then [last] else []), components, roots,
                at + if keep then [|values|] else [])
  {
    var keep := Reachable(Ref(key, last.key), roots, components);
    PickedMore(values, kept, at, last, keep);
    hide Reachable, Picked;
  }

  /** What becomes of a section: kept whole, or its reachable components, if there are any. */
  ghost predicate SectionStays(section: Field, kept: Field, components: Fields, roots: seq<string>) {
    && kept.key == section.key
    && (section.key == "securitySchemes" || !section.value.Obj? ==> kept == section)
    && (section.key != "securitySchemes" && section.value.Obj? ==>
          kept.value.Obj? && exists at: seq<nat> :: ValuesAre(section, kept.value.fields, components, roots, at))
  }

  /** Whether it is in the output at all. */
  ghost predicate SectionUsed(section: Field, components: Fields, roots: seq<string>) {
    section.key != "securitySchemes" && section.value.Obj? ==>
      exists i :: 0 <= i < |section.value.fields| && Reachable(Ref(section.key, section.value.fields[i].key), roots, components)
  }

  ghost predicate SectionsAre(sections: Fields, kept: Fields, components: Fields, roots: seq<string>, at: seq<nat>) {
    && Ascends(at, |sections|) && |kept| == |at|
    && (forall k :: 0 <= k < |at| ==> SectionStays(sections[at[k]], kept[k], components, roots))
    && forall i: nat :: i in at <==> i < |sections| && SectionUsed(sections[i], components, roots)
  }

  lemma SectionPicked(section: Field, components: Fields, roots: seq<string>)
    ensures var kept := KeptSection(section, components, roots);
      && |kept| == (if SectionUsed(section, components, roots) then 1 else 0)
      && (kept != [] ==> SectionStays(section, kept[0], components, roots))
  {
    if !KeptWhole(section) {
      var values := section.value.fields;
      var at := ValuesPicked(values, section.key, components, roots);
      assert ValuesAre(section, KeptValues(values, section.key, components, roots), components, roots, at);
      hide Reachable, KeptValues;
      assert at != [] ==> at[0] in at;
    }
  }

  /** The components of the output, section by section in the order of the document. */
  lemma {:induction false} SectionsPicked(sections: Fields, components: Fields, roots: seq<string>) returns (at: seq<nat>)
    ensures SectionsAre(sections, Kept(sections, components, roots), components, roots, at)
  {
    at := [];
    if sections != [] {
      var n := |sections| - 1;
      var front, last := sections[..n], sections[n];
      var before := SectionsPicked(front, components, roots);
      assert sections == front + [last];
      SectionPicked(last, components, roots);
      at := before + if SectionUsed(last, components, roots) then [n] else [];
      hide KeptSection, SectionStays, SectionUsed, SectionsAre;
      SectionsMore(front, Kept(front, components, roots), components, roots, before, last, KeptSection(last, components, roots));
    }
  }

  lemma SectionsMore(sections: Fields, kept: Fields, components: Fields, roots: seq<string>, at: seq<nat>, last: Field, more: Fields)
    requires SectionsAre(sections, kept, components, roots, at)
    requires |more| == if SectionUsed(last, components, roots) then 1 else 0
    requires more != [] ==> SectionStays(last, more[0], components, roots)
    ensures SectionsAre(sections + [last], kept + more, components, roots,
                        at + if SectionUsed(last, components, roots) then [|sections|] else [])
  {
    hide SectionStays, SectionUsed;
    var all := at + if SectionUsed(last, components, roots) then [|sections|] else [];
    assert Ascends(all, |sections + [last]|);
    forall i: nat
      ensures i in all <==> i < |sections + [last]| && SectionUsed((sections + [last])[i], components, roots)
    {
    }
    forall k | 0 <= k < |all|
      ensures SectionStays((sections + [last])[all[k]], (kept + more)[k], components, roots)
    {
      assert k < |at| ==> all[k] == at[k] && (kept + more)[k] == kept[k];
    }
  }

  // ----- the whole output

  /** Whenever the pass succeeds: its paths, tags and components are those of the document that stay, told
      on the document, in its order; every other member is the document's. The walk over references starts
      from those at any place in the kept paths. */
  lemma FilteredTells(doc: Fields) returns (paths: seq<nat>, tags: seq<nat>, sections: seq<nat>)
    requires !Fails(doc)
    ensures forall key :: key != "tags" && key != "paths" && key != "components" ==> Get(Filtered(doc), key) == Get(doc, key)
    ensures Get(Filtered(doc), "tags") == Some(List(Items(Filtered(doc), "tags")))
    ensures TagsAre(Items(doc, "tags"), Items(Filtered(doc), "tags"), tags)
    ensures Get(Filtered(doc), "paths") == Some(Obj(Dict(Filtered(doc), "paths")))
    ensures PathsAre(Dict(doc, "paths"), Dict(Filtered(doc), "paths"), paths)
    ensures Get(Filtered(doc), "components") == Some(Obj(Dict(Filtered(doc), "components")))
    ensures SectionsAre(Dict(doc, "components"), Dict(Filtered(doc), "components"), Dict(doc, "components"), Roots(doc), sections)
    ensures forall s :: s in Roots(doc) <==> exists path :: RefersAt(Obj(Dict(Filtered(doc), "paths")), path, s)
  {
    hide *;
    paths, tags := PublicExactlyKept(doc);
    OthersKept(doc);
    FilteredComponents(doc);
    sections := SectionsPicked(Dict(doc, "components"), Dict(doc, "components"), Roots(doc));
    RootsAre(doc);
    forall s
      ensures s in Roots(doc) <==> exists path :: RefersAt(Obj(Dict(Filtered(doc), "paths")), path, s)
    {
      RefsExactly(Obj(Dict(Filtered(doc), "paths")), s);
    }
  }

  lemma OthersKept(doc: Fields)
    requires !Fails(doc)
    ensures forall key :: key != "tags" && key != "paths" && key != "components" ==> Get(Filtered(doc), key) == Get(doc, key)
  {
    forall key | key != "tags" && key != "paths" && key != "components"
      ensures Get(Filtered(doc), key) == Get(doc, key)
    {
      FilteredGet(doc, key);
    }
  }

  lemma FilteredComponents(doc: Fields)
    requires !Fails(doc)
    ensures Dict(Filtered(doc), "components") == Kept(Dict(doc, "components"), Dict(doc, "components"), Roots(doc))
    ensures Get(Filtered(doc), "components") == Some(Obj(Kept(Dict(doc, "components"), Dict(doc, "components"), Roots(doc))))
  {
    hide Kept, Get;
    OutputGet(doc, TagsOf(doc).value, PathsOf(doc).value, Pruned(ComponentsOf(doc).value, Roots(doc)), "components");
    hide WithMembers;
  }

  lemma RootsAre(doc: Fields)
    requires !Fails(doc)
    ensures Roots(doc) == IterRefs(Obj(Dict(Filtered(doc), "paths")))
  {
    FilteredGet(doc, "");
    hide Filtered, IterRefs;
  }

  // ----- reachability, told on the document

  function Written(r: Ref): string { "#/components/" + r.section + "/" + r.name }

  /** Somewhere in the value there is a reference to the component. */
  ghost predicate Names(value: Json, r: Ref) {
    '/' !in r.section && exists path :: RefersAt(value, path, Written(r))
  }

  /** The component there is under that section and name names the other one. */
  ghost predicate Leads(components: Fields, from: Ref, r: Ref) {
    match Get(Dict(components, from.section), from.name) case Some(value) => Names(value, r) case None => false
  }

  /** A chain of components from one that the kept paths name, each naming the next. */
  ghost predicate Traced(c: seq<Ref>, paths: Fields, components: Fields) {
    c != [] && Names(Obj(paths), c[0]) && forall i :: 0 <= i < |c| - 1 ==> Leads(components, c[i], c[i + 1])
  }

  lemma PointsExactly(refs: seq<string>, r: Ref)
    ensures PointsTo(refs, r) <==> '/' !in r.section && Written(r) in refs
  {
    hide ParseComponentRef;
    ParseExactly(Written(r), r);
    if s :| s in refs && ParseComponentRef(s) == Some(r) {
      ParseExactly(s, r);
    }
  }

  lemma NamesExactly(value: Json, r: Ref)
    ensures PointsTo(IterRefs(value), r) <==> Names(value, r)
  {
    hide *;
    PointsExactly(IterRefs(value), r);
    RefsExactly(value, Written(r));
    NamesIs(value, r);
  }

  lemma NamesIs(value: Json, r: Ref)
    ensures Names(value, r) <==> '/' !in r.section && exists path :: RefersAt(value, path, Written(r))
  {
  }

  lemma LeadsExactly(components: Fields, from: Ref, r: Ref)
    ensures PointsTo(Targets(components, from), r) <==> Leads(components, from, r)
  {
    hide Names;
    match Lookup(components, from)
    case Present(v) => NamesExactly(v, r);
    case _ => PointsExactly([], r);
    hide PointsTo, IterRefs;
  }

  /** A component is reachable if and only if such a chain ends in it. */
  lemma ReachableExactly(doc: Fields, r: Ref)
    requires !Fails(doc)
    ensures Reachable(r, Roots(doc), Dict(doc, "components")) <==>
      exists c :: Traced(c, Dict(Filtered(doc), "paths"), Dict(doc, "components")) && c[|c| - 1] == r
  {
    var paths, components, roots := Dict(Filtered(doc), "paths"), Dict(doc, "components"), Roots(doc);
    RootsAre(doc);
    hide Dict, Roots, Filtered, Names, Leads, PointsTo, Targets;
    forall c: seq<Ref>
      ensures Chain(c, roots, components) <==> Traced(c, paths, components)
    {
      if c != [] {
        NamesExactly(Obj(paths), c[0]);
        forall i | 0 <= i < |c| - 1
          ensures PointsTo(Targets(components, c[i]), c[i + 1]) <==> Leads(components, c[i], c[i + 1])
        {
          LeadsExactly(components, c[i], c[i + 1]);
        }
      }
    }
  }
}
