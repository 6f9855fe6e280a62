/** A normalised tool schema told on the schema it is made from (astrbot/core/agent/mcp_client.py,
    _normalize_mcp_input_schema), node by node: what stays of an object and of the schemas of its
    properties, the list of required names in its order, and when the normalisation raises. */
module McpContents {
  import opened Wrappers
  import opened JsonValues
  import opened McpSchema
  import opened Selections

  /** In the node's own properties the schema of that name has that boolean `required`. */
  ghost predicate Marked(originals: Fields, name: string, b: bool) {
    match Get(originals, name) case Some(Obj(schema)) => Get(schema, "required") == Some(Bool(b)) case _ => false
  }

  /** The normalised schema still has the boolean it was marked with. */
  ghost predicate StillMarked(originals: Fields, property: Field) {
    property.value.Obj? && exists b: bool :: Get(property.value.fields, "required") == Some(Bool(b)) && Marked(originals, property.key, b)
  }

  /** All fields of the schema but `required`, as they were and in their order. */
  ghost predicate WithoutRequired(schema: Fields, rest: Fields) {
    exists at: seq<nat> :: Picked(schema, rest, at) && forall i: nat :: i in at <==> i < |schema| && schema[i].key != "required"
  }

  /** A property in the result: its normalised schema, without the boolean mark if it still has it. */
  ghost predicate PropertyIs(originals: Fields, property: Field, out: Field) {
    && out.key == property.key
    && (StillMarked(originals, property) ==> out.value.Obj? && WithoutRequired(property.value.fields, out.value.fields))
    && (!StillMarked(originals, property) ==> out.value == property.value)
  }

  ghost predicate PropertiesAre(originals: Fields, properties: Fields, out: Fields) {
    |out| == |properties| && forall i :: 0 <= i < |out| ==> PropertyIs(originals, properties[i], out[i])
  }

  /** The names of the properties that are marked true and have a schema, in their order. */
  ghost predicate NamesAre(originals: Fields, properties: Fields, names: seq<Json>, at: seq<nat>) {
    && Ascends(at, |properties|) && |names| == |at| && (forall k :: 0 <= k < |at| ==> names[k] == Str(properties[at[k]].key))
    && forall i: nat :: i in at <==> i < |properties| && properties[i].value.Obj? && Marked(originals, properties[i].key, true)
  }

  /** Python's equality of values that can be hashed. */
  ghost predicate PyEqual(a: Json, b: Json) {
    || a == b
    || (a == Bool(true) && b == Num(1)) || (a == Num(1) && b == Bool(true))
    || (a == Bool(false) && b == Num(0)) || (a == Num(0) && b == Bool(false))
  }

  /** Of equal items the first, in their order. */
  ghost predicate FirstOnes(items: seq<Json>, part: seq<Json>, at: seq<nat>) {
    && Picked(items, part, at)
    && forall i: nat :: i in at <==> i < |items| && forall j :: 0 <= j < i ==> !PyEqual(items[j], items[i])
  }

  lemma {:induction false} RemoveTells(fields: Fields, key: string) returns (at: seq<nat>)
    requires DistinctKeys(fields)
    ensures Picked(fields, Remove(fields, key), at)
    ensures forall i: nat :: i in at <==> i < |fields| && fields[i].key != key
  {
    if fields == [] {
      at := [];
    } else {
      var first, rest := fields[0], fields[1..];
      assert fields == [first] + rest;
      if first.key == key {
        at := seq(|rest|, i requires 0 <= i < |rest| => i);
        AllPicked(rest);
        assert forall i :: 0 <= i < |rest| ==> rest[i] == fields[i + 1];
        RemovedMore(first, rest, rest, at, key);
        assert [] + rest == Remove(fields, key);
      } else {
        at := RemoveTells(rest, key);
        RemovedMore(first, rest, Remove(rest, key), at, key);
      }
      at := Behind(first.key != key, at);
    }
  }

  lemma RemovedMore(first: Field, rest: Fields, part: Fields, at: seq<nat>, key: string)
    requires Picked(rest, part, at) && forall i: nat :: i in at <==> i < |rest| && rest[i].key != key
    ensures Picked([first] + rest, (if first.key != key then [first] else []) + part, Behind(first.key != key, at))
    ensures forall i: nat :: i in Behind(first.key != key, at) <==> i < |[first] + rest| && ([first] + rest)[i].key != key
  {
    PickedAscends(rest, part, at);
    PickedBehind(first, rest, part, at, first.key != key);
    BehindHolds(first.key != key, at, |rest|);
    hide Picked, Behind;
  }

  lemma PropertyTells(property: Field, originals: Fields)
    requires property.value.Obj? ==> DistinctKeys(property.value.fields)
    ensures PropertyIs(originals, property, Unmarked(property, originals))
  {
    if property.value.Obj? {
      var at := RemoveTells(property.value.fields, "required");
      assert WithoutRequired(property.value.fields, Remove(property.value.fields, "required"));
      hide Picked, WithoutRequired, Remove;
    }
  }

  lemma {:induction false} NamesTell(properties: Fields, originals: Fields) returns (at: seq<nat>)
    ensures NamesAre(originals, properties, Lifted(properties, originals), at)
  {
    at := [];
    if properties != [] {
      var n := |properties| - 1;
      var front, last := properties[..n], properties[n];
      var before := NamesTell(front, originals);
      assert properties == front + [last];
      at := before + if Lifts(last, originals) then [n] else [];
      assert Lifts(last, originals) <==> last.value.Obj? && Marked(originals, last.key, true);
      hide Marked, Lifts;
    }
  }

  lemma SameExactly(a: Json, b: Json)
    ensures SameKey(a, b) <==> PyEqual(a, b)
  {
  }

  lemma {:induction false} FirstEqual(items: seq<Json>, n: nat, j: Json) returns (i: nat)
    requires n < |items| && PyEqual(items[n], j)
    ensures i <= n && PyEqual(items[i], j) && forall k :: 0 <= k < i ==> !PyEqual(items[k], items[i])
  {
    if k :| 0 <= k < n && PyEqual(items[k], items[n]) {
      i := FirstEqual(items, k, j);
    } else {
      i := n;
    }
  }

  /** The first ones hold an equal item just if there was one. */
  lemma HeldBefore(items: seq<Json>, part: seq<Json>, at: seq<nat>, j: Json)
    requires FirstOnes(items, part, at)
    ensures Holds(part, j) <==> exists i :: 0 <= i < |items| && PyEqual(items[i], j)
  {
    hide PyEqual, SameKey;
    if k :| 0 <= k < |part| && SameKey(part[k], j) {
      SameExactly(part[k], j);
    }
    if n: nat :| n < |items| && PyEqual(items[n], j) {
      var i := FirstEqual(items, n, j);
      assert i in at;
      var k :| 0 <= k < |at| && at[k] == i;
      SameExactly(part[k], j);
    }
  }

  ghost predicate SomeUnhashable(items: seq<Json>) { exists i :: 0 <= i < |items| && (items[i].List? || items[i].Obj?) }

  lemma {:induction false} DedupTells(items: seq<Json>) returns (at: seq<nat>)
    ensures Dedup(items).None? <==> SomeUnhashable(items)
    ensures Dedup(items).Some? ==> FirstOnes(items, Dedup(items).value, at)
  {
    at := [];
    if items != [] {
      var n := |items| - 1;
      var front, last := items[..n], items[n];
      var before := DedupTells(front);
      assert items == front + [last];
      assert SomeUnhashable(items) <==> last.List? || last.Obj? || SomeUnhashable(front);
      if Dedup(items).Some? {
        var part := Dedup(front).value;
        var again := Holds(part, last);
        at := before + if again then [] else [n];
        assert Dedup(items).value == part + if again then [] else [last];
        hide *;
        HeldBefore(front, part, before, last);
        FirstMore(front, part, before, last);
      }
    }
  }

  lemma FirstMore(items: seq<Json>, part: seq<Json>, at: seq<nat>, last: Json)
    requires FirstOnes(items, part, at)
    ensures var again := exists i :: 0 <= i < |items| && PyEqual(items[i], last);
      FirstOnes(items + [last], part + (if again then [] else [last]), at + if again then [] else [|items|])
  {
    var again := exists i :: 0 <= i < |items| && PyEqual(items[i], last);
    PickedMore(items, part, at, last, !again);
    hide PyEqual, Picked;
    var all := items + [last];
    assert forall i :: 0 <= i < |items| ==> all[i] == items[i];
    assert part + (if again then [] else [last]) == part + (if !again then [last] else []);
  }

  // ----- one node

  /** The entries of a list, or nothing. */
  function ItemsOf(value: Option<Json>): seq<Json> { match value case Some(List(items)) => items case _ => [] }

  function DictOf(value: Option<Json>): Fields { match value case Some(Obj(fields)) => fields case _ => [] }

  predicate IsDict(value: Option<Json>) { value.Some? && value.value.Obj? }

  /** `required` of the result: of the old entries and the marked names the first ones; without any, an old
      list goes, and whatever else was there stays. */
  ghost predicate RequiredIs(listed: Option<Json>, names: seq<Json>, out: Option<Json>) {
    var all := ItemsOf(listed) + names;
    if all == [] then out == if listed == Some(List([])) then None else listed
    else out.Some? && out.value.List? && exists at: seq<nat> :: FirstOnes(all, out.value.items, at)
  }

  /** The keys of the result: those of the node, in their order, but for `required`. */
  ghost predicate KeysAre(fields: Fields, out: Fields) {
    if Get(out, "required").Some? then Keys(out) == Keys(fields) + if Get(fields, "required").Some? then [] else ["required"]
    else exists at: seq<nat> :: KeysBut(fields, out, at)
  }

  ghost predicate KeysBut(fields: Fields, out: Fields, at: seq<nat>) {
    Picked(Keys(fields), Keys(out), at) && forall i: nat :: i in at <==> i < |fields| && fields[i].key != "required"
  }

  /** The result of an object whose values n have been normalised. */
  ghost predicate ObjectIs(fields: Fields, n: Fields, out: Fields) {
    var (originals, properties) := (DictOf(Get(fields, "properties")), DictOf(Get(n, "properties")));
    if !IsDict(Get(n, "properties")) then out == n
    else
      && (forall key :: key != "required" && key != "properties" ==> Get(out, key) == Get(n, key))
      && IsDict(Get(out, "properties")) && PropertiesAre(originals, properties, DictOf(Get(out, "properties")))
      && KeysAre(fields, out)
      && exists names, at: seq<nat> :: NamesAre(originals, properties, names, at) && RequiredIs(Get(n, "required"), names, Get(out, "required"))
  }

  lemma KeysBehind(first: Field, rest: Fields)
    ensures Keys([first] + rest) == [first.key] + Keys(rest)
  {
  }

  lemma {:induction false} KeysAfterSet(fields: Fields, key: string, value: Json)
    ensures Keys(Set(fields, key, value)) == Keys(fields) + if Get(fields, key).Some? then [] else [key]
  {
    if fields != [] {
      var first, rest := fields[0], fields[1..];
      assert fields == [first] + rest;
      KeysBehind(first, rest);
      KeysBehind(Field(key, value), rest);
      KeysBehind(first, Set(rest, key, value));
      KeysAfterSet(rest, key, value);
    }
    hide Keys;
  }

  lemma KeysAfterRemove(fields: Fields, key: string) returns (at: seq<nat>)
    requires DistinctKeys(fields)
    ensures Picked(Keys(fields), Keys(Remove(fields, key)), at)
    ensures forall i: nat :: i in at <==> i < |fields| && fields[i].key != key
  {
    at := RemoveTells(fields, key);
  }

  lemma PropertiesTell(properties: Fields, originals: Fields)
    requires forall i :: 0 <= i < |properties| && properties[i].value.Obj? ==> DistinctKeys(properties[i].value.fields)
    ensures PropertiesAre(originals, properties, UnmarkedAll(properties, originals))
  {
    forall i | 0 <= i < |properties|
      ensures PropertyIs(originals, properties[i], Unmarked(properties[i], originals))
    {
      PropertyTells(properties[i], originals);
    }
    hide PropertyIs, Unmarked;
  }

  /** The step at one object. */
  lemma LiftTells(fields: Fields, n: Fields, out: Fields)
    requires DistinctKeys(n) && Keys(n) == Keys(fields) && LiftMarks(n, fields) == Some(out)
    requires forall i :: 0 <= i < |DictOf(Get(n, "properties"))| && DictOf(Get(n, "properties"))[i].value.Obj? ==>
      DistinctKeys(DictOf(Get(n, "properties"))[i].value.fields)
    ensures ObjectIs(fields, n, out)
  {
    if IsDict(Get(n, "properties")) {
      var originals, properties := DictOf(Get(fields, "properties")), DictOf(Get(n, "properties"));
      PropertiesTell(properties, originals);
      var at := NamesTell(properties, originals);
      LiftedGet(fields, n, out);
      LiftedRequired(fields, n, out);
      LiftedKeys(fields, n, out);
      hide PropertiesAre, NamesAre, RequiredIs, KeysAre, LiftMarks, Get;
    }
  }

  lemma LiftedGet(fields: Fields, n: Fields, out: Fields)
    requires DistinctKeys(n) && LiftMarks(n, fields) == Some(out) && IsDict(Get(n, "properties"))
    ensures forall key :: key != "required" && key != "properties" ==> Get(out, key) == Get(n, key)
    ensures Get(out, "properties") == Some(Obj(UnmarkedAll(DictOf(Get(n, "properties")), DictOf(Get(fields, "properties")))))
  {
    hide LiftMarks, Get, UnmarkedAll;
    LiftMarksGet(n, fields, "");
    forall key | key != "required" && key != "properties"
      ensures Get(out, key) == Get(n, key)
    {
      LiftMarksGet(n, fields, key);
    }
  }

  /** What is set and removed for `required`, the properties being replaced. */
  lemma LiftedIs(fields: Fields, n: Fields, out: Fields)
    requires DistinctKeys(n) && LiftMarks(n, fields) == Some(out) && IsDict(Get(n, "properties"))
    ensures var (originals, properties) := (DictOf(Get(fields, "properties")), DictOf(Get(n, "properties")));
      var stripped := Set(n, "properties", Obj(UnmarkedAll(properties, originals)));
      var all := ItemsOf(Get(n, "required")) + Lifted(properties, originals);
      && DistinctKeys(stripped) && Get(stripped, "required") == Get(n, "required")
      && (all != [] ==> Dedup(all).Some? && out == Set(stripped, "required", List(Dedup(all).value)))
      && (all == [] ==> out == if Get(n, "required") == Some(List([])) then Remove(stripped, "required") else stripped)
  {
    var originals, properties := DictOf(Get(fields, "properties")), DictOf(Get(n, "properties"));
    var unmarked := Obj(UnmarkedAll(properties, originals));
    SetDistinct(n, "properties", unmarked);
    GetSet(n, "properties", unmarked, "required");
    hide Get, Set, Remove, Lifted, Dedup, UnmarkedAll;
  }

  lemma LiftedRequired(fields: Fields, n: Fields, out: Fields)
    requires DistinctKeys(n) && LiftMarks(n, fields) == Some(out) && IsDict(Get(n, "properties"))
    ensures RequiredIs(Get(n, "required"), Lifted(DictOf(Get(n, "properties")), DictOf(Get(fields, "properties"))), Get(out, "required"))
  {
    var originals, properties := DictOf(Get(fields, "properties")), DictOf(Get(n, "properties"));
    var stripped := Set(n, "properties", Obj(UnmarkedAll(properties, originals)));
    var all := ItemsOf(Get(n, "required")) + Lifted(properties, originals);
    LiftedIs(fields, n, out);
    var at := DedupTells(all);
    if all != [] {
      GetSet(stripped, "required", List(Dedup(all).value), "required");
    } else {
      GetRemove(stripped, "required", "required");
    }
    hide Lifted, Dedup, FirstOnes, LiftMarks, Get, Set, Remove, UnmarkedAll;
  }

  lemma LiftedKeys(fields: Fields, n: Fields, out: Fields)
    requires DistinctKeys(n) && Keys(n) == Keys(fields) && LiftMarks(n, fields) == Some(out) && IsDict(Get(n, "properties"))
    ensures KeysAre(fields, out)
  {
    var originals, properties := DictOf(Get(fields, "properties")), DictOf(Get(n, "properties"));
    var unmarked := Obj(UnmarkedAll(properties, originals));
    var stripped := Set(n, "properties", unmarked);
    var all := ItemsOf(Get(n, "required")) + Lifted(properties, originals);
    LiftedIs(fields, n, out);
    KeysAfterSet(n, "properties", unmarked);
    SameKeysGet(n, fields, "required");
    assert Keys(stripped) == Keys(fields);
    hide *;
    RequiredKeys(fields, stripped, if all == [] then None else Some(List(Dedup(all).value)));
    if all == [] && Get(n, "required").None? {
      KeysStay(fields, stripped);
    }
  }

  lemma KeysStay(fields: Fields, out: Fields)
    requires Keys(out) == Keys(fields) && Get(out, "required").None?
    ensures KeysAre(fields, out)
  {
    GetFinds(out, "required");
    AllPicked(Keys(fields));
    var at := seq(|fields|, i requires 0 <= i < |fields| => i);
    assert forall i :: 0 <= i < |fields| ==> Keys(fields)[i] == fields[i].key && Keys(out)[i] == out[i].key && out[i] in out;
    assert KeysBut(fields, out, at);
  }

  /** The keys, once `required` is set, removed or left alone. */
  lemma RequiredKeys(fields: Fields, stripped: Fields, value: Option<Json>)
    requires DistinctKeys(stripped) && Keys(stripped) == Keys(fields)
    requires Get(stripped, "required").Some? <==> Get(fields, "required").Some?
    ensures value.Some? ==> KeysAre(fields, Set(stripped, "required", value.value))
    ensures KeysAre(fields, Remove(stripped, "required"))
    ensures Get(stripped, "required").Some? ==> KeysAre(fields, stripped)
  {
    if value.Some? {
      KeysAfterSet(stripped, "required", value.value);
      GetSet(stripped, "required", value.value, "required");
    }
    var at := KeysAfterRemove(stripped, "required");
    GetRemove(stripped, "required", "required");
    assert forall i :: 0 <= i < |fields| ==> Keys(stripped)[i] == stripped[i].key && Keys(fields)[i] == fields[i].key;
    hide Get, Set, Remove, Picked;
    assert |stripped| == |Keys(stripped)| == |fields|;
    assert KeysBut(fields, Remove(stripped, "required"), at);
  }

  lemma {:induction false} SameKeysGet(a: Fields, b: Fields, key: string)
    requires Keys(a) == Keys(b)
    ensures Get(a, key).Some? <==> Get(b, key).Some?
  {
    if a != [] {
      assert |a| == |Keys(a)| == |b| && Keys(a)[0] == a[0].key && Keys(b)[0] == b[0].key;
      assert Keys(a[1..]) == Keys(a)[1..] && Keys(b[1..]) == Keys(b)[1..];
      SameKeysGet(a[1..], b[1..], key);
    }
  }

  /** The result of normalising an object, told on the object: n are its fields with their values normalised. */
  lemma NodeTells(fields: Fields, out: Fields) returns (n: Fields)
    requires WellFormed(Obj(fields)) && Normalize(Obj(fields)) == Some(Obj(out))
    ensures |n| == |fields|
    ensures forall i :: 0 <= i < |fields| ==> n[i].key == fields[i].key && Normalize(fields[i].value) == Some(n[i].value)
    ensures ObjectIs(fields, n, out)
  {
    NormalizeObj(fields, out);
    n := NormalizeFields(fields).value;
    assert Keys(n) == Keys(fields);
    PropertiesWellFormed(fields, n);
    hide Normalize, NormalizeFields, LiftMarks, WellFormed;
    LiftTells(fields, n, out);
  }

  lemma PropertiesWellFormed(fields: Fields, n: Fields)
    requires WellFormed(Obj(fields)) && NormalizeFields(fields) == Some(n)
    ensures forall i :: 0 <= i < |DictOf(Get(n, "properties"))| && DictOf(Get(n, "properties"))[i].value.Obj? ==>
      DistinctKeys(DictOf(Get(n, "properties"))[i].value.fields)
  {
    NormalizedGet(fields, "properties");
    if IsDict(Get(n, "properties")) {
      WellFormedGet(fields, "properties");
      NormalizeKeepsWellFormed(Get(fields, "properties").value);
      hide Normalize, NormalizeFields;
    }
  }

  /** Lists are normalised item by item, and other values stay. */
  lemma LeafTells(node: Json, out: Json)
    requires Normalize(node) == Some(out) && !node.Obj?
    ensures !node.List? ==> out == node
    ensures node.List? ==> out.List? && |out.items| == |node.items|
    ensures node.List? ==> forall i :: 0 <= i < |node.items| ==> Normalize(node.items[i]) == Some(out.items[i])
  {
  }

  // ----- the schema of a property, from the input to the output

  lemma {:induction false} NormalizedMember(fields: Fields, n: Fields, key: string)
    requires |n| == |fields|
    requires forall i :: 0 <= i < |fields| ==> n[i].key == fields[i].key && Normalize(fields[i].value) == Some(n[i].value)
    ensures Get(n, key).None? <==> Get(fields, key).None?
    ensures Get(fields, key).Some? ==> Normalize(Get(fields, key).value) == Get(n, key)
  {
    hide Normalize;
    if fields != [] && fields[0].key != key {
      NormalizedMember(fields[1..], n[1..], key);
    }
  }

  /** An object keeps what is under a key other than these two, normalised. */
  lemma ObjectKeeps(fields: Fields, out: Fields, key: string)
    requires WellFormed(Obj(fields)) && Normalize(Obj(fields)) == Some(Obj(out)) && key != "required" && key != "properties"
    ensures Get(out, key).None? <==> Get(fields, key).None?
    ensures Get(fields, key).Some? ==> Normalize(Get(fields, key).value) == Get(out, key)
  {
    hide Normalize, WellFormed, Get;
    var n := NodeTells(fields, out);
    NormalizedMember(fields, n, key);
  }

  lemma {:induction false} PropertyFound(originals: Fields, properties: Fields, out: Fields, name: string)
    requires PropertiesAre(originals, properties, out)
    ensures Get(out, name).None? <==> Get(properties, name).None?
    ensures Get(properties, name).Some? ==>
      PropertyIs(originals, Field(name, Get(properties, name).value), Field(name, Get(out, name).value))
    decreases |properties|
  {
    hide PropertyIs;
    if properties != [] {
      assert PropertyIs(originals, properties[0], out[0]);
      PropertyKey(originals, properties[0], out[0]);
      if properties[0].key != name {
        PropertyFound(originals, properties[1..], out[1..], name);
      }
    }
  }

  lemma PropertyKey(originals: Fields, property: Field, out: Field)
    requires PropertyIs(originals, property, out)
    ensures out.key == property.key
  {
  }

  lemma PropertyGet(originals: Fields, property: Field, out: Field, key: string)
    requires PropertyIs(originals, property, out) && property.value.Obj? && DistinctKeys(property.value.fields) && key != "required"
    ensures out.value.Obj? && Get(out.value.fields, key) == Get(property.value.fields, key)
  {
    if StillMarked(originals, property) {
      WithoutRequiredGet(property.value.fields, out.value.fields, key);
    }
    hide StillMarked, WithoutRequired;
  }

  lemma WithoutRequiredGet(schema: Fields, rest: Fields, key: string)
    requires WithoutRequired(schema, rest) && DistinctKeys(schema) && key != "required"
    ensures Get(rest, key) == Get(schema, key)
  {
    var at: seq<nat> :| Picked(schema, rest, at) && forall i: nat :: i in at <==> i < |schema| && schema[i].key != "required";
    hide Get;
    GetPicked(schema, rest, at, key);
    GetFinds(schema, key);
    if Get(schema, key).Some? {
      var i: nat :| i < |schema| && schema[i] == Field(key, Get(schema, key).value);
      assert i in at;
    }
  }

  /** From input to output: the schema of a property, be it marked or not, keeps its fields (type,
      description, enum and all others), normalised. */
  lemma PropertyKeeps(fields: Fields, out: Fields, name: string, schema: Fields, key: string)
    requires WellFormed(Obj(fields)) && Normalize(Obj(fields)) == Some(Obj(out))
    requires IsDict(Get(fields, "properties")) && Get(DictOf(Get(fields, "properties")), name) == Some(Obj(schema))
    requires name != "required" && name != "properties" && key != "required" && key != "properties"
    ensures IsDict(Get(out, "properties")) && IsDict(Get(DictOf(Get(out, "properties")), name))
    ensures var after := DictOf(Get(DictOf(Get(out, "properties")), name));
      (Get(after, key).None? <==> Get(schema, key).None?) &&
      (Get(schema, key).Some? ==> Normalize(Get(schema, key).value) == Get(after, key))
  {
    hide *;
    var originals := DictOf(Get(fields, "properties"));
    var properties := NormalizedProperties(fields, out);
    PropertyFound(originals, properties, DictOf(Get(out, "properties")), name);
    ObjectKeeps(originals, properties, name);
    var normal := NormalizedSchema(originals, name, schema, Get(properties, name));
    ObjectKeeps(schema, normal, key);
    PropertyGet(originals, Field(name, Obj(normal)), Field(name, Get(DictOf(Get(out, "properties")), name).value), key);
    DictIs(Get(DictOf(Get(out, "properties")), name));
  }

  lemma DictIs(value: Option<Json>)
    requires value.Some? && value.value.Obj?
    ensures IsDict(value) && DictOf(value) == value.value.fields
  {
  }

  lemma NormalizedSchema(originals: Fields, name: string, schema: Fields, value: Option<Json>) returns (normal: Fields)
    requires WellFormed(Obj(originals)) && Get(originals, name) == Some(Obj(schema)) && Normalize(Obj(schema)) == value && value.Some?
    ensures value == Some(Obj(normal)) && WellFormed(Obj(schema)) && DistinctKeys(normal)
  {
    NormalizeShape(Obj(schema));
    WellFormedGet(originals, name);
    NormalizeKeepsWellFormed(Obj(schema));
    normal := value.value.fields;
    hide Normalize, Get;
  }

  lemma NormalizedProperties(fields: Fields, out: Fields) returns (properties: Fields)
    requires WellFormed(Obj(fields)) && Normalize(Obj(fields)) == Some(Obj(out)) && IsDict(Get(fields, "properties"))
    ensures var originals := DictOf(Get(fields, "properties"));
      && WellFormed(Obj(originals)) && Normalize(Obj(originals)) == Some(Obj(properties))
      && IsDict(Get(out, "properties")) && PropertiesAre(originals, properties, DictOf(Get(out, "properties")))
  {
    var n := NodeTells(fields, out);
    NormalizedMember(fields, n, "properties");
    WellFormedGet(fields, "properties");
    NormalizeShape(Get(fields, "properties").value);
    properties := DictOf(Get(n, "properties"));
    hide Normalize, Get, WellFormed, PropertiesAre, KeysAre, NamesAre, RequiredIs;
  }

  // ----- when it raises

  /** An object with properties whose list of required names holds something that cannot be hashed. */
  ghost predicate Unhashable(value: Json) {
    value.Obj? && IsDict(Get(value.fields, "properties")) && SomeUnhashable(ItemsOf(Get(value.fields, "required")))
  }

  ghost predicate UnhashableAt(node: Json, path: seq<nat>) { At(node, path).Some? && Unhashable(At(node, path).value) }

  lemma UnhashableBelow(node: Json)
    ensures (exists path :: UnhashableAt(node, path)) <==>
      Unhashable(node) || exists i, path :: 0 <= i < |Children(node)| && UnhashableAt(Children(node)[i], path)
  {
    hide Unhashable;
    if path :| UnhashableAt(node, path) {
      assert path != [] ==> UnhashableAt(Children(node)[path[0]], path[1..]);
    }
    if i, path :| 0 <= i < |Children(node)| && UnhashableAt(Children(node)[i], path) {
      assert ([i] + path)[1..] == path;
      assert UnhashableAt(node, [i] + path);
    }
    if Unhashable(node) {
      assert UnhashableAt(node, []);
    }
  }

  lemma {:induction false} SomeFieldRaises(fields: Fields)
    ensures NormalizeFields(fields).None? <==> exists i :: 0 <= i < |fields| && Normalize(fields[i].value).None?
  {
    hide Normalize;
    if fields != [] {
      SomeFieldRaises(fields[1..]);
      assert forall i :: 0 <= i < |fields[1..]| ==> fields[1..][i] == fields[i + 1];
    }
  }

  lemma {:induction false} SomeItemRaises(items: seq<Json>)
    ensures NormalizeItems(items).None? <==> exists i :: 0 <= i < |items| && Normalize(items[i]).None?
  {
    hide Normalize;
    if items != [] {
      SomeItemRaises(items[1..]);
      assert forall i :: 0 <= i < |items[1..]| ==> items[1..][i] == items[i + 1];
    }
  }

  /** The step at one object raises just if one of its own entries cannot be hashed. */
  lemma LiftRaises(fields: Fields, n: Fields)
    requires NormalizeFields(fields) == Some(n)
    ensures LiftMarks(n, fields).None? <==> Unhashable(Obj(fields))
  {
    hide *;
    NormalizedGet(fields, "properties");
    NormalizedGet(fields, "required");
    SameShape(Get(fields, "properties"), Get(n, "properties"));
    SameShape(Get(fields, "required"), Get(n, "required"));
    UnhashableIs(fields);
    LiftNone(fields, n);
    var names := Lifted(DictOf(Get(n, "properties")), DictOf(Get(fields, "properties")));
    var listed := ItemsOf(Get(n, "required"));
    var at := DedupTells(listed + names);
    LiftedAreNames(DictOf(Get(n, "properties")), DictOf(Get(fields, "properties")));
    NoneOfNames(listed, names);
  }

  lemma UnhashableIs(fields: Fields)
    ensures Unhashable(Obj(fields)) <==> IsDict(Get(fields, "properties")) && SomeUnhashable(ItemsOf(Get(fields, "required")))
  {
  }

  lemma NoneOfNames(listed: seq<Json>, names: seq<Json>)
    requires forall j :: j in names ==> j.Str?
    ensures SomeUnhashable(listed + names) <==> SomeUnhashable(listed)
  {
    assert forall i :: |listed| <= i < |listed + names| ==> (listed + names)[i] in names;
    if i :| 0 <= i < |listed| && (listed[i].List? || listed[i].Obj?) {
      assert (listed + names)[i] == listed[i];
    }
  }

  lemma LiftNone(fields: Fields, n: Fields)
    ensures LiftMarks(n, fields).None? <==>
      IsDict(Get(n, "properties")) &&
      Dedup(ItemsOf(Get(n, "required")) + Lifted(DictOf(Get(n, "properties")), DictOf(Get(fields, "properties")))).None?
  {
    hide Dedup, Lifted, Get, Set, Remove, UnmarkedAll;
    if ItemsOf(Get(n, "required")) + Lifted(DictOf(Get(n, "properties")), DictOf(Get(fields, "properties"))) == [] {
      NoneToDedup();
    }
  }

  lemma NoneToDedup()
    ensures Dedup([]) == Some([])
  {
  }

  lemma SameShape(before: Option<Json>, after: Option<Json>)
    requires before.None? <==> after.None?
    requires before.Some? ==> Normalize(before.value) == after
    ensures IsDict(before) <==> IsDict(after)
    ensures |ItemsOf(before)| == |ItemsOf(after)|
    ensures forall i :: 0 <= i < |ItemsOf(before)| ==>
      (ItemsOf(before)[i].List? <==> ItemsOf(after)[i].List?) && (ItemsOf(before)[i].Obj? <==> ItemsOf(after)[i].Obj?)
    ensures SomeUnhashable(ItemsOf(before)) <==> SomeUnhashable(ItemsOf(after))
  {
    if before.Some? {
      NormalizeShape(before.value);
      forall i | 0 <= i < |ItemsOf(before)|
        ensures Normalize(ItemsOf(before)[i]) == Some(ItemsOf(after)[i])
        ensures (ItemsOf(before)[i].List? <==> ItemsOf(after)[i].List?) && (ItemsOf(before)[i].Obj? <==> ItemsOf(after)[i].Obj?)
      {
        NormalizeShape(ItemsOf(before)[i]);
      }
    }
  }

  lemma NodeRaises(node: Json)
    ensures Normalize(node).None? <==> Unhashable(node) || exists i :: 0 <= i < |Children(node)| && Normalize(Children(node)[i]).None?
  {
    match node
    case List(items) =>
      SomeItemRaises(items);
      assert Children(node) == items && (Normalize(node).None? <==> NormalizeItems(items).None?);
    case Obj(fields) => ObjectRaises(fields);
    case _ => assert Children(node) == [];
  }

  lemma ObjectRaises(fields: Fields)
    ensures var node := Obj(fields);
      Normalize(node).None? <==> Unhashable(node) || exists i :: 0 <= i < |Children(node)| && Normalize(Children(node)[i]).None?
  {
    var node := Obj(fields);
    SomeFieldRaises(fields);
    if NormalizeFields(fields).Some? {
      LiftRaises(fields, NormalizeFields(fields).value);
    }
    assert Normalize(node).None? <==> NormalizeFields(fields).None? || Unhashable(node) by { hide Unhashable, LiftMarks; }
    hide Normalize, NormalizeFields, Unhashable;
    if i :| 0 <= i < |fields| && Normalize(fields[i].value).None? {
      assert Children(node)[i] == fields[i].value;
    }
  }

  /** The normalisation raises if and only if somewhere in the schema there is such an object. */
  lemma {:induction false} RaisesExactly(node: Json)
    ensures Normalize(node).None? <==> exists path :: UnhashableAt(node, path)
    decreases node
  {
    NodeRaises(node);
    UnhashableBelow(node);
    forall i | 0 <= i < |Children(node)|
      ensures Normalize(Children(node)[i]).None? <==> exists path :: UnhashableAt(Children(node)[i], path)
    {
      RaisesExactly(Children(node)[i]);
    }
    hide Normalize, Unhashable, UnhashableAt;
  }
}
