/** Normalisation of MCP tool schemas (astrbot/core/agent/mcp_client.py, _normalize_mcp_input_schema):
    a boolean `required` on a property schema is lifted into the parent's list of required names.
    The result None stands for the TypeError that Python raises when a `required` list of an object
    with properties holds a list or a dictionary. */
module McpSchema {
  import opened Wrappers
  import opened JsonValues

  // ----- duplicate removal, list(dict.fromkeys(...))

  predicate Hashable(j: Json) { !j.List? && !j.Obj? }

  /** Python's equality of hashable values: True == 1 and False == 0. */
  predicate SameKey(a: Json, b: Json) {
    a == b || NumberOf(a) == NumberOf(b) != None
  }

  function NumberOf(j: Json): Option<int> {
    match j
    case Bool(b) => Some(if b then 1 else 0)
    case Num(n) => Some(n)
    case _ => None
  }

  predicate Holds(items: seq<Json>, j: Json) {
    exists i :: 0 <= i < |items| && SameKey(items[i], j)
  }

  /** Keeps the first of equal items. */
  function Dedup(items: seq<Json>): Option<seq<Json>> {
    if items == [] then Some([])
    else
      var last := items[|items| - 1];
      var front :- Dedup(items[..|items| - 1]);
      if !Hashable(last) then None
      else Some(if Holds(front, last) then front else front + [last])
  }

  // ----- lifting the marks of the properties

  /** The boolean `required` of a property's original schema. */
  function Mark(original: Fields, name: string): Option<bool> {
    match Get(original, name)
    case Some(Obj(schema)) => (match Get(schema, "required") case Some(Bool(b)) => Some(b) case _ => None)
    case _ => None
  }

  /** The property without its boolean mark; a list that replaced the mark stays. */
  function Unmarked(property: Field, original: Fields): Field {
    match property.value
    case Obj(schema) =>
      if Mark(original, property.key).Some? && Get(schema, "required") == Some(Bool(Mark(original, property.key).value))
      then Field(property.key, Obj(Remove(schema, "required"))) else property
    case _ => property
  }

  predicate Lifts(property: Field, original: Fields) {
    property.value.Obj? && Mark(original, property.key) == Some(true)
  }

  function UnmarkedAll(properties: Fields, original: Fields): Fields {
    seq(|properties|, i requires 0 <= i < |properties| => Unmarked(properties[i], original))
  }

  function Lifted(properties: Fields, original: Fields): seq<Json> {
    if properties == [] then []
    else
      var last := properties[|properties| - 1];
      Lifted(properties[..|properties| - 1], original) + (if Lifts(last, original) then [Str(last.key)] else [])
  }

  function RequiredList(fields: Fields): seq<Json> {
    match Get(fields, "required") case Some(List(items)) => items case _ => []
  }

  function PropertiesOf(fields: Fields): Option<Fields> {
    match Get(fields, "properties") case Some(Obj(properties)) => Some(properties) case _ => None
  }

  /** The object after its properties were normalised: strip the marks, rewrite `required`. */
  function LiftMarks(normalized: Fields, original: Fields): Option<Fields> {
    match PropertiesOf(normalized)
    case None => Some(normalized)
    case Some(properties) =>
      var originals := match PropertiesOf(original) case Some(o) => o case None => [];
      var stripped := Set(normalized, "properties", Obj(UnmarkedAll(properties, originals)));
      var all := RequiredList(normalized) + Lifted(properties, originals);
      if all != [] then
        var required :- Dedup(all);
        Some(Set(stripped, "required", List(required)))
      else if Get(normalized, "required") == Some(List([])) then Some(Remove(stripped, "required"))
      else Some(stripped)
  }

  function Normalize(node: Json): Option<Json>
    decreases node, 1
  {
    match node
    case List(items) => (var r :- NormalizeItems(items); Some(List(r)))
    case Obj(fields) => (var n :- NormalizeFields(fields); var r :- LiftMarks(n, fields); Some(Obj(r)))
    case _ => Some(node)
  }

  function NormalizeItems(items: seq<Json>): (r: Option<seq<Json>>)
    ensures r.Some? ==> |r.value| == |items| && forall i :: 0 <= i < |items| ==> Normalize(items[i]) == Some(r.value[i])
    decreases items, 0
  {
    if items == [] then Some([])
    else
      var first :- Normalize(items[0]);
      var rest :- NormalizeItems(items[1..]);
      Some([first] + rest)
  }

  function NormalizeFields(fields: Fields): (r: Option<Fields>)
    ensures r.Some? ==> |r.value| == |fields|
    ensures r.Some? ==> forall i :: 0 <= i < |fields| ==>
      r.value[i].key == fields[i].key && Normalize(fields[i].value) == Some(r.value[i].value)
    decreases fields, 0
  {
    if fields == [] then Some([])
    else
      var first :- Normalize(fields[0].value);
      var rest :- NormalizeFields(fields[1..]);
      Some([Field(fields[0].key, first)] + rest)
  }

  // ----- the code, with its loop over the properties

  method LiftRequired(properties: Fields, original: Fields, required: seq<Json>) returns (stripped: Fields, requiredList: seq<Json>)
    ensures stripped == UnmarkedAll(properties, original)
    ensures requiredList == required + Lifted(properties, original)
  {
    stripped := properties;
    requiredList := required;
    for i := 0 to |properties|
      invariant |stripped| == |properties|
      invariant forall j :: 0 <= j < i ==> stripped[j] == Unmarked(properties[j], original)
      invariant forall j :: i <= j < |properties| ==> stripped[j] == properties[j]
      invariant requiredList == required + Lifted(properties[..i], original)
    {
      assert properties[..i + 1][..i] == properties[..i];
      var property := properties[i];
      if !property.value.Obj? {
        continue;
      }
      var schema := property.value.fields;
      var marked := Mark(original, property.key);
      if marked.Some? {
        if Get(schema, "required") == Some(Bool(marked.value)) {
          stripped := stripped[i := Field(property.key, Obj(Remove(schema, "required")))];
        }
        if marked.value {
          requiredList := requiredList + [Str(property.key)];
        }
      }
    }
    assert properties[..|properties|] == properties;
  }

  /** `required` and the properties of one object, after its values were normalised. */
  method LiftIntoParent(normalized: Fields, original: Fields) returns (r: Option<Fields>)
    ensures r == LiftMarks(normalized, original)
  {
    var properties := PropertiesOf(normalized);
    if properties.None? {
      return Some(normalized);
    }
    var originals := match PropertiesOf(original) case Some(o) => o case None => [];
    var stripped, requiredList := LiftRequired(properties.value, originals, RequiredList(normalized));
    var result := Set(normalized, "properties", Obj(stripped));
    if requiredList != [] {
      var unique := Dedup(requiredList);
      if unique.None? {
        return None;
      }
      result := Set(result, "required", List(unique.value));
    } else {
      var required := Get(normalized, "required");
      if required.Some? && required.value.List? {
        result := Remove(result, "required");
      }
    }
    return Some(result);
  }

  method NormalizeNode(node: Json) returns (r: Option<Json>)
    ensures r == Normalize(node)
    decreases node
  {
    match node {
      case List(items) =>
        var normalized: seq<Json> := [];
        for i := 0 to |items|
          invariant |normalized| == i && forall j :: 0 <= j < i ==> Normalize(items[j]) == Some(normalized[j])
        {
          var item := NormalizeNode(items[i]);
          if item.None? {
            ItemsRaise(items, i);
            return None;
          }
          normalized := normalized + [item.value];
        }
        ItemsAre(items, normalized);
        return Some(List(normalized));
      case Obj(fields) =>
        var normalized: Fields := [];
        for i := 0 to |fields|
          invariant |normalized| == i
          invariant forall j :: 0 <= j < i ==> normalized[j].key == fields[j].key && Normalize(fields[j].value) == Some(normalized[j].value)
        {
          var value := NormalizeNode(fields[i].value);
          if value.None? {
            FieldsRaise(fields, i);
            return None;
          }
          normalized := normalized + [Field(fields[i].key, value.value)];
        }
        FieldsAre(fields, normalized);
        var lifted := LiftIntoParent(normalized, fields);
        return if lifted.None? then None else Some(Obj(lifted.value));
      case _ =>
        return Some(node);
    }
  }

  lemma {:induction false} ItemsAre(items: seq<Json>, normalized: seq<Json>)
    requires |normalized| == |items| && forall j :: 0 <= j < |items| ==> Normalize(items[j]) == Some(normalized[j])
    ensures NormalizeItems(items) == Some(normalized)
  {
    if items != [] {
      ItemsAre(items[1..], normalized[1..]);
      assert [normalized[0]] + normalized[1..] == normalized;
    }
  }

  lemma {:induction false} ItemsRaise(items: seq<Json>, i: nat)
    requires i < |items| && Normalize(items[i]) == None
    ensures NormalizeItems(items) == None
  {
    if i > 0 {
      ItemsRaise(items[1..], i - 1);
    }
  }

  lemma {:induction false} FieldsAre(fields: Fields, normalized: Fields)
    requires |normalized| == |fields|
    requires forall j :: 0 <= j < |fields| ==> normalized[j].key == fields[j].key && Normalize(fields[j].value) == Some(normalized[j].value)
    ensures NormalizeFields(fields) == Some(normalized)
  {
    if fields != [] {
      FieldsAre(fields[1..], normalized[1..]);
      assert [normalized[0]] + normalized[1..] == normalized;
    }
  }

  lemma {:induction false} FieldsRaise(fields: Fields, i: nat)
    requires i < |fields| && Normalize(fields[i].value) == None
    ensures NormalizeFields(fields) == None
  {
    if i > 0 {
      FieldsRaise(fields[1..], i - 1);
    }
  }

  // ----- what a normalised schema looks like

  predicate BooleanRequired(j: Json) {
    j.Obj? && Get(j.fields, "required").Some? && Get(j.fields, "required").value.Bool?
  }

  /** At every level: no property keeps a boolean `required`, and a `required` list beside properties
      is non-empty and free of duplicates. */
  ghost predicate Normal(j: Json) {
    match j
    case List(items) => forall i :: 0 <= i < |items| ==> Normal(items[i])
    case Obj(fields) =>
      && (forall i :: 0 <= i < |fields| ==> Normal(fields[i].value))
      && (PropertiesOf(fields).Some? ==>
            && NoMarks(PropertiesOf(fields).value)
            && Get(fields, "required") != Some(List([]))
            && Dedup(RequiredList(fields)) == Some(RequiredList(fields)))
    case _ => true
  }

  ghost predicate NoMarks(properties: Fields) {
    forall i :: 0 <= i < |properties| ==> !BooleanRequired(properties[i].value)
  }

  // ----- normal schemas are left alone

  lemma {:induction false} NoMarksNoneFound(properties: Fields, name: string)
    requires NoMarks(properties)
    ensures Mark(properties, name) == None
  {
    GetFinds(properties, name);
  }

  lemma {:induction false} NothingLifted(properties: Fields, original: Fields)
    requires forall name :: Mark(original, name) == None
    ensures Lifted(properties, original) == [] && UnmarkedAll(properties, original) == properties
  {
    if properties != [] {
      NothingLifted(properties[..|properties| - 1], original);
    }
  }

  lemma LiftMarksFixed(fields: Fields)
    requires PropertiesOf(fields).Some? ==>
      && NoMarks(PropertiesOf(fields).value)
      && Get(fields, "required") != Some(List([]))
      && Dedup(RequiredList(fields)) == Some(RequiredList(fields))
    ensures LiftMarks(fields, fields) == Some(fields)
  {
    hide Dedup, Lifted, UnmarkedAll, Mark, NoMarks, Set, Get, Remove;
    if PropertiesOf(fields).Some? {
      var properties := PropertiesOf(fields).value;
      forall name
        ensures Mark(properties, name) == None
      {
        NoMarksNoneFound(properties, name);
      }
      NothingLifted(properties, properties);
      SetSame(fields, "properties");
      assert RequiredList(fields) + [] == RequiredList(fields);
      if RequiredList(fields) != [] {
        SetSame(fields, "required");
      }
    }
  }

  lemma {:induction false} NormalIsFixed(j: Json)
    requires Normal(j)
    ensures Normalize(j) == Some(j)
  {
    match j
    case List(items) =>
      forall i | 0 <= i < |items|
        ensures Normalize(items[i]) == Some(items[i])
      {
        NormalIsFixed(items[i]);
      }
      ItemsAre(items, items);
    case Obj(fields) =>
      forall i | 0 <= i < |fields|
        ensures Normalize(fields[i].value) == Some(fields[i].value)
      {
        NormalIsFixed(fields[i].value);
      }
      FieldsAre(fields, fields);
      LiftMarksFixed(fields);
    case _ =>
  }

  // ----- duplicate removal

  lemma {:induction false} DedupFacts(items: seq<Json>)
    requires Dedup(items).Some?
    ensures var d := Dedup(items).value;
            && (forall j :: j in d ==> j in items)
            && (forall s :: Str(s) in d <==> Str(s) in items)
            && (d == [] <==> items == [])
            && Dedup(d) == Some(d)
  {
    if items != [] {
      var n := |items| - 1;
      var last := items[n];
      var front := Dedup(items[..n]).value;
      DedupFacts(items[..n]);
      assert Dedup(items).value == if Holds(front, last) then front else front + [last];
      assert Dedup(front + [last]) == if Holds(front, last) then Some(front) else Some(front + [last]) by {
        assert (front + [last])[..|front|] == front;
      }
      assert items == items[..n] + [last];
      hide Dedup, Hashable;
      HeldString(front, last);
      assert forall j :: j in items <==> j in items[..n] || j == last;
    }
  }

  lemma HeldString(items: seq<Json>, j: Json)
    ensures Holds(items, j) && j.Str? ==> j in items
    ensures Holds(items, j) ==> items != []
  {
  }

  // ----- lookups through normalisation

  lemma {:induction false} NormalizedGet(fields: Fields, key: string)
    requires NormalizeFields(fields).Some?
    ensures Get(fields, key).None? <==> Get(NormalizeFields(fields).value, key).None?
    ensures Get(fields, key).Some? ==> Normalize(Get(fields, key).value) == Get(NormalizeFields(fields).value, key)
  {
    if fields != [] && fields[0].key != key {
      NormalizedGet(fields[1..], key);
      assert NormalizeFields(fields).value[1..] == NormalizeFields(fields[1..]).value;
    }
  }

  lemma {:induction false} UnmarkedGet(properties: Fields, original: Fields, key: string)
    ensures Get(properties, key).None? <==> Get(UnmarkedAll(properties, original), key).None?
    ensures Get(properties, key).Some? ==>
      Get(UnmarkedAll(properties, original), key) == Some(Unmarked(Field(key, Get(properties, key).value), original).value)
  {
    if properties != [] && properties[0].key != key {
      UnmarkedGet(properties[1..], original, key);
      assert UnmarkedAll(properties, original)[1..] == UnmarkedAll(properties[1..], original);
    }
  }

  lemma LiftMarksGet(normalized: Fields, original: Fields, key: string)
    requires LiftMarks(normalized, original).Some? && DistinctKeys(normalized)
    ensures var result := LiftMarks(normalized, original).value;
            && (key != "required" && key != "properties" ==> Get(result, key) == Get(normalized, key))
            && (Get(result, "required") == Get(normalized, "required")
                || Get(result, "required").None? || Get(result, "required").value.List?)
            && (PropertiesOf(normalized).None? ==> result == normalized)
            && (PropertiesOf(normalized).Some? ==>
                  PropertiesOf(result) == Some(UnmarkedAll(PropertiesOf(normalized).value, match PropertiesOf(original) case Some(o) => o case None => [])))
  {
    if PropertiesOf(normalized).Some? {
      var properties := PropertiesOf(normalized).value;
      var originals := match PropertiesOf(original) case Some(o) => o case None => [];
      hide Lifted, UnmarkedAll, Dedup;
      var unmarked := Obj(UnmarkedAll(properties, originals));
      var stripped := Set(normalized, "properties", unmarked);
      SetDistinct(normalized, "properties", unmarked);
      var all := RequiredList(normalized) + Lifted(properties, originals);
      forall k
        ensures Get(stripped, k) == if k == "properties" then Some(unmarked) else Get(normalized, k)
      {
        GetSet(normalized, "properties", unmarked, k);
      }
      forall k
        ensures Get(Remove(stripped, "required"), k) == if k == "required" then None else Get(stripped, k)
        ensures all != [] ==>
          Get(LiftMarks(normalized, original).value, k) == if k == "required" then Some(List(Dedup(all).value)) else Get(stripped, k)
      {
        GetRemove(stripped, "required", k);
        if all != [] {
          GetSet(stripped, "required", List(Dedup(all).value), k);
        }
      }
    }
  }

  /** Normalisation never changes what kind of value something is. */
  lemma NormalizeShape(j: Json)
    requires Normalize(j).Some?
    ensures Normalize(j).value.Obj? <==> j.Obj?
    ensures Normalize(j).value.List? <==> j.List?
    ensures !j.Obj? && !j.List? ==> Normalize(j).value == j
  {
    hide NormalizeItems, NormalizeFields, LiftMarks;
  }

  lemma NormalizeObj(original: Fields, normal: Fields)
    requires WellFormed(Obj(original)) && Normalize(Obj(original)) == Some(Obj(normal))
    ensures NormalizeFields(original).Some?
    ensures var n := NormalizeFields(original).value; DistinctKeys(n) && LiftMarks(n, original) == Some(normal)
  {
    hide NormalizeItems, LiftMarks;
  }

  /** A boolean `required` on a normalised object was there before. */
  lemma MarkBack(original: Fields, normal: Fields, b: bool)
    requires WellFormed(Obj(original)) && Normalize(Obj(original)) == Some(Obj(normal))
    requires Get(normal, "required") == Some(Bool(b))
    ensures Get(original, "required") == Some(Bool(b))
  {
    NormalizeObj(original, normal);
    hide NormalizeFields, LiftMarks, Normalize, PropertiesOf, WellFormed, Get;
    var n := NormalizeFields(original).value;
    LiftMarksGet(n, original, "required");
    NormalizedGet(original, "required");
    NormalizeShape(Get(original, "required").value);
  }

  /** A property schema that still carries a boolean mark carried it in the original schema. */
  lemma PropertyMarkBack(original: Fields, properties: Fields, name: string, b: bool)
    requires WellFormed(Obj(original)) && Normalize(Obj(original)) == Some(Obj(properties))
    requires Get(properties, name).Some? && Get(properties, name).value.Obj?
    requires Get(Get(properties, name).value.fields, "required") == Some(Bool(b))
    ensures Mark(original, name) == Some(b)
  {
    NormalizeObj(original, properties);
    hide NormalizeFields, LiftMarks, Normalize, WellFormed, Get;
    var n := NormalizeFields(original).value;
    LiftMarksGet(n, original, name);
    NormalizedGet(original, name);
    NormalizeShape(Get(original, name).value);
    WellFormedGet(original, name);
    var before := Get(original, name).value.fields;
    var normal := Get(n, name).value.fields;
    if name == "properties" {
      UnmarkedGet(normal, before, "required");
      assert Get(normal, "required") == Some(Bool(b));
    }
    MarkBack(before, normal, b);
  }

  lemma WellFormedGet(fields: Fields, key: string)
    requires WellFormed(Obj(fields)) && Get(fields, key).Some?
    ensures WellFormed(Get(fields, key).value)
  {
    GetFinds(fields, key);
  }

  // ----- well-formedness is kept

  lemma {:induction false} NormalizeKeepsWellFormed(j: Json)
    requires WellFormed(j) && Normalize(j).Some?
    ensures WellFormed(Normalize(j).value)
    decreases j
  {
    match j
    case List(items) =>
      var r := NormalizeItems(items).value;
      forall i | 0 <= i < |r|
        ensures WellFormed(r[i])
      {
        NormalizeKeepsWellFormed(items[i]);
      }
    case Obj(fields) =>
      var n := NormalizeFields(fields).value;
      forall i | 0 <= i < |n|
        ensures WellFormed(n[i].value)
      {
        NormalizeKeepsWellFormed(fields[i].value);
      }
      assert WellFormed(Obj(n));
      LiftMarksKeepsWellFormed(n, fields);
    case _ =>
  }

  lemma FieldWellFormed(fields: Fields, f: Field)
    requires WellFormed(Obj(fields)) && f in fields
    ensures WellFormed(f.value)
  {
  }

  lemma UnmarkedKeepsWellFormed(properties: Fields, original: Fields)
    requires WellFormed(Obj(properties))
    ensures WellFormed(Obj(UnmarkedAll(properties, original)))
  {
    var unmarked := UnmarkedAll(properties, original);
    forall i | 0 <= i < |unmarked|
      ensures WellFormed(unmarked[i].value)
    {
      match properties[i].value
      case Obj(schema) => RemoveKeepsWellFormed(schema, "required");
      case _ =>
    }
  }

  lemma RemoveKeepsWellFormed(fields: Fields, key: string)
    requires WellFormed(Obj(fields))
    ensures WellFormed(Obj(Remove(fields, key)))
  {
    RemoveDistinct(fields, key);
    var rest := Remove(fields, key);
    forall i | 0 <= i < |rest|
      ensures WellFormed(rest[i].value)
    {
      RemoveMembers(fields, key, rest[i]);
      FieldWellFormed(fields, rest[i]);
    }
  }

  lemma SetKeepsWellFormed(fields: Fields, key: string, value: Json)
    requires WellFormed(Obj(fields)) && WellFormed(value)
    ensures WellFormed(Obj(Set(fields, key, value)))
  {
    SetDistinct(fields, key, value);
    var after := Set(fields, key, value);
    forall i | 0 <= i < |after|
      ensures WellFormed(after[i].value)
    {
      SetMembers(fields, key, value, after[i]);
    }
  }

  lemma LiftMarksKeepsWellFormed(n: Fields, original: Fields)
    requires WellFormed(Obj(n)) && LiftMarks(n, original).Some?
    ensures WellFormed(Obj(LiftMarks(n, original).value))
  {
    if PropertiesOf(n).Some? {
      var properties := PropertiesOf(n).value;
      var originals := match PropertiesOf(original) case Some(o) => o case None => [];
      WellFormedGet(n, "properties");
      UnmarkedKeepsWellFormed(properties, originals);
      var stripped := Set(n, "properties", Obj(UnmarkedAll(properties, originals)));
      SetKeepsWellFormed(n, "properties", Obj(UnmarkedAll(properties, originals)));
      RemoveKeepsWellFormed(stripped, "required");
      var all := RequiredList(n) + Lifted(properties, originals);
      if all != [] {
        DedupFacts(all);
        var required := Dedup(all).value;
        forall i | 0 <= i < |required|
          ensures WellFormed(required[i])
        {
          assert required[i] in all;
          ListedWellFormed(n, properties, originals, required[i]);
        }
        SetKeepsWellFormed(stripped, "required", List(required));
      }
    }
  }

  lemma ListedWellFormed(n: Fields, properties: Fields, originals: Fields, j: Json)
    requires WellFormed(Obj(n)) && j in RequiredList(n) + Lifted(properties, originals)
    ensures WellFormed(j)
  {
    if j in Lifted(properties, originals) {
      LiftedAreNames(properties, originals);
    } else {
      WellFormedGet(n, "required");
    }
  }

  lemma {:induction false} LiftedAreNames(properties: Fields, original: Fields)
    ensures forall j :: j in Lifted(properties, original) ==> j.Str?
    ensures forall s :: Str(s) in Lifted(properties, original) <==>
      exists i :: 0 <= i < |properties| && properties[i].key == s && Lifts(properties[i], original)
  {
    if properties != [] {
      var n := |properties| - 1;
      LiftedAreNames(properties[..n], original);
      forall s
        ensures Str(s) in Lifted(properties, original) <==>
          exists i :: 0 <= i < |properties| && properties[i].key == s && Lifts(properties[i], original)
      {
        if i :| 0 <= i < |properties| && properties[i].key == s && Lifts(properties[i], original) {
          if i < n {
            assert properties[..n][i].key == s && Lifts(properties[..n][i], original);
          }
        }
      }
    }
  }

  // ----- normalisation yields normal schemas

  lemma NormalMember(fields: Fields, f: Field)
    requires Normal(Obj(fields)) && f in fields
    ensures Normal(f.value)
  {
  }

  /** Dropping a boolean `required` keeps a schema normal. */
  lemma NormalWithoutMark(fields: Fields)
    requires Normal(Obj(fields)) && DistinctKeys(fields) && BooleanRequired(Obj(fields))
    ensures Normal(Obj(Remove(fields, "required")))
  {
    var rest := Remove(fields, "required");
    forall i | 0 <= i < |rest|
      ensures Normal(rest[i].value)
    {
      RemoveMembers(fields, "required", rest[i]);
      NormalMember(fields, rest[i]);
    }
    GetRemove(fields, "required", "required");
    GetRemove(fields, "required", "properties");
  }

  lemma {:induction false} NoMarksAfterRemove(properties: Fields, key: string)
    requires NoMarks(properties)
    ensures NoMarks(Remove(properties, key))
  {
    var rest := Remove(properties, key);
    forall i | 0 <= i < |rest|
      ensures !BooleanRequired(rest[i].value)
    {
      RemoveMembers(properties, key, rest[i]);
    }
  }

  /** A property value, stripped or not, stays normal. */
  lemma NormalUnmarked(property: Field, original: Fields)
    requires Normal(property.value) && WellFormed(property.value)
    ensures Normal(Unmarked(property, original).value)
  {
    hide Normal, WellFormed;
    match property.value
    case Obj(schema) =>
      if Unmarked(property, original) != property {
        ObjDistinct(schema);
        NormalWithoutMark(schema);
      }
    case _ =>
  }

  lemma ObjDistinct(fields: Fields)
    requires WellFormed(Obj(fields))
    ensures DistinctKeys(fields)
  {
  }

  /** Stripping the marks keeps the properties dictionary, itself a node of the schema, normal. */
  lemma NormalUnmarkedAll(properties: Fields, original: Fields)
    requires Normal(Obj(properties)) && WellFormed(Obj(properties))
    ensures Normal(Obj(UnmarkedAll(properties, original)))
  {
    var unmarked := UnmarkedAll(properties, original);
    forall i | 0 <= i < |unmarked|
      ensures Normal(unmarked[i].value)
    {
      NormalUnmarked(properties[i], original);
    }
    UnmarkedGet(properties, original, "properties");
    UnmarkedGet(properties, original, "required");
    if PropertiesOf(unmarked).Some? {
      NoMarksAfterRemove(PropertiesOf(properties).value, "required");
      assert NoMarks(PropertiesOf(unmarked).value);
      assert RequiredList(unmarked) == RequiredList(properties);
    }
  }

  /** No stripped property keeps a boolean `required`. */
  lemma UnmarkedHasNoMarks(original: Fields, properties: Fields)
    requires WellFormed(Obj(original)) && WellFormed(Obj(properties)) && Normalize(Obj(original)) == Some(Obj(properties))
    ensures NoMarks(UnmarkedAll(properties, original))
  {
    var unmarked := UnmarkedAll(properties, original);
    forall i | 0 <= i < |unmarked|
      ensures !BooleanRequired(unmarked[i].value)
    {
      GetAt(properties, i);
      match properties[i].value
      case Obj(schema) =>
        if BooleanRequired(properties[i].value) {
          var b := Get(schema, "required").value.b;
          PropertyMarkBack(original, properties, properties[i].key, b);
          FieldWellFormed(properties, properties[i]);
          ObjDistinct(schema);
          GetRemove(schema, "required", "required");
        }
      case _ =>
    }
  }

  lemma NormalAfterSet(fields: Fields, key: string, value: Json, f: Field)
    requires (forall i :: 0 <= i < |fields| ==> Normal(fields[i].value)) && Normal(value)
    requires f in Set(fields, key, value)
    ensures Normal(f.value)
  {
    SetMembers(fields, key, value, f);
  }

  lemma NormalAfterRemove(fields: Fields, key: string, f: Field)
    requires forall i :: 0 <= i < |fields| ==> Normal(fields[i].value)
    requires f in Remove(fields, key)
    ensures Normal(f.value)
  {
    RemoveMembers(fields, key, f);
  }

  lemma NormalRequiredList(n: Fields, properties: Fields, originals: Fields)
    requires forall i :: 0 <= i < |n| ==> Normal(n[i].value)
    requires Dedup(RequiredList(n) + Lifted(properties, originals)).Some?
    ensures Normal(List(Dedup(RequiredList(n) + Lifted(properties, originals)).value))
  {
    var all := RequiredList(n) + Lifted(properties, originals);
    DedupFacts(all);
    LiftedAreNames(properties, originals);
    GetFinds(n, "required");
    forall j | j in Dedup(all).value
      ensures Normal(j)
    {
      assert j in all;
      if j in RequiredList(n) {
        assert Normal(List(RequiredList(n)));
      }
    }
  }

  /** The lookups in the rewritten parent object. */
  lemma LiftMarksRequired(n: Fields, original: Fields)
    requires LiftMarks(n, original).Some? && DistinctKeys(n) && PropertiesOf(n).Some?
    ensures var result := LiftMarks(n, original).value;
            var all := RequiredList(n) + Lifted(PropertiesOf(n).value, match PropertiesOf(original) case Some(o) => o case None => []);
            && (all != [] ==> Dedup(all).Some? && Get(result, "required") == Some(List(Dedup(all).value)))
            && (all == [] ==> RequiredList(result) == [] && Get(result, "required") != Some(List([])))
            && (all == [] && !(Get(n, "required").Some? && Get(n, "required").value.List?) ==> Get(result, "required") == Get(n, "required"))
  {
    hide Lifted, UnmarkedAll, Dedup;
    var originals := match PropertiesOf(original) case Some(o) => o case None => [];
    var unmarked := Obj(UnmarkedAll(PropertiesOf(n).value, originals));
    var stripped := Set(n, "properties", unmarked);
    var all := RequiredList(n) + Lifted(PropertiesOf(n).value, originals);
    SetDistinct(n, "properties", unmarked);
    GetSet(n, "properties", unmarked, "required");
    GetRemove(stripped, "required", "required");
    if all != [] {
      GetSet(stripped, "required", List(Dedup(all).value), "required");
    }
  }

  lemma LiftMarksNormal(n: Fields, original: Fields)
    requires forall i :: 0 <= i < |n| ==> Normal(n[i].value)
    requires LiftMarks(n, original).Some? && DistinctKeys(n)
    requires PropertiesOf(n).Some? ==>
      PropertiesOf(original).Some? &&
      Normal(Obj(UnmarkedAll(PropertiesOf(n).value, PropertiesOf(original).value))) &&
      NoMarks(UnmarkedAll(PropertiesOf(n).value, PropertiesOf(original).value))
    ensures Normal(Obj(LiftMarks(n, original).value))
  {
    if PropertiesOf(n).Some? {
      var properties, originals := PropertiesOf(n).value, PropertiesOf(original).value;
      var result := LiftMarks(n, original).value;
      var all := RequiredList(n) + Lifted(properties, originals);
      LiftMarksGet(n, original, "properties");
      LiftMarksRequired(n, original);
      if all != [] {
        DedupFacts(all);
        NormalRequiredList(n, properties, originals);
      }
      LiftMarksValuesNormal(n, original);
    }
  }

  lemma LiftMarksValuesNormal(n: Fields, original: Fields)
    requires forall i :: 0 <= i < |n| ==> Normal(n[i].value)
    requires LiftMarks(n, original).Some? && PropertiesOf(n).Some? && PropertiesOf(original).Some?
    requires Normal(Obj(UnmarkedAll(PropertiesOf(n).value, PropertiesOf(original).value)))
    ensures forall i :: 0 <= i < |LiftMarks(n, original).value| ==> Normal(LiftMarks(n, original).value[i].value)
  {
    hide Normal, UnmarkedAll, Lifted, Dedup;
    var properties, originals := PropertiesOf(n).value, PropertiesOf(original).value;
    var unmarked := Obj(UnmarkedAll(properties, originals));
    var stripped := Set(n, "properties", unmarked);
    forall i | 0 <= i < |stripped|
      ensures Normal(stripped[i].value)
    {
      NormalAfterSet(n, "properties", unmarked, stripped[i]);
    }
    var all := RequiredList(n) + Lifted(properties, originals);
    var result := LiftMarks(n, original).value;
    forall i | 0 <= i < |result|
      ensures Normal(result[i].value)
    {
      assert result[i] in result;
      if all != [] {
        NormalRequiredList(n, properties, originals);
        NormalAfterSet(stripped, "required", List(Dedup(all).value), result[i]);
      } else if result != stripped {
        NormalAfterRemove(stripped, "required", result[i]);
      }
    }
  }

  /** Every schema that normalises becomes normal: in particular no property schema, at any depth,
      keeps a boolean `required`. */
  lemma {:induction false} NormalizeGivesNormal(j: Json)
    requires WellFormed(j) && Normalize(j).Some?
    ensures Normal(Normalize(j).value)
    decreases j
  {
    match j
    case List(items) =>
      var r := NormalizeItems(items).value;
      forall i | 0 <= i < |r|
        ensures Normal(r[i])
      {
        NormalizeGivesNormal(items[i]);
      }
    case Obj(fields) =>
      var n := NormalizeFields(fields).value;
      forall i | 0 <= i < |n|
        ensures Normal(n[i].value) && WellFormed(n[i].value)
      {
        NormalizeGivesNormal(fields[i].value);
        NormalizeKeepsWellFormed(fields[i].value);
      }
      ObjectGivesNormal(fields, n);
    case _ =>
  }

  lemma ObjectGivesNormal(fields: Fields, n: Fields)
    requires WellFormed(Obj(fields)) && NormalizeFields(fields) == Some(n) && LiftMarks(n, fields).Some?
    requires forall i :: 0 <= i < |n| ==> Normal(n[i].value) && WellFormed(n[i].value)
    ensures Normal(Obj(LiftMarks(n, fields).value))
  {
    hide LiftMarks, Normal, UnmarkedAll;
    if PropertiesOf(n).Some? {
      NormalizedGet(fields, "properties");
      NormalizeShape(Get(fields, "properties").value);
      WellFormedGet(fields, "properties");
      GetFinds(n, "properties");
      NormalUnmarkedAll(PropertiesOf(n).value, PropertiesOf(fields).value);
      UnmarkedHasNoMarks(PropertiesOf(fields).value, PropertiesOf(n).value);
    }
    LiftMarksNormal(n, fields);
  }

  /** Normalising twice is normalising once, on every JSON schema. */
  lemma NormalizeIdempotent(schema: Json)
    requires WellFormed(schema) && Normalize(schema).Some?
    ensures Normalize(Normalize(schema).value) == Normalize(schema)
  {
    NormalizeGivesNormal(schema);
    NormalIsFixed(Normalize(schema).value);
  }

  // ----- which names end up required

  lemma GetSmaller(fields: Fields, key: string)
    requires Get(fields, key).Some?
    ensures Get(fields, key).value < Obj(fields)
  {
    GetFinds(fields, key);
    var i :| 0 <= i < |fields| && fields[i] == Field(key, Get(fields, key).value);
    assert fields[i].value < Obj(fields);
  }

  /** The dictionary of properties is itself visited as a schema. When it has a property named
      "properties" with marked entries, its key "required" is overwritten by their names. */
  ghost predicate Overwritten(original: Fields)
    decreases Obj(original)
  {
    match Get(original, "properties")
    case Some(Obj(inner)) =>
      GetSmaller(original, "properties");
      exists i :: 0 <= i < |inner| && Mark(inner, inner[i].key) == Some(true) && (inner[i].key == "required" ==> !Overwritten(inner))
    case _ => false
  }

  /** A marked property is lifted unless its own entry was overwritten. */
  lemma {:induction false} LiftsExactly(original: Fields, normal: Fields, name: string)
    requires WellFormed(Obj(original)) && Normalize(Obj(original)) == Some(Obj(normal))
    ensures Str(name) in Lifted(normal, original) <==>
      Mark(original, name) == Some(true) && (name == "required" ==> !Overwritten(original))
    decreases Obj(original), 1
  {
    NormalizeKeepsWellFormed(Obj(original));
    LiftedAreNames(normal, original);
    SurvivesExactly(original, normal, name);
    hide WellFormed, Normalize, Lifted, Overwritten;
    if Get(normal, name).Some? && Get(normal, name).value.Obj? && Mark(original, name) == Some(true) {
      GetFinds(normal, name);
      var i :| 0 <= i < |normal| && normal[i] == Field(name, Get(normal, name).value);
      assert normal[i].key == name && Lifts(normal[i], original);
    }
    if i :| 0 <= i < |normal| && normal[i].key == name && Lifts(normal[i], original) {
      ObjDistinct(normal);
      GetAt(normal, i);
    }
  }

  /** A marked property is still a dictionary after normalisation unless it was overwritten. */
  lemma {:induction false} SurvivesExactly(original: Fields, normal: Fields, name: string)
    requires WellFormed(Obj(original)) && Normalize(Obj(original)) == Some(Obj(normal))
    ensures Mark(original, name) == Some(true) ==>
      (Get(normal, name).Some? && Get(normal, name).value.Obj? <==> !(name == "required" && Overwritten(original)))
    decreases Obj(original), 0
  {
    if Mark(original, name) == Some(true) {
      NormalizeObj(original, normal);
      var n := NormalizeFields(original).value;
      NormalizedGet(original, name);
      NormalizeShape(Get(original, name).value);
      LiftMarksGet(n, original, name);
      if name == "required" {
        OverwrittenExactly(original, normal, n);
      }
    }
  }

  lemma {:induction false} OverwrittenExactly(original: Fields, normal: Fields, n: Fields)
    requires WellFormed(Obj(original)) && Normalize(Obj(original)) == Some(Obj(normal))
    requires NormalizeFields(original) == Some(n) && LiftMarks(n, original) == Some(normal) && DistinctKeys(n)
    requires Get(original, "required").Some? && Get(original, "required").value.Obj?
    requires Get(n, "required").Some? && Get(n, "required").value.Obj?
    ensures Get(normal, "required").Some? && Get(normal, "required").value.Obj? <==> !Overwritten(original)
    decreases Obj(original), 0, 0
  {
    hide LiftMarks, Normalize, WellFormed, Lifted, NormalizeFields;
    NormalizedGet(original, "properties");
    if PropertiesOf(original).Some? {
      var inner := PropertiesOf(original).value;
      NormalizeShape(Obj(inner));
      GetSmaller(original, "properties");
      WellFormedGet(original, "properties");
      var innerNormal := PropertiesOf(n).value;
      LiftMarksRequired(n, original);
      SomethingLifted(original, inner, innerNormal);
    } else {
      if Get(original, "properties").Some? {
        NormalizeShape(Get(original, "properties").value);
      }
      LiftMarksGet(n, original, "required");
    }
  }

  lemma {:induction false} SomethingLifted(original: Fields, inner: Fields, innerNormal: Fields)
    requires PropertiesOf(original) == Some(inner) && Obj(inner) < Obj(original)
    requires WellFormed(Obj(inner)) && Normalize(Obj(inner)) == Some(Obj(innerNormal))
    ensures Overwritten(original) <==> Lifted(innerNormal, inner) != []
    decreases Obj(inner), 2
  {
    hide Normalize, WellFormed, Lifted;
    if Lifted(innerNormal, inner) != [] {
      LiftedAreNames(innerNormal, inner);
      var first := Lifted(innerNormal, inner)[0];
      assert first in Lifted(innerNormal, inner);
      LiftsExactly(inner, innerNormal, first.s);
      MarkedEntry(inner, first.s);
    }
    if Overwritten(original) {
      var i :| 0 <= i < |inner| && Mark(inner, inner[i].key) == Some(true) && (inner[i].key == "required" ==> !Overwritten(inner));
      LiftsExactly(inner, innerNormal, inner[i].key);
    }
  }

  lemma MarkedEntry(fields: Fields, name: string)
    requires Mark(fields, name).Some?
    ensures exists i :: 0 <= i < |fields| && fields[i].key == name
  {
    GetFinds(fields, name);
    var i :| 0 <= i < |fields| && fields[i] == Field(name, Get(fields, name).value);
  }

  ghost predicate Requires(fields: Fields, name: string) { Str(name) in RequiredList(fields) }

  lemma {:induction false} ListedNamesKept(items: seq<Json>, name: string)
    requires NormalizeItems(items).Some?
    ensures Str(name) in NormalizeItems(items).value <==> Str(name) in items
  {
    var r := NormalizeItems(items).value;
    forall i | 0 <= i < |items|
      ensures r[i] == Str(name) <==> items[i] == Str(name)
    {
      NormalizeShape(items[i]);
    }
  }

  /** An object with properties requires afterwards exactly the names it listed before and the
      properties marked true, except a property named "required" whose entry was overwritten. */
  lemma RequiredExactly(fields: Fields, result: Fields, name: string)
    requires WellFormed(Obj(fields)) && Normalize(Obj(fields)) == Some(Obj(result))
    requires PropertiesOf(fields).Some?
    ensures var properties := PropertiesOf(fields).value;
            Requires(result, name) <==>
              Requires(fields, name) ||
              (Mark(properties, name) == Some(true) && (name == "required" ==> !Overwritten(properties)))
  {
    NormalizeObj(fields, result);
    var n := NormalizeFields(fields).value;
    var properties := PropertiesOf(fields).value;
    NormalizedGet(fields, "properties");
    NormalizeShape(Obj(properties));
    WellFormedGet(fields, "properties");
    var normal := PropertiesOf(n).value;
    LiftMarksRequired(n, fields);
    NormalizedGet(fields, "required");
    if Get(fields, "required").Some? {
      NormalizeShape(Get(fields, "required").value);
      if Get(fields, "required").value.List? {
        ListedNamesKept(Get(fields, "required").value.items, name);
      }
    }
    LiftsExactly(properties, normal, name);
    hide LiftMarks, WellFormed, Overwritten;
    var all := RequiredList(n) + Lifted(normal, properties);
    if all != [] {
      DedupFacts(all);
    }
    assert Str(name) in all <==> Str(name) in RequiredList(n) || Str(name) in Lifted(normal, properties);
  }

  /** `required` becomes the union of the old list and the marked properties if and only if no marked
      property named "required", missing from the old list, is overwritten. */
  lemma UnionExactly(fields: Fields, result: Fields)
    requires WellFormed(Obj(fields)) && Normalize(Obj(fields)) == Some(Obj(result))
    requires PropertiesOf(fields).Some?
    ensures var properties := PropertiesOf(fields).value;
            (forall name :: Requires(result, name) <==> Requires(fields, name) || Mark(properties, name) == Some(true))
            <==> !(Overwritten(properties) && Mark(properties, "required") == Some(true) && !Requires(fields, "required"))
  {
    hide Normalize, WellFormed, Requires, Overwritten, Mark;
    forall name
      ensures var properties := PropertiesOf(fields).value;
              Requires(result, name) <==>
                Requires(fields, name) ||
                (Mark(properties, name) == Some(true) && (name == "required" ==> !Overwritten(properties)))
    {
      RequiredExactly(fields, result, name);
    }
  }

  /** A tool whose parameters are called "required" (marked) and "properties" (with a marked entry). */
  function LostExample(): Fields {
    var marked := Obj([Field("required", Bool(true))]);
    [Field("required", marked), Field("properties", Obj([Field("a", marked)]))]
  }

  /** The parameter "required" of that tool is not among the required names of the result. */
  lemma RequiredCanBeLost() returns (result: Fields)
    ensures Normalize(Obj([Field("properties", Obj(LostExample()))])) == Some(Obj(result))
    ensures Mark(LostExample(), "required") == Some(true) && !Requires(result, "required")
  {
    LostExampleReads();
    result := LostExampleNormalizes();
    hide Normalize, LostExample, Overwritten, WellFormed;
    RequiredExactly([Field("properties", Obj(LostExample()))], result, "required");
  }

  lemma LostExampleReads()
    ensures WellFormed(Obj([Field("properties", Obj(LostExample()))]))
    ensures Mark(LostExample(), "required") == Some(true) && Overwritten(LostExample())
  {
    var marked := Obj([Field("required", Bool(true))]);
    var inner := [Field("a", marked)];
    var example := LostExample();
    assert Get(example[1..], "properties") == Some(Obj(inner));
    assert Get(marked.fields, "required") == Some(Bool(true));
    assert inner[0].key == "a" && Mark(inner, "a") == Some(true);
  }

  lemma {:induction false} DedupHashable(items: seq<Json>)
    requires forall i :: 0 <= i < |items| ==> Hashable(items[i])
    ensures Dedup(items).Some?
  {
    if items != [] {
      DedupHashable(items[..|items| - 1]);
    }
  }

  lemma LiftsWithoutList(n: Fields, original: Fields)
    requires RequiredList(n) == []
    ensures LiftMarks(n, original).Some?
  {
    if PropertiesOf(n).Some? {
      var originals := match PropertiesOf(original) case Some(o) => o case None => [];
      var lifted := Lifted(PropertiesOf(n).value, originals);
      LiftedAreNames(PropertiesOf(n).value, originals);
      assert forall i :: 0 <= i < |lifted| ==> lifted[i] in lifted;
      DedupHashable(lifted);
      assert [] + lifted == lifted;
    }
  }

  lemma OneField(key: string, value: Json)
    requires Normalize(value).Some?
    ensures NormalizeFields([Field(key, value)]) == Some([Field(key, Normalize(value).value)])
  {
    hide Normalize;
    var fields := [Field(key, value)];
    assert fields[1..] == [] && NormalizeFields([]) == Some([]);
    assert [Field(key, Normalize(value).value)] + [] == [Field(key, Normalize(value).value)];
  }

  lemma MarkedStays()
    ensures Normalize(Obj([Field("required", Bool(true))])) == Some(Obj([Field("required", Bool(true))]))
  {
    OneField("required", Bool(true));
  }

  lemma InnerStays()
    ensures var marked := Obj([Field("required", Bool(true))]);
      Normalize(Obj([Field("a", marked)])) == Some(Obj([Field("a", marked)]))
  {
    MarkedStays();
    OneField("a", Obj([Field("required", Bool(true))]));
  }

  lemma ObjNormalizes(fields: Fields, n: Fields)
    requires NormalizeFields(fields) == Some(n) && RequiredList(n) == []
    ensures Normalize(Obj(fields)).Some? && Normalize(Obj(fields)).value.Obj?
  {
    hide LiftMarks, NormalizeFields;
    LiftsWithoutList(n, fields);
  }

  lemma LostExampleNormalizes() returns (result: Fields)
    ensures Normalize(Obj([Field("properties", Obj(LostExample()))])) == Some(Obj(result))
  {
    var example := LostExample();
    MarkedStays();
    InnerStays();
    hide Normalize, LiftMarks;
    OneField("properties", example[1].value);
    assert example[1..] == [example[1]];
    assert [example[0]] + [example[1]] == example;
    assert NormalizeFields(example) == Some(example);
    ObjNormalizes(example, example);
    OneField("properties", Obj(example));
    var outer := [Field("properties", Obj(example))];
    var n := [Field("properties", Normalize(Obj(example)).value)];
    assert n[1..] == [] && Get(n, "required") == None;
    ObjNormalizes(outer, n);
    result := Normalize(Obj(outer)).value.fields;
  }
}
