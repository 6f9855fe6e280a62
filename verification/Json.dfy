/** JSON values as Python sees them after parsing: dictionaries keep their key order. */
module JsonValues {
  import opened Selections
  import opened Wrappers

  datatype Json =
    | Null
    | Bool(b: bool)
    | Num(n: int)
    | Str(s: string)
    | List(items: seq<Json>)
    | Obj(fields: Fields)

  datatype Field = Field(key: string, value: Json)

  type Fields = seq<Field>

  /** dict.get */
  function Get(fields: Fields, key: string): Option<Json> {
    if fields == [] then None
    else if fields[0].key == key then Some(fields[0].value)
    else Get(fields[1..], key)
  }

  lemma {:induction false} GetFinds(fields: Fields, key: string)
    ensures Get(fields, key).Some? ==> Field(key, Get(fields, key).value) in fields
    ensures Get(fields, key).None? ==> forall f :: f in fields ==> f.key != key
  {
    if fields != [] && fields[0].key != key {
      GetFinds(fields[1..], key);
      assert fields == [fields[0]] + fields[1..];
    }
  }

  function Keys(fields: Fields): seq<string> {
    seq(|fields|, i requires 0 <= i < |fields| => fields[i].key)
  }

  /** No key occurs twice, as in every dictionary. */
  ghost predicate DistinctKeys(fields: Fields) {
    forall i, j :: 0 <= i < j < |fields| ==> fields[i].key != fields[j].key
  }

  lemma GetAt(fields: Fields, i: nat)
    requires DistinctKeys(fields) && i < |fields|
    ensures Get(fields, fields[i].key) == Some(fields[i].value)
  {
    GetFinds(fields, fields[i].key);
  }

  /** d[key] = value: an existing key keeps its place, a new one goes last. */
  function Set(fields: Fields, key: string, value: Json): Fields {
    if fields == [] then [Field(key, value)]
    else if fields[0].key == key then [Field(key, value)] + fields[1..]
    else [fields[0]] + Set(fields[1..], key, value)
  }

  /** d.pop(key, None) */
  function Remove(fields: Fields, key: string): Fields {
    if fields == [] then []
    else if fields[0].key == key then fields[1..]
    else [fields[0]] + Remove(fields[1..], key)
  }

  lemma {:induction false} GetSet(fields: Fields, key: string, value: Json, k: string)
    ensures Get(Set(fields, key, value), k) == if k == key then Some(value) else Get(fields, k)
  {
    if fields != [] {
      var after := Set(fields, key, value);
      if fields[0].key == key {
        assert after[1..] == fields[1..];
      } else {
        GetSet(fields[1..], key, value, k);
        assert after[1..] == Set(fields[1..], key, value);
      }
    }
  }

  lemma {:induction false} SetSame(fields: Fields, key: string)
    requires Get(fields, key).Some?
    ensures Set(fields, key, Get(fields, key).value) == fields
  {
    if fields[0].key != key {
      SetSame(fields[1..], key);
    }
  }

  lemma {:induction false} SetMembers(fields: Fields, key: string, value: Json, f: Field)
    requires f in Set(fields, key, value)
    ensures f in fields || f == Field(key, value)
  {
    if fields != [] && fields[0].key != key && f != fields[0] {
      SetMembers(fields[1..], key, value, f);
    }
  }

  lemma {:induction false} GetRemove(fields: Fields, key: string, k: string)
    requires DistinctKeys(fields)
    ensures Get(Remove(fields, key), k) == if k == key then None else Get(fields, k)
  {
    if fields != [] {
      if fields[0].key == key {
        GetFinds(fields[1..], key);
        assert forall i :: 0 <= i < |fields[1..]| ==> fields[1..][i].key == fields[i + 1].key != key;
      } else {
        GetRemove(fields[1..], key, k);
        assert Remove(fields, key)[1..] == Remove(fields[1..], key);
      }
    }
  }

  lemma {:induction false} RemoveMembers(fields: Fields, key: string, f: Field)
    requires f in Remove(fields, key)
    ensures f in fields
  {
    if fields != [] && fields[0].key != key && f != fields[0] {
      RemoveMembers(fields[1..], key, f);
    }
  }

  lemma {:induction false} SetDistinct(fields: Fields, key: string, value: Json)
    requires DistinctKeys(fields)
    ensures DistinctKeys(Set(fields, key, value))
  {
    if fields != [] && fields[0].key != key {
      SetDistinct(fields[1..], key, value);
      var rest := Set(fields[1..], key, value);
      forall i | 0 <= i < |rest|
        ensures rest[i].key != fields[0].key
      {
        assert rest[i] in rest;
        SetMembers(fields[1..], key, value, rest[i]);
      }
    }
  }

  lemma {:induction false} RemoveDistinct(fields: Fields, key: string)
    requires DistinctKeys(fields)
    ensures DistinctKeys(Remove(fields, key))
  {
    if fields != [] && fields[0].key != key {
      RemoveDistinct(fields[1..], key);
      var rest := Remove(fields[1..], key);
      forall i | 0 <= i < |rest|
        ensures rest[i].key != fields[0].key
      {
        assert rest[i] in rest;
        RemoveMembers(fields[1..], key, rest[i]);
      }
    }
  }

  lemma GetPicked(whole: Fields, part: Fields, at: seq<nat>, key: string)
    requires DistinctKeys(whole) && Ascends(at, |whole|) && |part| == |at|
    requires forall k :: 0 <= k < |at| ==> part[k].key == whole[at[k]].key
    ensures DistinctKeys(part)
    ensures Get(part, key).Some? <==> exists k :: 0 <= k < |at| && whole[at[k]].key == key
    ensures forall k :: 0 <= k < |at| && whole[at[k]].key == key ==> Get(part, key) == Some(part[k].value) && Get(whole, key) == Some(whole[at[k]].value)
  {
    GetFinds(part, key);
    assert DistinctKeys(part);
    forall k: nat | k < |at| && whole[at[k]].key == key
      ensures Get(part, key) == Some(part[k].value) && Get(whole, key) == Some(whole[at[k]].value)
    {
      GetAt(part, k);
      GetAt(whole, at[k]);
    }
  }

  function Children(value: Json): seq<Json> {
    match value
    case Obj(fields) => seq(|fields|, i requires 0 <= i < |fields| => fields[i].value)
    case List(items) => items
    case _ => []
  }

  /** What lies in the value at a path of positions. */
  function At(value: Json, path: seq<nat>): Option<Json>
    decreases path
  {
    if path == [] then Some(value)
    else if path[0] < |Children(value)| then At(Children(value)[path[0]], path[1..])
    else None
  }

  /** Every dictionary inside the value has distinct keys. */
  ghost predicate WellFormed(value: Json) {
    match value
    case List(items) => forall i :: 0 <= i < |items| ==> WellFormed(items[i])
    case Obj(fields) => DistinctKeys(fields) && forall i :: 0 <= i < |fields| ==> WellFormed(fields[i].value)
    case _ => true
  }
}
