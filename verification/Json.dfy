/** JSON values as JavaScript sees them: an object is an ordered list of fields. */
module Json {
  import opened Text
  import opened Wrappers

  datatype Json =
    | Null
    | Bool(b: bool)
    | Num(n: int)
    | Str(s: string)
    | Arr(items: seq<Json>)
    | Obj(fields: seq<Field>)

  datatype Field = Field(key: string, value: Json)

  predicate HasKey(fields: seq<Field>, key: string) {
    exists i :: 0 <= i < |fields| && fields[i].key == key
  }

  /** No key occurs twice, as in every JavaScript object. */
  ghost predicate Distinct(fields: seq<Field>) {
    forall i, j | 0 <= i < j < |fields| :: fields[i].key != fields[j].key
  }

  /** `fields[key]`. */
  function Lookup(fields: seq<Field>, key: string): (v: Option<Json>)
    ensures v.Some? <==> HasKey(fields, key)
  {
    if fields == [] then None
    else
      var last := fields[|fields| - 1];
      if last.key == key then Some(last.value) else Lookup(fields[..|fields| - 1], key)
  }

  /** `fields[key] = value`: an existing key keeps its place, a new one is appended. */
  function Put(fields: seq<Field>, key: string, value: Json): (r: seq<Field>) {
    if !HasKey(fields, key) then fields + [Field(key, value)]
    else
      var n := |fields| - 1;
      if fields[n].key == key then fields[..n] + [Field(key, value)]
      else Put(fields[..n], key, value) + [fields[n]]
  }

  /** `Object.assign(fields, more)`. */
  function Assign(fields: seq<Field>, more: seq<Field>): seq<Field> {
    if more == [] then fields
    else
      var last := more[|more| - 1];
      Put(Assign(fields, more[..|more| - 1]), last.key, last.value)
  }

  /** Reading back after a write finds the written value there and the old values elsewhere. */
  lemma {:induction false} LookupPut(fields: seq<Field>, key: string, value: Json, k: string)
    ensures Lookup(Put(fields, key, value), k) == if k == key then Some(value) else Lookup(fields, k)
  {
    var r := Put(fields, key, value);
    if !HasKey(fields, key) {
      assert r[..|r| - 1] == fields;
    } else {
      var n := |fields| - 1;
      assert r[..|r| - 1] == if fields[n].key == key then fields[..n] else Put(fields[..n], key, value);
      if fields[n].key != key {
        LookupPut(fields[..n], key, value, k);
      }
    }
  }

  /** `Object.assign` overrides: the assigned object wins wherever it has the key. */
  lemma {:induction false} LookupAssign(fields: seq<Field>, more: seq<Field>, k: string)
    ensures Lookup(Assign(fields, more), k) == if HasKey(more, k) then Lookup(more, k) else Lookup(fields, k)
  {
    if more != [] {
      var n := |more| - 1;
      LookupPut(Assign(fields, more[..n]), more[n].key, more[n].value, k);
      LookupAssign(fields, more[..n], k);
    }
  }

  /** `fields[key]` is the value of the last field with that key; in an object, of the only one. */
  lemma {:induction false} LookupFinds(fields: seq<Field>, key: string, i: nat)
    requires i < |fields| && fields[i].key == key && forall j | i < j < |fields| :: fields[j].key != key
    ensures Lookup(fields, key) == Some(fields[i].value)
  {
    if i < |fields| - 1 {
      LookupFinds(fields[..|fields| - 1], key, i);
    }
  }

  /** Writing keeps the order of the keys; a new one comes last. */
  lemma {:induction false} PutKeepsOrder(fields: seq<Field>, key: string, value: Json)
    ensures var r := Put(fields, key, value);
            && |r| == |fields| + (if HasKey(fields, key) then 0 else 1)
            && (forall i | 0 <= i < |fields| :: r[i].key == fields[i].key && (r[i].key != key ==> r[i] == fields[i]))
            && (|r| > |fields| ==> r[|fields|] == Field(key, value))
  {
    if HasKey(fields, key) && fields[|fields| - 1].key != key {
      PutKeepsOrder(fields[..|fields| - 1], key, value);
    }
  }

  lemma {:induction false} PutKeys(fields: seq<Field>, key: string, value: Json)
    ensures forall k :: HasKey(Put(fields, key, value), k) <==> k == key || HasKey(fields, k)
  {
    forall k ensures HasKey(Put(fields, key, value), k) <==> k == key || HasKey(fields, k) {
      LookupPut(fields, key, value, k);
    }
  }

  lemma {:induction false} PutDistinct(fields: seq<Field>, key: string, value: Json)
    requires Distinct(fields)
    ensures Distinct(Put(fields, key, value))
  {
    if HasKey(fields, key) {
      var n := |fields| - 1;
      if fields[n].key != key {
        PutDistinct(fields[..n], key, value);
        PutKeys(fields[..n], key, value);
        assert !HasKey(fields[..n], fields[n].key);
      }
    }
  }

  lemma {:induction false} AssignDistinct(fields: seq<Field>, more: seq<Field>)
    requires Distinct(fields)
    ensures Distinct(Assign(fields, more))
  {
    if more != [] {
      var n := |more| - 1;
      AssignDistinct(fields, more[..n]);
      PutDistinct(Assign(fields, more[..n]), more[n].key, more[n].value);
    }
  }

  /** The array index whose numeral is `name`, if there is one. */
  function IndexNamed(n: nat, name: string): (i: Option<nat>)
    ensures i.Some? ==> i.value < n && Decimal(i.value) == name
    ensures i.None? ==> forall k: nat | k < n :: Decimal(k) != name
  {
    if n == 0 then None
    else if Decimal(n - 1) == name then Some(n - 1)
    else IndexNamed(n - 1, name)
  }
}
