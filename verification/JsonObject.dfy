/** A JSON object as parson.c stores it: parallel arrays of names and values, grown by doubling. */
module JsonObject {
  import opened Collections
  import opened JsonValues
  import opened JsonMembers

  const STARTING_CAPACITY: nat := 16

  class Object {
    var names: array<Str>
    var values: array<Json>
    var count: nat

    ghost predicate Valid()
      reads this, names, values
    {
      names.Length == values.Length && count <= names.Length
    }

    ghost function Members(): (ms: seq<Member>)
      reads this, names, values
      requires Valid()
    {
      seq(count, i requires 0 <= i < count <= names.Length == values.Length reads this, names, values =>
        Member(names[i], values[i]))
    }

    constructor ()
      ensures Valid() && Members() == [] && fresh(names) && fresh(values)
    {
      names := new Str[0];
      values := new Json[0];
      count := 0;
    }

    /** json_object_getn_value. */
    method Find(name: Str) returns (i: nat)
      requires Valid()
      ensures i == IndexOf(Members(), name)
    {
      i := 0;
      while i < count && names[i] != name
        invariant 0 <= i <= count
        invariant forall k :: 0 <= k < i ==> Members()[k].name != name
      {
        i := i + 1;
      }
      assert i < count ==> Members()[i].name == name;
    }

    method GetValue(name: Str) returns (v: Option<Json>)
      requires Valid()
      ensures v == Get(Members(), name)
    {
      var i := Find(name);
      v := if i < count then Some(values[i]) else None;
    }

    /** json_object_resize: fails only for a zero capacity. */
    method Resize(capacity: nat) returns (ok: bool)
      requires Valid() && count <= capacity
      modifies this
      ensures Valid() && ok == (capacity != 0) && Members() == old(Members()) && count == old(count)
      ensures ok ==> names.Length == capacity && fresh(names) && fresh(values)
      ensures !ok ==> names == old(names) && values == old(values)
    {
      if capacity == 0 {
        return false;
      }
      var newNames := new Str[capacity](_ => []);
      var newValues := new Json[capacity](_ => Null);
      forall i | 0 <= i < count {
        newNames[i] := names[i];
      }
      forall i | 0 <= i < count {
        newValues[i] := values[i];
      }
      names := newNames;
      values := newValues;
      ok := true;
    }

    /** Append past the last member. */
    method Append(name: Str, v: Json)
      requires Valid() && count < names.Length
      modifies this`count, names, values
      ensures Valid() && Members() == old(Members()) + [Member(name, v)]
    {
      names[count] := name;
      values[count] := v;
      count := count + 1;
    }

    /** json_object_addn. */
    method AddValue(name: Str, v: Json) returns (ok: bool)
      requires Valid()
      modifies this, names, values
      ensures Valid() && (names == old(names) || fresh(names)) && (values == old(values) || fresh(values))
      ensures ok == Add(old(Members()), name, v).Some?
      ensures Members() == if ok then Add(old(Members()), name, v).value else old(Members())
      ensures names.Length == if !ok || old(count) < old(names.Length) then old(names.Length)
                              else if old(names.Length) > 8 then 2 * old(names.Length) else 16
    {
      var i := Find(name);
      if i < count {
        return false;
      }
      if count >= names.Length {
        var capacity := if names.Length * 2 > STARTING_CAPACITY then names.Length * 2 else STARTING_CAPACITY;
        ok := Resize(capacity);
      }
      Append(name, v);
      ok := true;
    }

    /** json_object_set_value. */
    method SetValue(name: Str, v: Json)
      requires Valid()
      modifies this, names, values
      ensures Valid() && (names == old(names) || fresh(names)) && (values == old(values) || fresh(values))
      ensures Members() == Set(old(Members()), name, v)
    {
      var i := Find(name);
      if i < count {
        values[i] := v;
      } else {
        var ok := AddValue(name, v);
      }
    }

    /** json_object_remove_internal: the last pair replaces the removed one. */
    method RemoveValue(name: Str) returns (ok: bool)
      requires Valid()
      modifies this`count, names, values
      ensures Valid() && ok == Remove(old(Members()), name).Some?
      ensures Members() == if ok then Remove(old(Members()), name).value else old(Members())
    {
      var i := Find(name);
      if i == count {
        return false;
      }
      var last := count - 1;
      if i != last {
        names[i] := names[last];
        values[i] := values[last];
      }
      count := last;
      ok := true;
    }
  }
}
