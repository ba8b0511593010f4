/** The object API of parson.c on member lists, and that it refines a finite map. */
module JsonMembers {
  import opened Collections
  import opened Bytes
  import opened JsonValues

  type Str = seq<cbyte>

  /** json_object_getn_value's search: the first member of that name, or |ms|. */
  function IndexOf(ms: seq<Member>, name: Str): (i: nat)
    ensures i <= |ms|
    ensures i < |ms| ==> ms[i].name == name
    ensures forall k :: 0 <= k < i ==> ms[k].name != name
  {
    if ms == [] || ms[0].name == name then 0 else 1 + IndexOf(ms[1..], name)
  }

  function Get(ms: seq<Member>, name: Str): Option<Json> {
    var i := IndexOf(ms, name);
    if i < |ms| then Some(ms[i].value) else None
  }

  /** json_object_addn: refuses a name already present. */
  function Add(ms: seq<Member>, name: Str, v: Json): Option<seq<Member>> {
    if IndexOf(ms, name) < |ms| then None else Some(ms + [Member(name, v)])
  }

  /** json_object_set_value: overwrite in place, or append. */
  function Set(ms: seq<Member>, name: Str, v: Json): seq<Member> {
    var i := IndexOf(ms, name);
    if i < |ms| then ms[i := Member(name, v)] else ms + [Member(name, v)]
  }

  /** json_object_remove_internal: the last member takes the removed one's place. */
  function Remove(ms: seq<Member>, name: Str): Option<seq<Member>> {
    var i, last := IndexOf(ms, name), |ms| - 1;
    if i == |ms| then None else Some(ms[i := ms[last]][..last])
  }

  // ---------------------------------------------------------------- as a finite map

  ghost function Names(ms: seq<Member>): set<Str> {
    set i | 0 <= i < |ms| :: ms[i].name
  }

  ghost function AsMap(ms: seq<Member>): map<Str, Json> {
    map name | name in Names(ms) :: ms[IndexOf(ms, name)].value
  }

  /** With distinct names, a member is found wherever it stands. */
  lemma IndexOfDistinct(ms: seq<Member>, i: nat)
    requires DistinctNames(ms) && i < |ms|
    ensures IndexOf(ms, ms[i].name) == i
  {
  }

  lemma AsMapAt(ms: seq<Member>, name: Str)
    ensures name in AsMap(ms) <==> IndexOf(ms, name) < |ms|
    ensures name in AsMap(ms) ==> Get(ms, name) == Some(AsMap(ms)[name])
  {
    if IndexOf(ms, name) < |ms| {
      assert ms[IndexOf(ms, name)].name == name;
    }
  }

  /** Two lists whose searches agree with a map update denote that update. */
  lemma SameMap(ms: seq<Member>, m: map<Str, Json>)
    requires forall name :: Get(ms, name) == if name in m then Some(m[name]) else None
    ensures AsMap(ms) == m
  {
    forall name ensures name in AsMap(ms) <==> name in m {
      AsMapAt(ms, name);
    }
    forall name | name in m ensures AsMap(ms)[name] == m[name] {
      AsMapAt(ms, name);
    }
  }

  lemma IndexOfUpdated(ms: seq<Member>, i: nat, m: Member, name: Str)
    requires i < |ms| && ms[i].name == m.name
    ensures IndexOf(ms[i := m], name) == IndexOf(ms, name)
  {
    assert forall k :: 0 <= k < |ms| ==> ms[i := m][k].name == ms[k].name;
  }

  lemma IndexOfAppended(ms: seq<Member>, m: Member, name: Str)
    ensures var k := IndexOf(ms, name);
            IndexOf(ms + [m], name) == if k < |ms| || name == m.name then k else |ms| + 1
  {
    var all := ms + [m];
    assert forall k :: 0 <= k < |ms| ==> all[k] == ms[k];
    assert all[|ms|] == m;
  }

  lemma SetRefines(ms: seq<Member>, name: Str, v: Json)
    requires DistinctNames(ms)
    ensures DistinctNames(Set(ms, name, v)) && AsMap(Set(ms, name, v)) == AsMap(ms)[name := v]
  {
    hide IndexOf, AsMap;
    var i := IndexOf(ms, name);
    forall n ensures var m := AsMap(ms)[name := v]; Get(Set(ms, name, v), n) == if n in m then Some(m[n]) else None {
      AsMapAt(ms, n);
      if i < |ms| { IndexOfUpdated(ms, i, Member(name, v), n); } else { IndexOfAppended(ms, Member(name, v), n); }
    }
    SameMap(Set(ms, name, v), AsMap(ms)[name := v]);
  }

  lemma AddRefines(ms: seq<Member>, name: Str, v: Json)
    requires DistinctNames(ms)
    ensures Add(ms, name, v).Some? <==> name !in AsMap(ms)
    ensures Add(ms, name, v).Some? ==>
              DistinctNames(Add(ms, name, v).value) && AsMap(Add(ms, name, v).value) == AsMap(ms)[name := v]
  {
    AsMapAt(ms, name);
    if IndexOf(ms, name) == |ms| {
      assert Add(ms, name, v).value == Set(ms, name, v);
      SetRefines(ms, name, v);
    }
  }

  lemma RemoveRefines(ms: seq<Member>, name: Str)
    requires DistinctNames(ms)
    ensures Remove(ms, name).Some? <==> name in AsMap(ms)
    ensures Remove(ms, name).Some? ==>
              DistinctNames(Remove(ms, name).value) && AsMap(Remove(ms, name).value) == AsMap(ms) - {name}
  {
    hide IndexOf, AsMap;
    AsMapAt(ms, name);
    var i := IndexOf(ms, name);
    if i < |ms| {
      var rest := Remove(ms, name).value;
      assert forall k :: 0 <= k < |rest| ==> rest[k] == ms[if k == i then |ms| - 1 else k];
      forall n ensures var m := AsMap(ms) - {name}; Get(rest, n) == if n in m then Some(m[n]) else None {
        AsMapAt(ms, n);
        RemovedSearch(ms, i, rest, n);
      }
      SameMap(rest, AsMap(ms) - {name});
    }
  }

  lemma RemovedSearch(ms: seq<Member>, i: nat, rest: seq<Member>, n: Str)
    requires DistinctNames(ms) && i < |ms| && |rest| == |ms| - 1
    requires forall k :: 0 <= k < |rest| ==> rest[k] == ms[if k == i then |ms| - 1 else k]
    ensures Get(rest, n) == if n == ms[i].name then None else Get(ms, n)
  {
    var a, b := IndexOf(ms, n), IndexOf(rest, n);
    if b < |rest| {
      assert ms[if b == i then |ms| - 1 else b].name == n;
    } else {
      assert forall k :: 0 <= k < |ms| && k != i ==> ms[k] == rest[if k == |ms| - 1 then i else k];
    }
  }

  // ---------------------------------------------------------------- the order of members

  /** Setting keeps every member in its place, and puts a new one last. */
  lemma SetKeepsOrder(ms: seq<Member>, name: Str, v: Json)
    requires DistinctNames(ms)
    ensures var r := Set(ms, name, v);
            && |ms| <= |r| <= |ms| + 1
            && (forall i :: 0 <= i < |ms| ==> r[i] == if ms[i].name == name then Member(name, v) else ms[i])
            && (|r| == |ms| <==> name in Names(ms)) && (|r| > |ms| ==> r == ms + [Member(name, v)])
  {
  }

  /** Removing moves the last member into the gap and keeps every other in its place. */
  lemma RemoveMovesLast(ms: seq<Member>, i: nat)
    requires DistinctNames(ms) && i < |ms|
    ensures var r := Remove(ms, ms[i].name);
            && r.Some? && |r.value| == |ms| - 1
            && forall k :: 0 <= k < |ms| - 1 ==> r.value[k] == if k == i then ms[|ms| - 1] else ms[k]
  {
    IndexOfDistinct(ms, i);
  }
}
