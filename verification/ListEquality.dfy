/** LIST_EQUAL_FUNCTION of devsdk-base.c: equality of named lists regardless of order. */
module ListEquality {
  import opened Collections

  datatype Entry<+V> = Entry(name: string, value: V)

  predicate UniqueNames<V>(l: seq<Entry<V>>) {
    forall i, j :: 0 <= i < j < |l| ==> l[i].name != l[j].name
  }

  /** The position of the first entry of that name, or |l|. */
  function Find<V>(l: seq<Entry<V>>, name: string): (k: nat)
    ensures k <= |l|
    ensures k < |l| ==> l[k].name == name
    ensures forall i :: 0 <= i < k ==> l[i].name != name
  {
    if l == [] || l[0].name == name then 0 else 1 + Find(l[1..], name)
  }

  /** Same length, and each entry of the first list meets an equal one first under its name. */
  predicate EqualLists<V(==)>(l1: seq<Entry<V>>, l2: seq<Entry<V>>) {
    && |l1| == |l2|
    && forall i :: 0 <= i < |l1| ==> Find(l2, l1[i].name) < |l2| && l2[Find(l2, l1[i].name)].value == l1[i].value
  }

  method ListEqual<V(==)>(l1: seq<Entry<V>>, l2: seq<Entry<V>>) returns (equal: bool)
    ensures equal == EqualLists(l1, l2)
  {
    if |l1| != |l2| {
      return false;
    }
    var i := 0;
    while i < |l1|
      invariant 0 <= i <= |l1|
      invariant forall k :: 0 <= k < i ==> Find(l2, l1[k].name) < |l2| && l2[Find(l2, l1[k].name)].value == l1[k].value
    {
      var found := 0;
      while found < |l2| && l2[found].name != l1[i].name
        invariant 0 <= found <= Find(l2, l1[i].name)
      {
        found := found + 1;
      }
      if found == |l2| || l2[found].value != l1[i].value {
        return false;
      }
      i := i + 1;
    }
    return true;
  }

  /** The finite map that a list with unique names denotes. */
  ghost function AsMap<V>(l: seq<Entry<V>>): map<string, V> {
    map e | e in l :: e.name := l[Find(l, e.name)].value
  }

  /** Every name in the list is bound, to the value of its first entry. */
  lemma AsMapFirst<V>(l: seq<Entry<V>>, i: nat)
    requires i < |l|
    ensures Find(l, l[i].name) <= i
    ensures l[i].name in AsMap(l) && AsMap(l)[l[i].name] == l[Find(l, l[i].name)].value
  {
    assert l[i] in l;
  }

  lemma AsMapAt<V>(l: seq<Entry<V>>, i: nat)
    requires UniqueNames(l) && i < |l|
    ensures l[i].name in AsMap(l) && AsMap(l)[l[i].name] == l[i].value
  {
    AsMapFirst(l, i);
  }

  lemma {:induction false} AsMapSize<V>(l: seq<Entry<V>>)
    requires UniqueNames(l)
    ensures |AsMap(l)| == |l|
  {
    if l != [] {
      var last := l[|l| - 1];
      var rest := l[..|l| - 1];
      AsMapSize(rest);
      MapOfPrefix(l);
      assert last.name !in AsMap(rest);
    }
  }

  lemma AsMapKey<V>(l: seq<Entry<V>>, name: string)
    ensures name in AsMap(l) <==> exists i :: 0 <= i < |l| && l[i].name == name
  {
    if name in AsMap(l) {
      var e :| e in l && e.name == name;
    }
    if i :| 0 <= i < |l| && l[i].name == name {
      assert l[i] in l;
    }
  }

  lemma MapOfPrefix<V>(l: seq<Entry<V>>)
    requires UniqueNames(l) && l != []
    ensures AsMap(l) == AsMap(l[..|l| - 1])[l[|l| - 1].name := l[|l| - 1].value]
  {
    hide AsMap;
    var last, rest := l[|l| - 1], l[..|l| - 1];
    var m, n := AsMap(l), AsMap(rest)[last.name := last.value];
    forall name ensures name in m <==> name in n {
      AsMapKey(l, name);
      AsMapKey(rest, name);
    }
    forall name | name in m ensures m[name] == n[name] {
      AsMapKey(l, name);
      var i :| 0 <= i < |l| && l[i].name == name;
      AsMapAt(l, i);
      if i < |rest| { AsMapAt(rest, i); }
    }
  }

  lemma SubmapOfSameSize<K, V>(m1: map<K, V>, m2: map<K, V>)
    requires |m1| == |m2| && Submap(m1, m2)
    ensures m1 == m2
  {
    assert |m1.Keys| == |m1| && |m2.Keys| == |m2|;
    SameSize(m1.Keys, m2.Keys);
  }

  // ---------------------------------------------------------------- what the comparison decides

  ghost predicate Submap<K, V>(m1: map<K, V>, m2: map<K, V>) {
    forall k :: k in m1 ==> k in m2 && m2[k] == m1[k]
  }

  /** Entries of one name carry one value. */
  ghost predicate Consistent<V>(l: seq<Entry<V>>) {
    forall i, j :: 0 <= i < |l| && 0 <= j < |l| && l[i].name == l[j].name ==> l[i].value == l[j].value
  }

  /** For any two lists: equal exactly when they are as long as each other, the first gives no name
      two values, and the second binds all that the first does. */
  lemma EqualListsExactly<V>(l1: seq<Entry<V>>, l2: seq<Entry<V>>)
    ensures EqualLists(l1, l2) <==> |l1| == |l2| && Consistent(l1) && Submap(AsMap(l1), AsMap(l2))
  {
    hide AsMap;
    if EqualLists(l1, l2) {
      forall name | name in AsMap(l1) ensures name in AsMap(l2) && AsMap(l2)[name] == AsMap(l1)[name] {
        AsMapKey(l1, name);
        var i :| 0 <= i < |l1| && l1[i].name == name;
        AsMapFirst(l1, i);
        AsMapFirst(l2, Find(l2, name));
      }
    }
    if |l1| == |l2| && Consistent(l1) && Submap(AsMap(l1), AsMap(l2)) {
      forall i | 0 <= i < |l1| ensures Find(l2, l1[i].name) < |l2| && l2[Find(l2, l1[i].name)].value == l1[i].value {
        AsMapFirst(l1, i);
        AsMapKey(l2, l1[i].name);
        AsMapFirst(l2, Find(l2, l1[i].name));
      }
    }
  }

  /** If the first list has unique names, the lists are equal exactly when they are as long as each
      other and denote the same map, whatever the second list repeats. */
  lemma UniqueFirstDecides<V>(l1: seq<Entry<V>>, l2: seq<Entry<V>>)
    requires UniqueNames(l1)
    ensures EqualLists(l1, l2) <==> |l1| == |l2| && AsMap(l1) == AsMap(l2)
  {
    EqualListsExactly(l1, l2);
    AsMapSize(l1);
    AsMapAtMost(l2);
    hide AsMap, EqualLists;
    if EqualLists(l1, l2) {
      SubmapSize(AsMap(l1), AsMap(l2));
      SubmapOfSameSize(AsMap(l1), AsMap(l2));
    }
  }

  lemma SubmapSize<K, V>(m1: map<K, V>, m2: map<K, V>)
    requires Submap(m1, m2)
    ensures |m1| <= |m2|
  {
    assert |m1.Keys| == |m1| && |m2.Keys| == |m2|;
    SubsetSize(m1.Keys, m2.Keys);
  }

  lemma {:induction false} AsMapAtMost<V>(l: seq<Entry<V>>)
    ensures |AsMap(l)| <= |l|
  {
    hide AsMap;
    if l == [] {
      NothingDenoted<V>();
    } else {
      var last, rest := l[|l| - 1], l[..|l| - 1];
      AsMapAtMost(rest);
      var keys := AsMap(rest).Keys + {last.name};
      forall name | name in AsMap(l) ensures name in keys {
        AsMapKey(l, name);
        AsMapKey(rest, name);
      }
      SubsetSize(AsMap(l).Keys, keys);
      assert |AsMap(l).Keys| == |AsMap(l)| && |AsMap(rest).Keys| == |AsMap(rest)|;
    }
  }

  lemma NothingDenoted<V>()
    ensures AsMap<V>([]) == map[]
  {
  }

  /** With unique names on both sides, the lists are equal exactly when they denote the same map. */
  lemma EqualIffSameMap<V>(l1: seq<Entry<V>>, l2: seq<Entry<V>>)
    requires UniqueNames(l1) && UniqueNames(l2)
    ensures EqualLists(l1, l2) <==> AsMap(l1) == AsMap(l2)
  {
    UniqueFirstDecides(l1, l2);
    AsMapSize(l1);
    AsMapSize(l2);
  }

  // ---------------------------------------------------------------- repeated names

  /** A name that no entry has. */
  function FreshName<V>(l: seq<Entry<V>>): (name: string)
    ensures forall i :: 0 <= i < |l| ==> |l[i].name| < |name|
  {
    if l == [] then ""
    else
      var rest := FreshName(l[1..]);
      if |rest| > |l[0].name| then rest else l[0].name + "+"
  }

  /** The list with its entry `j`, a repetition, renamed to something else. */
  function Renamed<V>(l: seq<Entry<V>>, j: nat): (r: seq<Entry<V>>)
    requires j < |l|
    ensures |r| == |l|
  {
    l[j := Entry(FreshName(l), l[j].value)]
  }

  /** Every list that repeats an entry is taken to equal a list with a name it does not have: the
      repetition hides the entry that nothing was compared with. */
  lemma RepeatedNamesDeceive<V>(l: seq<Entry<V>>, i: nat, j: nat)
    requires Consistent(l) && i < j < |l| && l[i].name == l[j].name
    ensures EqualLists(l, Renamed(l, j)) && AsMap(l) != AsMap(Renamed(l, j)) && !EqualLists(Renamed(l, j), l)
  {
    hide AsMap, FreshName;
    var r, name := Renamed(l, j), FreshName(l);
    forall k | 0 <= k < |l| ensures Find(r, l[k].name) < |r| && r[Find(r, l[k].name)].value == l[k].value {
      var f := Find(r, l[k].name);
      assert r[if k == j then i else k].name == l[k].name;
      assert f != j && l[f].name == l[k].name;
    }
    assert r[j].name == name;
    AsMapKey(l, name);
    AsMapKey(r, name);
    assert Find(l, name) == |l|;
  }

  /** Exactly the lists whose "equal" can be believed: those without a repeated name, and those that
      give a name two values, which equal nothing, themselves included. */
  lemma EqualIsSoundIff<V>(l1: seq<Entry<V>>)
    ensures (forall l2 :: EqualLists(l1, l2) ==> AsMap(l1) == AsMap(l2)) <==> UniqueNames(l1) || !Consistent(l1)
  {
    hide AsMap, EqualLists;
    if UniqueNames(l1) {
      forall l2 | EqualLists(l1, l2) ensures AsMap(l1) == AsMap(l2) {
        UniqueFirstDecides(l1, l2);
      }
    } else if !Consistent(l1) {
      forall l2 ensures !EqualLists(l1, l2) {
        EqualListsExactly(l1, l2);
      }
    } else {
      var i, j :| 0 <= i < j < |l1| && l1[i].name == l1[j].name;
      RepeatedNamesDeceive(l1, i, j);
      assert EqualLists(l1, Renamed(l1, j));
    }
  }

  /** A list is equal to itself exactly when it gives no name two values. */
  lemma ReflexiveIff<V>(l: seq<Entry<V>>)
    ensures EqualLists(l, l) <==> Consistent(l)
  {
    EqualListsExactly(l, l);
  }
}
