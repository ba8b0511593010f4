/** json_value_equals against the abstract value of a tree, where objects are finite maps. */
module JsonEquality {
  import opened Collections
  import opened JsonValues
  import opened JsonMembers

  datatype Abstract =
    | ANull | ABool(b: bool) | AUint(n: u64) | ANum(lexeme: Str) | AStr(s: Str)
    | AArr(items: seq<Abstract>) | AObj(members: map<Str, Abstract>)

  ghost function Meaning(v: Json): Abstract {
    match v
    case Null => ANull
    case Bool(b) => ABool(b)
    case Uint(n) => AUint(n)
    case Num(l) => ANum(l)
    case Str(s) => AStr(s)
    case Arr(items) => AArr(seq(|items|, i requires 0 <= i < |items| => Meaning(items[i])))
    case Obj(ms) => AObj(map name | name in Names(ms) :: Meaning(ms[IndexOf(ms, name)].value))
  }

  /** json_value_equals, on values without doubles: members are compared by name. */
  predicate Equals(a: Json, b: Json) {
    match a
    case Null => b.Null?
    case Bool(x) => b.Bool? && b.b == x
    case Uint(n) => b.Uint? && b.n == n
    case Num(l) => b.Num? && b.lexeme == l
    case Str(s) => b.Str? && b.s == s
    case Arr(items) =>
      b.Arr? && |items| == |b.items| && forall i :: 0 <= i < |items| ==> Equals(items[i], b.items[i])
    case Obj(ms) =>
      b.Obj? && |ms| == |b.members| &&
      forall i :: 0 <= i < |ms| ==>
        var j, k := IndexOf(ms, ms[i].name), IndexOf(b.members, ms[i].name);
        k < |b.members| && j < |ms| && Equals(ms[j].value, b.members[k].value)
  }

  lemma {:induction false} NamesCount(ms: seq<Member>)
    requires DistinctNames(ms)
    ensures |Names(ms)| == |ms|
  {
    if ms != [] {
      var rest, last := ms[..|ms| - 1], ms[|ms| - 1];
      NamesCount(rest);
      assert Names(ms) == Names(rest) + {last.name};
    }
  }

  /** Equality as the code decides it is equality of meaning: the order of members is ignored. */
  lemma {:induction false} EqualsIffSameMeaning(a: Json, b: Json)
    requires Distinct(a) && Distinct(b) && NoDoubles(a) && NoDoubles(b)
    ensures Equals(a, b) <==> Meaning(a) == Meaning(b)
    decreases a
  {
    if a.Arr? && b.Arr? {
      if |a.items| == |b.items| {
        forall i | 0 <= i < |a.items|
          ensures Equals(a.items[i], b.items[i]) <==> Meaning(a).items[i] == Meaning(b).items[i]
        {
          EqualsIffSameMeaning(a.items[i], b.items[i]);
        }
      }
      assert |Meaning(a).items| == |a.items| && |Meaning(b).items| == |b.items|;
      if Equals(a, b) { assert Meaning(a).items == Meaning(b).items; }
    } else if a.Obj? && b.Obj? {
      forall i, k | 0 <= i < |a.members| && 0 <= k < |b.members|
        ensures Equals(a.members[i].value, b.members[k].value)
                <==> Meaning(a.members[i].value) == Meaning(b.members[k].value)
      {
        EqualsIffSameMeaning(a.members[i].value, b.members[k].value);
      }
      ObjectsEqual(a.members, b.members);
    }
  }

  /** Equality of two member lists, given that of the values. */
  ghost predicate SameMembers(as': seq<Member>, bs: seq<Member>) {
    |as'| == |bs| &&
    forall i :: 0 <= i < |as'| ==>
      var k := IndexOf(bs, as'[i].name);
      k < |bs| && Equals(as'[i].value, bs[k].value)
  }

  lemma EqualsOfObjects(as': seq<Member>, bs: seq<Member>)
    requires DistinctNames(as')
    ensures Equals(Obj(as'), Obj(bs)) <==> SameMembers(as', bs)
  {
    hide IndexOf, DistinctNames;
    forall i | 0 <= i < |as'| ensures IndexOf(as', as'[i].name) == i {
      IndexOfDistinct(as', i);
    }
  }

  lemma MeaningOfObject(ms: seq<Member>)
    ensures Meaning(Obj(ms)).AObj? && Meaning(Obj(ms)).members.Keys == Names(ms)
    ensures forall name :: name in Names(ms) ==>
              IndexOf(ms, name) < |ms| && Meaning(Obj(ms)).members[name] == Meaning(ms[IndexOf(ms, name)].value)
  {
  }

  lemma NameFound(ms: seq<Member>, name: Str)
    ensures name in Names(ms) <==> IndexOf(ms, name) < |ms|
  {
  }

  ghost predicate ValuesAgree(as': seq<Member>, bs: seq<Member>) {
    forall i, k :: 0 <= i < |as'| && 0 <= k < |bs| ==>
      (Equals(as'[i].value, bs[k].value) <==> Meaning(as'[i].value) == Meaning(bs[k].value))
  }

  lemma ObjectsEqual(as': seq<Member>, bs: seq<Member>)
    requires DistinctNames(as') && DistinctNames(bs) && ValuesAgree(as', bs)
    ensures Equals(Obj(as'), Obj(bs)) <==> Meaning(Obj(as')) == Meaning(Obj(bs))
  {
    hide Equals, Meaning, IndexOf, Names, DistinctNames, SameMembers, ValuesAgree;
    EqualsOfObjects(as', bs);
    if SameMembers(as', bs) { EqualObjectsMean(as', bs); }
    if Meaning(Obj(as')) == Meaning(Obj(bs)) { SameMeaningEquals(as', bs); }
  }

  lemma EqualObjectsMean(as': seq<Member>, bs: seq<Member>)
    requires DistinctNames(as') && DistinctNames(bs) && ValuesAgree(as', bs) && SameMembers(as', bs)
    ensures Meaning(Obj(as')) == Meaning(Obj(bs))
  {
    hide Equals, Meaning, IndexOf, Names, DistinctNames;
    NamesCount(as'); NamesCount(bs);
    MeaningOfObject(as'); MeaningOfObject(bs);
    var m, n := Meaning(Obj(as')).members, Meaning(Obj(bs)).members;
    forall name | name in Names(as') ensures name in Names(bs) && m[name] == n[name] {
      NameFound(as', name); NameFound(bs, name);
      var i, k := IndexOf(as', name), IndexOf(bs, name);
      assert as'[i].name == name && Equals(as'[i].value, bs[k].value);
    }
    SameSize(Names(as'), Names(bs));
    assert m == n;
  }

  lemma SameMeaningEquals(as': seq<Member>, bs: seq<Member>)
    requires DistinctNames(as') && DistinctNames(bs) && ValuesAgree(as', bs) && Meaning(Obj(as')) == Meaning(Obj(bs))
    ensures SameMembers(as', bs)
  {
    hide Equals, Meaning, IndexOf, Names, DistinctNames;
    NamesCount(as'); NamesCount(bs);
    MeaningOfObject(as'); MeaningOfObject(bs);
    forall i | 0 <= i < |as'|
      ensures var k := IndexOf(bs, as'[i].name); k < |bs| && Equals(as'[i].value, bs[k].value)
    {
      IndexOfDistinct(as', i);
      NameFound(as', as'[i].name); NameFound(bs, as'[i].name);
      assert Meaning(as'[i].value) == Meaning(bs[IndexOf(bs, as'[i].name)].value);
    }
  }
}
