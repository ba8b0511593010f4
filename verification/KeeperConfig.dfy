/** The flat-to-tree conversion of edgex_keeper_client_write_config. */
module KeeperConfig {
  import opened Collections
  import opened JsonValues
  import opened JsonMembers
  import opened JsonEquality
  import opened JsonPath

  /** A configuration item; its value is absent when cfg_item_to_json cannot represent it. */
  datatype Item = Item(key: Str, value: Option<Json>)

  function Dotted(key: Str): (d: Str)
    ensures |d| == |key|
  {
    seq(|key|, i requires 0 <= i < |key| => if key[i] == SLASH then DOT else key[i])
  }

  /** The loop that turns slashes into dots, first one first. */
  method ReplaceSlashes(key: Str) returns (d: Str)
    ensures d == Dotted(key)
  {
    d := key;
    ghost var done := 0;
    var slash := FindByte(d, SLASH);
    while slash < |d|
      invariant |d| == |key| && slash == FindByte(d, SLASH)
      invariant forall i :: 0 <= i < |d| ==> d[i] == key[i] || (key[i] == SLASH && d[i] == DOT)
      invariant 0 <= done <= |d| && forall i :: 0 <= i < done ==> d[i] != SLASH
      decreases |d| - done
    {
      assert done <= slash;
      d := d[slash := DOT];
      done := slash + 1;
      slash := FindByte(d, SLASH);
    }
  }

  /** A key's path: for a key without dots, the dotted name splits where the key does. */
  lemma {:induction false} DottedSplits(key: Str)
    requires DOT !in key
    ensures Split(Dotted(key), DOT) == Split(key, SLASH)
    decreases |key|
  {
    var i, d := FindByte(key, SLASH), Dotted(key);
    assert forall k :: 0 <= k < |key| ==> (d[k] == DOT <==> key[k] == SLASH);
    assert FindByte(d, DOT) == i;
    if i == |key| {
      assert d == key;
    } else {
      assert d[..i] == key[..i];
      assert d[i + 1..] == Dotted(key[i + 1..]);
      DottedSplits(key[i + 1..]);
    }
  }

  /** One turn of the loop: items that cannot be set are logged and skipped, dotted keys put aside. */
  function AddItem(ms: seq<Member>, e: Item): seq<Member> {
    if DOT in e.key || e.value.None? then ms
    else
      match DotSet(ms, Dotted(e.key), e.value.value)
      case None => ms
      case Some(ms') => ms'
  }

  function Built(es: seq<Item>): seq<Member> {
    if es == [] then [] else AddItem(Built(es[..|es| - 1]), es[|es| - 1])
  }

  datatype Fate = Aside | Refused | Stored

  /** What becomes of an item offered to a tree. */
  function FateOf(ms: seq<Member>, e: Item): Fate {
    if DOT in e.key then Aside
    else if e.value.None? || DotSet(ms, Dotted(e.key), e.value.value).None? then Refused
    else Stored
  }

  method OfferItem(ms: seq<Member>, e: Item) returns (ms': seq<Member>, fate: Fate)
    ensures ms' == AddItem(ms, e) && fate == FateOf(ms, e)
    ensures if fate == Stored then e.value.Some? && DotSet(ms, Dotted(e.key), e.value.value) == Some(ms') else ms' == ms
  {
    hide DotSet, Dotted;
    ms', fate := ms, Refused;
    if DOT in e.key {
      fate := Aside;
    } else {
      var name := ReplaceSlashes(e.key);
      if e.value.Some? {
        var r := DotSet(ms, name, e.value.value);
        if r.Some? {
          ms', fate := r.value, Stored;
        }
      }
    }
  }

  /** The items of one fate, in order. */
  function Fated(es: seq<Item>, fate: Fate): seq<Item> {
    if es == [] then []
    else
      var rest, e := es[..|es| - 1], es[|es| - 1];
      Fated(rest, fate) + if FateOf(Built(rest), e) == fate then [e] else []
  }

  method BuildTree(es: seq<Item>) returns (ms: seq<Member>, dotted: seq<Item>, failed: seq<Item>)
    ensures ms == Built(es) && dotted == Fated(es, Aside) && failed == Fated(es, Refused)
    ensures forall e :: e in dotted <==> e in es && DOT in e.key
    ensures Good(es) ==> dotted == [] && failed == [] && Shaped(ms, es)
  {
    hide DotSet, AddItem, Good, FateOf, Shaped;
    ms, dotted, failed := [], [], [];
    var i := 0;
    while i < |es|
      invariant 0 <= i <= |es| && ms == Built(es[..i])
      invariant dotted == Fated(es[..i], Aside) && failed == Fated(es[..i], Refused)
    {
      var e := es[i];
      assert es[..i + 1][..i] == es[..i];
      var fate;
      ms, fate := OfferItem(ms, e);
      if fate == Aside {
        dotted := dotted + [e];
      } else if fate == Refused {
        failed := failed + [e];
      }
      i := i + 1;
    }
    assert es[..i] == es;
    AsideAreDotted(es);
    if Good(es) {
      GoodAreStored(es);
      BuiltShape(es);
    }
  }

  lemma {:induction false} AsideAreDotted(es: seq<Item>)
    ensures forall e :: e in Fated(es, Aside) <==> e in es && DOT in e.key
  {
    hide FateOf, Built;
    if es != [] {
      var rest, e := es[..|es| - 1], es[|es| - 1];
      assert es == rest + [e];
      AsideAreDotted(rest);
      FateOfDotted(Built(rest), e);
    }
  }

  lemma {:induction false} GoodAreStored(es: seq<Item>)
    requires Good(es)
    ensures Fated(es, Aside) == [] && Fated(es, Refused) == []
  {
    hide FateOf, Built, Good;
    if es != [] {
      var rest, e := es[..|es| - 1], es[|es| - 1];
      assert es == rest + [e];
      GoodPrefix(es, |es| - 1);
      GoodAreStored(rest);
      BuiltShape(rest);
      AddsItem(Built(rest), rest, e);
    }
  }

  lemma FateOfDotted(ms: seq<Member>, e: Item)
    ensures FateOf(ms, e) == Aside <==> DOT in e.key
  {
  }

  function PathOf(e: Item): Path {
    Split(e.key, SLASH)
  }

  /** No dots, scalar values, and no key equal to another or a path prefix of it. */
  ghost predicate Good(es: seq<Item>) {
    && (forall i :: 0 <= i < |es| ==> DOT !in es[i].key && es[i].value.Some? && IsScalar(es[i].value.value))
    && (forall i, j :: 0 <= i < |es| && 0 <= j < |es| && i != j ==> !(PathOf(es[i]) <= PathOf(es[j])))
  }

  /** What the tree holds at a path: an item's value at its own path, objects above items, nothing else. */
  ghost predicate ShapedAt(ms: seq<Member>, es: seq<Item>, q: Path)
    requires q != []
  {
    var g := GetPath(ms, q);
    && (forall i :: 0 <= i < |es| && q == PathOf(es[i]) ==> g == es[i].value)
    && ((exists i :: 0 <= i < |es| && q < PathOf(es[i])) ==> g.Some? && g.value.Obj?)
    && ((forall i :: 0 <= i < |es| ==> !(q <= PathOf(es[i]))) ==> g == None)
  }

  ghost predicate Shaped(ms: seq<Member>, es: seq<Item>) {
    forall q: Path :: q != [] ==> ShapedAt(ms, es, q)
  }

  lemma GoodPrefix(es: seq<Item>, n: nat)
    requires Good(es) && n <= |es|
    ensures Good(es[..n])
  {
    hide IsScalar, PathOf;
  }

  lemma ShapedNothing()
    ensures Shaped([], [])
  {
    forall q: Path | q != [] ensures ShapedAt([], [], q) {
      GetPathEmpty(q);
    }
  }

  /** A further independent item finds no scalar in its way. */
  lemma AddSucceeds(ms: seq<Member>, es: seq<Item>, e: Item)
    requires Good(es + [e]) && Shaped(ms, es)
    ensures e.value.Some? && DotSet(ms, Dotted(e.key), e.value.value) == SetPath(ms, PathOf(e), e.value.value)
    ensures SetPath(ms, PathOf(e), e.value.value).Some?
  {
    var all := es + [e];
    assert all[|es|] == e && forall i :: 0 <= i < |es| ==> all[i] == es[i];
    var p, v := PathOf(e), e.value.value;
    DottedSplits(e.key);
    DotSetIsSetPath(ms, Dotted(e.key), v);
    forall k | 0 < k < |p| ensures GetPath(ms, p[..k]).None? || GetPath(ms, p[..k]).value.Obj? {
      assert ShapedAt(ms, es, p[..k]);
    }
    SetSucceedsIffClear(ms, p, v);
  }

  /** It is added, and the tree then holds it too. */
  lemma AddsItem(ms: seq<Member>, es: seq<Item>, e: Item)
    requires Good(es + [e]) && Shaped(ms, es)
    ensures FateOf(ms, e) == Stored && Shaped(AddItem(ms, e), es + [e])
  {
    hide DotSet, SetPath, GetPath;
    AddSucceeds(ms, es, e);
    var all := es + [e];
    assert all[|es|] == e && forall i :: 0 <= i < |es| ==> all[i] == es[i];
    var p, v := PathOf(e), e.value.value;
    forall q: Path | q != [] ensures ShapedAt(AddItem(ms, e), all, q) {
      assert ShapedAt(ms, es, q);
      SetEffect(ms, p, v, q);
    }
  }

  /** Every key is added, whatever the order, and a path lookup returns each original value. */
  lemma {:induction false} BuiltShape(es: seq<Item>)
    requires Good(es)
    ensures Shaped(Built(es), es)
    ensures forall i :: 0 <= i < |es| ==> DotGet(Built(es), Dotted(es[i].key)) == es[i].value
  {
    if es == [] {
      ShapedNothing();
    } else {
      var rest, e := es[..|es| - 1], es[|es| - 1];
      assert rest + [e] == es;
      BuiltShape(rest);
      AddsItem(Built(rest), rest, e);
    }
    forall i | 0 <= i < |es| ensures DotGet(Built(es), Dotted(es[i].key)) == es[i].value {
      DottedSplits(es[i].key);
      DotGetIsGetPath(Built(es), Dotted(es[i].key));
      assert ShapedAt(Built(es), es, PathOf(es[i]));
    }
  }

  // ---------------------------------------------------------------- keys that are prefixes of others

  /** What a flat configuration is, dots apart: scalar values under distinct keys. */
  ghost predicate FlatItems(es: seq<Item>) {
    && (forall i :: 0 <= i < |es| ==> DOT !in es[i].key && es[i].value.Some? && IsScalar(es[i].value.value))
    && (forall i, j :: 0 <= i < j < |es| ==> es[i].key != es[j].key)
  }

  /** Every lookup returns the original value if and only if no key is a path prefix of another. */
  lemma BuiltHoldsIff(es: seq<Item>)
    requires FlatItems(es)
    ensures (forall i :: 0 <= i < |es| ==> DotGet(Built(es), Dotted(es[i].key)) == es[i].value) <==> Good(es)
  {
    hide DotGet, Built, Dotted, IsScalar, PathOf;
    if Good(es) {
      BuiltShape(es);
    } else {
      var i, j :| 0 <= i < |es| && 0 <= j < |es| && i != j && PathOf(es[i]) <= PathOf(es[j]);
      NotBothHeld(Built(es), es[i], es[j]);
    }
  }

  lemma NotBothHeld(ms: seq<Member>, e: Item, f: Item)
    requires DOT !in e.key && DOT !in f.key && e.key != f.key && PathOf(e) <= PathOf(f)
    requires e.value.Some? && IsScalar(e.value.value) && f.value.Some?
    ensures !(DotGet(ms, Dotted(e.key)) == e.value && DotGet(ms, Dotted(f.key)) == f.value)
  {
    hide DotGet, GetPath, Dotted, Split;
    DottedSplits(e.key);
    DottedSplits(f.key);
    DotGetIsGetPath(ms, Dotted(e.key));
    DotGetIsGetPath(ms, Dotted(f.key));
    if PathOf(e) == PathOf(f) {
      SplitInjective(e.key, f.key, SLASH);
    } else if GetPath(ms, PathOf(e)) == e.value {
      ScalarEnds(ms, PathOf(e), PathOf(f));
    }
  }

  /** An item is refused exactly when something on the way to its path is not an object. */
  lemma RefusedIff(ms: seq<Member>, e: Item)
    requires DOT !in e.key
    ensures FateOf(ms, e) == Refused <==> e.value.None? || !Clear(ms, PathOf(e))
  {
    hide DotSet, SetPath, GetPath, Dotted;
    DottedSplits(e.key);
    if e.value.Some? {
      DotSetIsSetPath(ms, Dotted(e.key), e.value.value);
      SetSucceedsIffClear(ms, PathOf(e), e.value.value);
    }
  }

  /** And a stored scalar wipes out whatever was below its path, without a word: of two keys of which
      one is a prefix of the other, the longer is refused if met later and lost if met earlier. */
  lemma StoredOverwrites(es: seq<Item>, e: Item, f: Item)
    requires DOT !in e.key && e.value.Some? && IsScalar(e.value.value) && DOT !in f.key && PathOf(e) < PathOf(f)
    requires FateOf(Built(es), e) == Stored
    ensures DotGet(Built(es + [e]), Dotted(f.key)) == None
  {
    hide DotSet, DotGet, SetPath, GetPath, Dotted;
    var ms := Built(es);
    assert (es + [e])[..|es|] == es;
    DottedSplits(e.key);
    DottedSplits(f.key);
    DotSetIsSetPath(ms, Dotted(e.key), e.value.value);
    DotGetIsGetPath(Built(es + [e]), Dotted(f.key));
    SetEffect(ms, PathOf(e), e.value.value, PathOf(f));
  }

  // ---------------------------------------------------------------- order does not matter

  /** The same kind of node: absent, an object, or the same scalar. */
  predicate Alike(a: Option<Json>, b: Option<Json>) {
    match (a, b)
    case (None, None) => true
    case (Some(x), Some(y)) => (x.Obj? && y.Obj?) || (x == y && IsScalar(x))
    case _ => false
  }

  ghost predicate AlikeTrees(a: seq<Member>, b: seq<Member>) {
    forall q: Path :: q != [] ==> Alike(GetPath(a, q), GetPath(b, q))
  }

  lemma AlikeBelow(a: seq<Member>, b: seq<Member>, name: Str, x: seq<Member>, y: seq<Member>)
    requires AlikeTrees(a, b) && Get(a, name) == Some(Obj(x)) && Get(b, name) == Some(Obj(y))
    ensures AlikeTrees(x, y)
  {
    hide IndexOf;
    forall q: Path | q != [] ensures Alike(GetPath(x, q), GetPath(y, q)) {
      var r := [name] + q;
      assert r[1..] == q && r[0] == name;
      assert Alike(GetPath(a, r), GetPath(b, r));
    }
  }

  /** The value a search finds, compared by meaning. */
  ghost predicate SameFind(a: seq<Member>, b: seq<Member>, name: Str) {
    match (Get(a, name), Get(b, name))
    case (None, None) => true
    case (Some(x), Some(y)) => Meaning(x) == Meaning(y)
    case _ => false
  }

  lemma MeaningFromMembers(a: seq<Member>, b: seq<Member>)
    requires forall name :: SameFind(a, b, name)
    ensures Meaning(Obj(a)) == Meaning(Obj(b))
  {
    hide AsMap;
    var m, n := Meaning(Obj(a)).members, Meaning(Obj(b)).members;
    forall name ensures name in m <==> name in n {
      assert SameFind(a, b, name);
      AsMapAt(a, name); AsMapAt(b, name);
    }
    forall name | name in m ensures m[name] == n[name] {
      assert SameFind(a, b, name);
    }
    assert m == n;
  }

  /** Trees with alike nodes at every path have the same meaning. */
  lemma {:induction false} AlikeTreesMean(a: seq<Member>, b: seq<Member>)
    requires AlikeTrees(a, b)
    ensures Meaning(Obj(a)) == Meaning(Obj(b))
    decreases a
  {
    hide Meaning, GetPath, AlikeTrees;
    forall name ensures SameFind(a, b, name) {
      AlikeNames(a, b, name);
      var i := IndexOf(a, name);
      if i < |a| && a[i].value.Obj? {
        var x, y := a[i].value.members, Get(b, name).value.members;
        AlikeBelow(a, b, name, x, y);
        AlikeTreesMean(x, y);
      }
    }
    MeaningFromMembers(a, b);
  }

  lemma AlikeNames(a: seq<Member>, b: seq<Member>, name: Str)
    requires AlikeTrees(a, b)
    ensures Alike(Get(a, name), Get(b, name))
  {
    assert Alike(GetPath(a, [name]), GetPath(b, [name]));
  }

  /** The same items in any two orders build the same nested map. */
  lemma OrderIndependent(es: seq<Item>, fs: seq<Item>)
    requires Good(es) && Good(fs) && forall e :: e in es <==> e in fs
    ensures Meaning(Obj(Built(es))) == Meaning(Obj(Built(fs)))
  {
    BuiltShape(es);
    BuiltShape(fs);
    var a, b := Built(es), Built(fs);
    forall q: Path | q != [] ensures Alike(GetPath(a, q), GetPath(b, q)) {
      assert ShapedAt(a, es, q) && ShapedAt(b, fs, q);
      SameAt(a, es, b, fs, q);
    }
    AlikeTreesMean(a, b);
  }

  lemma SameAt(a: seq<Member>, es: seq<Item>, b: seq<Member>, fs: seq<Item>, q: Path)
    requires q != [] && Good(es) && (forall e :: e in es <==> e in fs) && ShapedAt(a, es, q) && ShapedAt(b, fs, q)
    ensures Alike(GetPath(a, q), GetPath(b, q))
  {
    if i :| 0 <= i < |es| && q == PathOf(es[i]) {
      assert es[i] in fs;
      var j :| 0 <= j < |fs| && fs[j] == es[i];
    } else if i :| 0 <= i < |es| && q < PathOf(es[i]) {
      assert es[i] in fs;
      var j :| 0 <= j < |fs| && fs[j] == es[i];
    } else {
      forall j | 0 <= j < |fs| ensures !(q <= PathOf(fs[j])) {
        assert fs[j] in es;
      }
    }
  }
}
