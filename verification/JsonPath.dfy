/** Dotted-path access to nested objects: json_object_dotset_value and json_object_dotget_value.
    Nested objects are updated as values here: the source mutates them through pointers. */
module JsonPath {
  import opened Collections
  import opened Bytes
  import opened JsonValues
  import opened JsonMembers

  type Path = seq<Str>

  const DOT: cbyte := 0x2E
  const SLASH: cbyte := 0x2F

  /** strchr: the position of the first separator, or |s|. */
  function FindByte(s: Str, sep: cbyte): (i: nat)
    ensures i <= |s|
    ensures i < |s| ==> s[i] == sep
    ensures forall k :: 0 <= k < i ==> s[k] != sep
  {
    if s == [] || s[0] == sep then 0 else 1 + FindByte(s[1..], sep)
  }

  function Split(s: Str, sep: cbyte): (p: Path)
    ensures p != []
    decreases |s|
  {
    var i := FindByte(s, sep);
    if i == |s| then [s] else [s[..i]] + Split(s[i + 1..], sep)
  }

  // ---------------------------------------------------------------- on dotted names, as the source recurses

  function DotGet(ms: seq<Member>, name: Str): Option<Json>
    decreases |name|
  {
    var d := FindByte(name, DOT);
    if d == |name| then Get(ms, name)
    else
      match Get(ms, name[..d])
      case Some(Obj(sub)) => DotGet(sub, name[d + 1..])
      case _ => None
  }

  function DotSet(ms: seq<Member>, name: Str, v: Json): Option<seq<Member>>
    decreases |name|
  {
    var d := FindByte(name, DOT);
    if d == |name| then Some(Set(ms, name, v))
    else
      match Get(ms, name[..d])
      case None =>
        (match DotSet([], name[d + 1..], v)
         case None => None
         case Some(sub) => Add(ms, name[..d], Obj(sub)))
      case Some(Obj(sub)) =>
        (match DotSet(sub, name[d + 1..], v)
         case None => None
         case Some(sub') => Some(ms[IndexOf(ms, name[..d]) := Member(name[..d], Obj(sub'))]))
      case Some(_) => None
  }

  // ---------------------------------------------------------------- on paths

  function GetPath(ms: seq<Member>, p: Path): Option<Json>
    requires p != []
  {
    if |p| == 1 then Get(ms, p[0])
    else
      match Get(ms, p[0])
      case Some(Obj(sub)) => GetPath(sub, p[1..])
      case _ => None
  }

  /** The members below a name, when it is absent or an object. */
  function Below(ms: seq<Member>, name: Str): Option<seq<Member>> {
    match Get(ms, name)
    case None => Some([])
    case Some(Obj(sub)) => Some(sub)
    case Some(_) => None
  }

  function SetPath(ms: seq<Member>, p: Path, v: Json): Option<seq<Member>>
    requires p != []
    decreases |p|
  {
    if |p| == 1 then Some(Set(ms, p[0], v))
    else
      match Below(ms, p[0])
      case None => None
      case Some(sub) =>
        (match SetPath(sub, p[1..], v)
         case None => None
         case Some(sub') => Some(Set(ms, p[0], Obj(sub'))))
  }

  lemma SplitStep(name: Str)
    ensures var d := FindByte(name, DOT); var p := Split(name, DOT);
            if d == |name| then p == [name]
            else |p| > 1 && p[0] == name[..d] && p[1..] == Split(name[d + 1..], DOT)
  {
    hide FindByte;
  }

  lemma {:induction false} DotSetIsSetPath(ms: seq<Member>, name: Str, v: Json)
    ensures DotSet(ms, name, v) == SetPath(ms, Split(name, DOT), v)
    decreases |name|
  {
    hide IndexOf, FindByte, Split;
    SplitStep(name);
    var d := FindByte(name, DOT);
    if d < |name| {
      DotSetIsSetPath([], name[d + 1..], v);
      match Get(ms, name[..d])
      case Some(Obj(sub)) => DotSetIsSetPath(sub, name[d + 1..], v);
      case _ =>
    }
  }

  lemma {:induction false} DotGetIsGetPath(ms: seq<Member>, name: Str)
    ensures DotGet(ms, name) == GetPath(ms, Split(name, DOT))
    decreases |name|
  {
    hide IndexOf, FindByte, Split;
    SplitStep(name);
    var d := FindByte(name, DOT);
    if d < |name| {
      match Get(ms, name[..d])
      case Some(Obj(sub)) => DotGetIsGetPath(sub, name[d + 1..]);
      case _ =>
    }
  }

  // ---------------------------------------------------------------- the effect of one set

  lemma GetAfterSet(ms: seq<Member>, name: Str, v: Json, n: Str)
    ensures Get(Set(ms, name, v), n) == if n == name then Some(v) else Get(ms, n)
  {
    var i := IndexOf(ms, name);
    if i < |ms| { IndexOfUpdated(ms, i, Member(name, v), n); } else { IndexOfAppended(ms, Member(name, v), n); }
  }

  /** A set succeeds exactly when no proper prefix of its path holds something other than an object. */
  ghost predicate Clear(ms: seq<Member>, p: Path) {
    forall k :: 0 < k < |p| ==> (GetPath(ms, p[..k]).None? || GetPath(ms, p[..k]).value.Obj?)
  }

  lemma {:induction false} GetPathEmpty(p: Path)
    requires p != []
    ensures GetPath([], p) == None
  {
  }

  lemma PrefixBelow(ms: seq<Member>, p: Path, k: nat)
    requires 1 < k <= |p| && Below(ms, p[0]).Some?
    ensures GetPath(ms, p[..k]) == GetPath(Below(ms, p[0]).value, p[1..][..k - 1])
  {
    hide IndexOf;
    assert p[..k][1..] == p[1..][..k - 1];
    GetPathEmpty(p[1..][..k - 1]);
  }

  lemma ClearBelow(ms: seq<Member>, p: Path)
    requires |p| > 1
    ensures Clear(ms, p) <==> Below(ms, p[0]).Some? && Clear(Below(ms, p[0]).value, p[1..])
  {
    hide IndexOf;
    assert p[..1] == [p[0]] && GetPath(ms, p[..1]) == Get(ms, p[0]);
    if Below(ms, p[0]).Some? {
      var sub := Below(ms, p[0]).value;
      if Clear(ms, p) {
        forall k | 0 < k < |p| - 1 ensures var g := GetPath(sub, p[1..][..k]); g.None? || g.value.Obj? {
          PrefixBelow(ms, p, k + 1);
        }
      }
      if Clear(sub, p[1..]) {
        forall k | 1 < k < |p| ensures GetPath(ms, p[..k]).None? || GetPath(ms, p[..k]).value.Obj? {
          PrefixBelow(ms, p, k);
          assert 0 < k - 1 < |p[1..]|;
        }
      }
    }
  }

  lemma {:induction false} SetSucceedsIffClear(ms: seq<Member>, p: Path, v: Json)
    requires p != []
    ensures SetPath(ms, p, v).Some? <==> Clear(ms, p)
    decreases |p|
  {
    if |p| > 1 {
      ClearBelow(ms, p);
      if Below(ms, p[0]).Some? {
        SetSucceedsIffClear(Below(ms, p[0]).value, p[1..], v);
      }
    }
  }

  predicate IsScalar(v: Json) {
    !v.Obj? && !v.Arr?
  }

  /** What a set does to every path: that path holds the value, paths above it are objects, paths beyond
      it lead into the value, and every other path is unchanged. */
  ghost predicate Effect(ms: seq<Member>, ms': seq<Member>, p: Path, v: Json, q: Path)
    requires q != []
  {
    var before, after := GetPath(ms, q), GetPath(ms', q);
    if q == p then after == Some(v)
    else if q < p then after.Some? && after.value.Obj?
    else if p < q then after == if v.Obj? then GetPath(v.members, q[|p|..]) else None
    else after == before
  }

  lemma {:induction false} SetEffect(ms: seq<Member>, p: Path, v: Json, q: Path)
    requires p != [] && q != [] && SetPath(ms, p, v).Some?
    ensures Effect(ms, SetPath(ms, p, v).value, p, v, q)
    decreases |p|
  {
    hide IndexOf, Set;
    var ms' := SetPath(ms, p, v).value;
    if |p| == 1 {
      GetAfterSet(ms, p[0], v, q[0]);
      assert q[0] == p[0] ==> (|q| == 1 ==> q == p) && (|q| > 1 ==> p < q);
    } else {
      var sub := Below(ms, p[0]).value;
      var sub' := SetPath(sub, p[1..], v).value;
      GetAfterSet(ms, p[0], Obj(sub'), q[0]);
      if q[0] == p[0] && |q| > 1 {
        SetEffect(sub, p[1..], v, q[1..]);
        TailsCompare(p, q);
        GetPathEmpty(q[1..]);
        assert p < q ==> q[|p|..] == q[1..][|p[1..]|..];
      }
    }
  }

  lemma TailsCompare(p: Path, q: Path)
    requires |p| > 1 && |q| > 1 && p[0] == q[0]
    ensures (q == p <==> q[1..] == p[1..]) && (q < p <==> q[1..] < p[1..]) && (p < q <==> p[1..] < q[1..])
  {
    assert p == [p[0]] + p[1..] && q == [q[0]] + q[1..];
  }

  /** Nothing lies beyond a scalar. */
  lemma {:induction false} ScalarEnds(ms: seq<Member>, p: Path, q: Path)
    requires p != [] && p < q && GetPath(ms, p).Some? && IsScalar(GetPath(ms, p).value)
    ensures GetPath(ms, q) == None
    decreases |p|
  {
    hide IndexOf;
    assert q[0] == p[0] && |q| > 1;
    if |p| > 1 {
      TailsCompare(p, q);
      match Get(ms, p[0])
      case Some(Obj(sub)) => ScalarEnds(sub, p[1..], q[1..]);
      case _ =>
    }
  }

  function Joined(p: Path, sep: cbyte): Str
    requires p != []
  {
    if |p| == 1 then p[0] else p[0] + [sep] + Joined(p[1..], sep)
  }

  lemma {:induction false} JoinUndoesSplit(s: Str, sep: cbyte)
    ensures Joined(Split(s, sep), sep) == s
    decreases |s|
  {
    var i := FindByte(s, sep);
    hide FindByte;
    if i < |s| {
      var rest := Split(s[i + 1..], sep);
      assert Split(s, sep) == [s[..i]] + rest && ([s[..i]] + rest)[1..] == rest;
      JoinUndoesSplit(s[i + 1..], sep);
      assert s == s[..i] + [sep] + s[i + 1..];
    }
  }

  /** A name is determined by its segments. */
  lemma SplitInjective(s: Str, t: Str, sep: cbyte)
    requires Split(s, sep) == Split(t, sep)
    ensures s == t
  {
    JoinUndoesSplit(s, sep);
    JoinUndoesSplit(t, sep);
  }
}
