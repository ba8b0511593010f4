/** What replacing a device leaves in the registry, case by case. */
module RegistryReplace {
  import opened ListEquality
  import opened Registry
  import opened RegistryInvariant

  ghost predicate UniqueLists(i: Info) {
    UniqueNames(i.protocols) && UniqueNames(i.autos)
  }

  /** The stored device agrees with the request on everything but what an in-place update leaves
      alone; protocols and autoevents agree as maps. */
  ghost predicate Agrees(s: State, d: Device, r: Request) {
    && AsMap(d.info.protocols) == AsMap(r.info.protocols) && AsMap(d.info.autos) == AsMap(r.info.autos)
    && d.info.adminState == r.info.adminState && d.info.operatingState == r.info.operatingState
    && d.info.origin == r.info.origin && d.info.description == r.info.description && d.info.labels == r.info.labels
    && d.profile in s.prof && s.prof[d.profile].name == r.profile.name
  }

  /** As long as each other, and denoting the same map: for lists with unique names, just the latter. */
  ghost predicate SameList<V>(l1: seq<Entry<V>>, l2: seq<Entry<V>>) {
    |l1| == |l2| && AsMap(l1) == AsMap(l2)
  }

  /** The request says of protocols, autoevents and profile name what the stored device has. */
  ghost predicate SameEssentials(s: State, d: Device, r: Request)
    requires d.profile in s.prof
  {
    && SameList(d.info.protocols, r.info.protocols) && SameList(d.info.autos, r.info.autos)
    && s.prof[d.profile].name == r.profile.name
  }

  /** Updated in place exactly when protocols and autoevents denote the same maps and the profile
      name is the same: then the same object stays, with its references, retries, tags and parent.
      Otherwise a new object takes the name, with the old one's retries and the request's data.
      Only the stored lists need unique names; `ReplaceDeceived` says what happens otherwise. */
  lemma ReplaceKnownDevice(s: State, r: Request, fails: int)
    requires Inv(s) && r.name in s.devices && UniqueLists(s.dev[s.devices[r.name]].info)
    ensures s.dev[s.devices[r.name]].profile in s.prof
    ensures var a := s.devices[r.name]; var d := s.dev[a];
            var t, same := Replace(s, r, fails), SameEssentials(s, d, r);
            && r.name in t.devices && t.devices[r.name] in t.dev
            && Agrees(t, t.dev[t.devices[r.name]], r)
            && (t.devices[r.name] == a <==> same)
            && (same ==> t.dev[a] == d.(info := t.dev[a].info) && t.dev[a].info.tags == d.info.tags
                         && t.dev[a].info.parent == d.info.parent)
            && (!same ==> var e := t.dev[t.devices[r.name]];
                          e.info == r.info && e.refs == 1 && e.retries == d.retries && !e.ownprofile)
            && ReplaceOutcome(s, r)
               == if same && d.info.adminState == r.info.adminState then UpdatedSdk else UpdatedDriver
  {
    InvProfiles(s);
    var d := s.dev[s.devices[r.name]];
    UniqueFirstDecides(d.info.protocols, r.info.protocols);
    UniqueFirstDecides(d.info.autos, r.info.autos);
    hide EqualLists, AsMap, UniqueNames, InTable, Registered, RefsExact, TableProfiles, SingleOwner, Replace;
    hide UpdatedInfo, Agrees;
    if InPlace(d.info, s.prof[d.profile].name, r) {
      UpdatedInPlace(s, r, fails);
    } else {
      ReplacedAnew(s, r, fails);
    }
  }

  // ---------------------------------------------------------------- repeated names in the stored lists

  /** The request that changes nothing but the given lists. */
  function Asking(s: State, name: Name, info: Info): Request
    requires name in s.devices && s.devices[name] in s.dev && s.dev[s.devices[name]].profile in s.prof
  {
    Request(name, info, s.prof[s.dev[s.devices[name]].profile])
  }

  ghost predicate Repeats<V>(l: seq<Entry<V>>, i: nat, j: nat) {
    i < j < |l| && l[i].name == l[j].name
  }

  /** A request that differs only in lists found equal leaves the registry as it is. */
  lemma TakenAsUnchanged(s: State, name: Name, info: Info, fails: int)
    requires TablesSound(s) && name in s.devices && s.dev[s.devices[name]].profile in s.prof
    requires var was := s.dev[s.devices[name]].info;
             && EqualLists(was.protocols, info.protocols) && EqualLists(was.autos, info.autos)
             && info == was.(protocols := info.protocols, autos := info.autos)
    ensures var r := Asking(s, name, info); ReplaceOutcome(s, r) == UpdatedSdk && Replace(s, r, fails) == s
  {
    hide EqualLists;
    var a := s.devices[name];
    assert s.dev[a := s.dev[a]] == s.dev;
  }

  /** A stored device whose autoevents repeat an entry is updated "in place" by a request for other
      autoevents, and keeps its old ones. */
  lemma ReplaceDeceived(s: State, name: Name, fails: int, i: nat, j: nat)
    requires Inv(s) && name in s.devices && Consistent(s.dev[s.devices[name]].info.protocols)
    requires var autos := s.dev[s.devices[name]].info.autos; Consistent(autos) && Repeats(autos, i, j)
    ensures s.dev[s.devices[name]].profile in s.prof
    ensures var was := s.dev[s.devices[name]].info;
            var r := Asking(s, name, was.(autos := Renamed(was.autos, j)));
            && ReplaceOutcome(s, r) == UpdatedSdk && Replace(s, r, fails) == s
            && AsMap(was.autos) != AsMap(r.info.autos)
  {
    InvProfiles(s);
    hide EqualLists, AsMap, Renamed, RefsExact, TableProfiles, SingleOwner, Consistent, Replace, ReplaceOutcome;
    var was := s.dev[s.devices[name]].info;
    RepeatedNamesDeceive(was.autos, i, j);
    ReflexiveIff(was.protocols);
    TakenAsUnchanged(s, name, was.(autos := Renamed(was.autos, j)), fails);
  }

  /** And one whose protocols repeat an entry ignores a request for other protocols. */
  lemma ReplaceDeceivedOfProtocols(s: State, name: Name, fails: int, i: nat, j: nat)
    requires Inv(s) && name in s.devices && Consistent(s.dev[s.devices[name]].info.autos)
    requires var protocols := s.dev[s.devices[name]].info.protocols; Consistent(protocols) && Repeats(protocols, i, j)
    ensures s.dev[s.devices[name]].profile in s.prof
    ensures var was := s.dev[s.devices[name]].info;
            var r := Asking(s, name, was.(protocols := Renamed(was.protocols, j)));
            && ReplaceOutcome(s, r) == UpdatedSdk && Replace(s, r, fails) == s
            && AsMap(was.protocols) != AsMap(r.info.protocols)
  {
    InvProfiles(s);
    hide EqualLists, AsMap, Renamed, RefsExact, TableProfiles, SingleOwner, Consistent, Replace, ReplaceOutcome;
    var was := s.dev[s.devices[name]].info;
    RepeatedNamesDeceive(was.protocols, i, j);
    ReflexiveIff(was.autos);
    TakenAsUnchanged(s, name, was.(protocols := Renamed(was.protocols, j)), fails);
  }

  /** After the replacement the table holds, under the request's name, a device that agrees with it. */
  ghost predicate Obeyed(s: State, r: Request, fails: int)
    requires TablesSound(s) && (r.name in s.devices ==> s.dev[s.devices[r.name]].profile in s.prof)
  {
    var t := Replace(s, r, fails);
    r.name in t.devices && t.devices[r.name] in t.dev && Agrees(t, t.dev[t.devices[r.name]], r)
  }

  /** Lists of which an "equal" can be believed, or that equal nothing. */
  ghost predicate Trusted(i: Info) {
    UniqueLists(i) || !Consistent(i.protocols) || !Consistent(i.autos)
  }

  /** Exactly the stored devices of which every request is obeyed: those whose lists repeat no name,
      and those with a list that gives a name two values, which are never updated in place. */
  lemma AlwaysObeyedIff(s: State, name: Name, fails: int)
    requires Inv(s) && name in s.devices
    ensures s.dev[s.devices[name]].profile in s.prof
    ensures (forall r: Request :: r.name == name ==> Obeyed(s, r, fails)) <==> Trusted(s.dev[s.devices[name]].info)
  {
    hide EqualLists, AsMap, Consistent, UniqueLists, Obeyed, RefsExact, TableProfiles, SingleOwner;
    InvProfiles(s);
    if Trusted(s.dev[s.devices[name]].info) {
      forall r: Request | r.name == name ensures Obeyed(s, r, fails) {
        TrustedObeys(s, r, fails);
      }
    } else {
      var r := DisobeyedRequest(s, name, fails);
    }
  }

  lemma TrustedObeys(s: State, r: Request, fails: int)
    requires Inv(s) && r.name in s.devices && s.dev[s.devices[r.name]].profile in s.prof
    requires Trusted(s.dev[s.devices[r.name]].info)
    ensures Obeyed(s, r, fails)
  {
    hide EqualLists, AsMap, Consistent, UniqueLists, Agrees, Replace, RefsExact, TableProfiles, SingleOwner;
    var i := s.dev[s.devices[r.name]].info;
    if UniqueLists(i) {
      ReplaceKnownDevice(s, r, fails);
    } else {
      EqualListsExactly(i.protocols, r.info.protocols);
      EqualListsExactly(i.autos, r.info.autos);
      ReplacedAnew(s, r, fails);
    }
  }

  lemma DisobeyedRequest(s: State, name: Name, fails: int) returns (r: Request)
    requires Inv(s) && name in s.devices && s.dev[s.devices[name]].profile in s.prof
    requires !Trusted(s.dev[s.devices[name]].info)
    ensures r.name == name && !Obeyed(s, r, fails)
  {
    hide EqualLists, AsMap, Consistent, Replace, Renamed, RefsExact, TableProfiles, SingleOwner;
    var was := s.dev[s.devices[name]].info;
    if !UniqueNames(was.autos) {
      var i, j :| 0 <= i < j < |was.autos| && was.autos[i].name == was.autos[j].name;
      ReplaceDeceived(s, name, fails, i, j);
      r := Asking(s, name, was.(autos := Renamed(was.autos, j)));
    } else {
      var i, j :| 0 <= i < j < |was.protocols| && was.protocols[i].name == was.protocols[j].name;
      ReplaceDeceivedOfProtocols(s, name, fails, i, j);
      r := Asking(s, name, was.(protocols := Renamed(was.protocols, j)));
    }
  }

  // ---------------------------------------------------------------- refused updates

  /** An update that is refused has changed the device being replaced exactly when it got past the
      protocols and asked for another admin state; that is all it changes. */
  lemma RefusedUpdateTouchesIff(was: Info, wasProfile: Name, r: Request)
    requires !InPlace(was, wasProfile, r)
    ensures UpdatedInfo(was, wasProfile, r) == was
            <==> !EqualLists(was.protocols, r.info.protocols) || was.adminState == r.info.adminState
    ensures UpdatedInfo(was, wasProfile, r).(adminState := was.adminState) == was
  {
    hide EqualLists;
  }

  // ---------------------------------------------------------------- the cases

  lemma UpdatedInPlace(s: State, r: Request, fails: int)
    requires TablesSound(s) && r.name in s.devices && s.dev[s.devices[r.name]].profile in s.prof
    requires var d := s.dev[s.devices[r.name]];
             && InPlace(d.info, s.prof[d.profile].name, r)
             && AsMap(d.info.protocols) == AsMap(r.info.protocols) && AsMap(d.info.autos) == AsMap(r.info.autos)
    ensures var a, t := s.devices[r.name], Replace(s, r, fails);
            && t.devices == s.devices && a in t.dev && Agrees(t, t.dev[a], r)
            && t.dev[a] == s.dev[a].(info := t.dev[a].info)
            && t.dev[a].info.tags == s.dev[a].info.tags && t.dev[a].info.parent == s.dev[a].info.parent
  {
    hide EqualLists, AsMap;
  }

  lemma ReplacedAnew(s: State, r: Request, fails: int)
    requires TablesSound(s) && r.name in s.devices && s.dev[s.devices[r.name]].profile in s.prof
    requires var d := s.dev[s.devices[r.name]]; !InPlace(d.info, s.prof[d.profile].name, r)
    ensures var a, t := s.devices[r.name], Replace(s, r, fails);
            && r.name in t.devices && t.devices[r.name] in t.dev && t.devices[r.name] != a
            && Agrees(t, t.dev[t.devices[r.name]], r)
            && var e := t.dev[t.devices[r.name]];
            e.info == r.info && e.refs == 1 && e.retries == s.dev[a].retries && !e.ownprofile
  {
    hide EqualLists, AsMap, LastUser, UpdatedInfo, InPlace;
  }

  lemma ReplaceNewDevice(s: State, r: Request, fails: int)
    requires Inv(s) && r.name !in s.devices
    ensures var t := Replace(s, r, fails);
            && r.name in t.devices && t.devices[r.name] in t.dev && t.devices[r.name] !in s.dev
            && Agrees(t, t.dev[t.devices[r.name]], r) && t.dev[t.devices[r.name]].info == r.info
            && t.dev[t.devices[r.name]].retries == fails
            && ReplaceOutcome(s, r) == Created
  {
    TableMeanings(s);
    hide AsMap;
  }
}
