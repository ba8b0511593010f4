/** What each operation leaves in the registry, object by object: what the tables then hold, which
    contents changed, and that everything else is as it was. */
module RegistryEffects {
  import opened ListEquality
  import opened Registry
  import opened RegistryInvariant

  /** A lookup gives one reference to the device of that name, and changes nothing else. */
  lemma LookupEffect(s: State, name: Name)
    requires Inv(s)
    ensures var t := Lookup(s, name);
            if name !in s.devices then t == s
            else
              var a := s.devices[name];
              && t.devices == s.devices && t.profiles == s.profiles && t.prof == s.prof && t.next == s.next
              && t.held == s.held + multiset{a} && t.dev.Keys == s.dev.Keys
              && forall b :: b in s.dev ==>
                   t.dev[b] == if b == a then s.dev[a].(refs := s.dev[a].refs + 1) else s.dev[b]
  {
    hide InTable, Registered, Owns, RefsExact, TableProfiles, SingleOwner;
  }

  /** A release takes back one reference. The last one frees the device and, if the device owns it, its
      profile; nothing else changes. */
  lemma ReleaseEffect(s: State, a: Addr)
    requires Inv(s) && a in s.held
    ensures a in s.dev
    ensures var t, d := Release(s, a), s.dev[a];
            && t.devices == s.devices && t.profiles == s.profiles && t.next == s.next && t.held == s.held - multiset{a}
            && (a in t.dev <==> d.refs > 1) && (d.refs > 1 ==> t.dev[a] == d.(refs := d.refs - 1))
            && (forall b :: b != a ==> (b in t.dev <==> b in s.dev) && (b in s.dev ==> t.dev[b] == s.dev[b]))
            && (forall q :: q in t.prof <==> q in s.prof && !(d.refs == 1 && d.ownprofile && q == d.profile))
            && (forall q :: q in t.prof ==> t.prof[q] == s.prof[q])
  {
    hide InTable, Registered, Owns, TablesSound, TableProfiles, SingleOwner;
  }

  /** A device is added under a fresh address, with the request's data, one reference and the given
      allowance. It uses the profile registered under the name it asks for, which is the request's own
      if there was none; nothing else changes. */
  lemma AddEffect(s: State, r: Request, retries: int)
    requires TablesSound(s)
    ensures var t := AddLocked(s, r, retries);
            && r.name in t.devices && r.profile.name in t.profiles
            && var a, q, known := t.devices[r.name], t.profiles[r.profile.name], r.profile.name in s.profiles;
            && a !in s.dev && t.devices == s.devices[r.name := a] && t.held == s.held
            && t.dev == s.dev[a := Device(r.name, r.info, q, 1, retries, false)]
            && (known ==> t.profiles == s.profiles && t.prof == s.prof)
            && (!known ==> && q !in s.prof && t.profiles == s.profiles[r.profile.name := q]
                           && t.prof == s.prof[q := r.profile])
  {
  }

  /** No device of that name or another uses the profile of the named device. */
  ghost predicate NoOtherUser(s: State, name: Name)
    requires TablesSound(s) && name in s.devices
  {
    forall n :: n in s.devices && n != name ==> s.dev[s.devices[n]].profile != s.dev[s.devices[name]].profile
  }

  /** After a removal the table is the old one without that name, and the remover holds the device. The
      profile is unregistered and passes to the device if and only if no other device in the table uses
      it; nothing else changes. */
  lemma RemoveEffect(s: State, name: Name)
    requires Inv(s) && name in s.devices
    ensures s.dev[s.devices[name]].profile in s.prof
    ensures var t, a := Remove(s, name), s.devices[name]; var d := s.dev[a];
            && t.devices == s.devices - {name} && t.held == s.held + multiset{a} && t.prof == s.prof && t.next == s.next
            && t.dev == s.dev[a := d.(ownprofile := NoOtherUser(s, name))]
            && t.profiles == if NoOtherUser(s, name) then s.profiles - {s.prof[d.profile].name} else s.profiles
  {
    InvProfiles(s);
    TableMeanings(s);
    var a := s.devices[name];
    assert InTable(s, a);
    LastUserMeans(s, name);
    hide LastUser, RefsExact, SingleOwner, Registered, Owns;
    assert s.dev[a := s.dev[a]] == s.dev;
  }

  /** A name that is not there is not removed. */
  lemma RemoveNothing(s: State, name: Name)
    requires name !in s.devices
    ensures Remove(s, name) == s
  {
  }

  lemma LastUserMeans(s: State, name: Name)
    requires TablesSound(s) && name in s.devices
    ensures LastUser(Detach(s, name), s.dev[s.devices[name]].profile) <==> NoOtherUser(s, name)
  {
    var t, p := Detach(s, name), s.dev[s.devices[name]].profile;
    if LastUser(t, p) {
      forall n | n in s.devices && n != name ensures s.dev[s.devices[n]].profile != p {
        assert n in t.devices && t.devices[n] == s.devices[n];
      }
    }
  }

  /** After a profile is added the table has that very profile under its name, at a fresh address; every
      other binding, every object and every device is as before. */
  lemma AddProfileEffect(s: State, p: Profile)
    requires TablesSound(s)
    ensures var t := AddProfile(s, p);
            && p.name in t.profiles && t.profiles[p.name] !in s.prof
            && t.profiles == s.profiles[p.name := t.profiles[p.name]] && t.prof == s.prof[t.profiles[p.name] := p]
            && t.devices == s.devices && t.dev == s.dev && t.held == s.held
  {
  }

  /** After an update the table has that very profile under its name, at a fresh address. Exactly the
      devices in the table that used the old one use the new one, the old one is gone, and every other
      device, profile and binding is as before. */
  lemma UpdateProfileEffect(s: State, p: Profile)
    requires Inv(s)
    ensures var t := UpdateProfile(s, p);
            && p.name in t.profiles && t.profiles[p.name] in t.prof && t.prof[t.profiles[p.name]] == p
            && var q := t.profiles[p.name];
            && q !in s.prof && t.profiles == s.profiles[p.name := q] && t.devices == s.devices && t.held == s.held
            && t.dev.Keys == s.dev.Keys
            && (forall a :: a in s.dev ==>
                  t.dev[a] == if p.name in s.profiles && InTable(s, a) && s.dev[a].profile == s.profiles[p.name]
                              then s.dev[a].(profile := q) else s.dev[a])
            && (forall o :: o in t.prof <==>
                              o == q || (o in s.prof && !(p.name in s.profiles && o == s.profiles[p.name])))
            && (forall o :: o in t.prof && o != q ==> t.prof[o] == s.prof[o])
  {
    hide InTable, Registered, Owns, RefsExact, TableProfiles, SingleOwner;
  }

  /** Clearing empties the device table. Every device that was in it loses the table's reference, and is
      gone if that was its last; every other device, every profile and the profile table stay. */
  lemma ClearEffect(s: State)
    requires Inv(s)
    ensures var t := Clear(s);
            && t.devices == map[] && t.profiles == s.profiles && t.prof == s.prof && t.held == s.held
            && (forall a :: a in t.dev <==> a in s.dev && !(InTable(s, a) && s.dev[a].refs == 1))
            && (forall a :: a in t.dev ==>
                  t.dev[a] == if InTable(s, a) then s.dev[a].(refs := s.dev[a].refs - 1) else s.dev[a])
  {
    hide InTable, Registered, Owns, TableProfiles, SingleOwner;
  }

  /** An update in place leaves everything but the one device's data. */
  lemma ReplaceInPlaceEffect(s: State, r: Request, fails: int)
    requires Inv(s) && r.name in s.devices
    ensures s.dev[s.devices[r.name]].profile in s.prof
    ensures var t, a := Replace(s, r, fails), s.devices[r.name]; var d := s.dev[a];
            EqualLists(d.info.protocols, r.info.protocols) && EqualLists(d.info.autos, r.info.autos)
            && s.prof[d.profile].name == r.profile.name ==>
              && t.devices == s.devices && t.profiles == s.profiles && t.prof == s.prof && t.held == s.held
              && t.dev == s.dev[a := d.(info := d.info.(
                   adminState := r.info.adminState, operatingState := r.info.operatingState, origin := r.info.origin,
                   description := r.info.description, labels := r.info.labels))]
  {
    InvProfiles(s);
    hide EqualLists, InTable, Registered, Owns, RefsExact, TableProfiles, SingleOwner;
  }

  /** The replaced device as it is left to its holders: its admin state may have been updated, and it
      owns its profile if and only if the request names another and nobody else uses it. */
  ghost function LeftBehind(s: State, r: Request): Device
    requires TablesSound(s) && r.name in s.devices && s.dev[s.devices[r.name]].profile in s.prof
  {
    var d := s.dev[s.devices[r.name]];
    var info := if EqualLists(d.info.protocols, r.info.protocols)
                then d.info.(adminState := r.info.adminState) else d.info;
    d.(info := info, ownprofile := s.prof[d.profile].name != r.profile.name && NoOtherUser(s, r.name))
  }

  /** The state with the old device out and the new one in, before a profile is handed over. */
  function Renewed(s: State, r: Request): State
    requires TablesSound(s) && r.name in s.devices && s.dev[s.devices[r.name]].profile in s.prof
  {
    var a := s.devices[r.name];
    var d := s.dev[a];
    var s1 := s.(dev := s.dev[a := d.(info := UpdatedInfo(d.info, s.prof[d.profile].name, r))]);
    AddLocked(Detach(s1, r.name), r, d.retries)
  }

  lemma RenewedEffect(s: State, r: Request)
    requires TablesSound(s) && r.name in s.devices && s.dev[s.devices[r.name]].profile in s.prof
    ensures var t, a := Renewed(s, r), s.devices[r.name]; var d := s.dev[a];
            var info := UpdatedInfo(d.info, s.prof[d.profile].name, r);
            && r.name in t.devices && r.profile.name in t.profiles
            && var b, q, known := t.devices[r.name], t.profiles[r.profile.name], r.profile.name in s.profiles;
            && b !in s.dev && t.devices == s.devices[r.name := b] && t.held == s.held + multiset{a}
            && t.dev == s.dev[a := d.(info := info)][b := Device(r.name, r.info, q, 1, d.retries, false)]
            && (known ==> t.profiles == s.profiles && t.prof == s.prof && q == s.profiles[r.profile.name])
            && (!known ==> && q !in s.prof && t.profiles == s.profiles[r.profile.name := q]
                           && t.prof == s.prof[q := r.profile])
  {
    hide AddLocked, UpdatedInfo;
    var a := s.devices[r.name];
    var d := s.dev[a];
    var s1 := s.(dev := s.dev[a := d.(info := UpdatedInfo(d.info, s.prof[d.profile].name, r))]);
    AddEffect(Detach(s1, r.name), r, d.retries);
  }

  /** A profile passes to the replaced device exactly when nobody else uses it. */
  lemma RenewedHandOver(s: State, r: Request)
    requires TablesSound(s) && r.name in s.devices && s.dev[s.devices[r.name]].profile in s.prof
    requires s.prof[s.dev[s.devices[r.name]].profile].name != r.profile.name
    ensures LastUser(Renewed(s, r), s.dev[s.devices[r.name]].profile) <==> NoOtherUser(s, r.name)
  {
    hide AddLocked, UpdatedInfo, LastUser, NoOtherUser;
    var a := s.devices[r.name];
    var d := s.dev[a];
    var info := UpdatedInfo(d.info, s.prof[d.profile].name, r);
    LastUserAfterAdd(s, s.(dev := s.dev[a := d.(info := info)]), r, d.retries);
  }

  /** A replacement that is not in place: a new device under a fresh address takes the name, with the
      request's data and the old allowance, and the old one is left to its holders and the replacer.
      Its profile is unregistered if it passes to it; a profile of a new name is registered. Nothing
      else changes. */
  lemma ReplaceAnewEffect(s: State, r: Request, fails: int)
    requires Inv(s) && r.name in s.devices
    ensures s.dev[s.devices[r.name]].profile in s.prof
    ensures var a := s.devices[r.name]; var d := s.dev[a];
            !(EqualLists(d.info.protocols, r.info.protocols) && EqualLists(d.info.autos, r.info.autos)
              && s.prof[d.profile].name == r.profile.name) ==>
              var t := Replace(s, r, fails);
              && r.name in t.devices && t.devices[r.name] !in s.dev
              && t.devices == s.devices[r.name := t.devices[r.name]]
              && t.held == s.held + multiset{a} && r.profile.name in t.profiles
              && var q, left := t.profiles[r.profile.name], LeftBehind(s, r);
              && t.dev == s.dev[a := left][t.devices[r.name] := Device(r.name, r.info, q, 1, d.retries, false)]
              && (r.profile.name in s.profiles ==> q == s.profiles[r.profile.name] && t.prof == s.prof)
              && (r.profile.name !in s.profiles ==> q !in s.prof && t.prof == s.prof[q := r.profile])
              && t.profiles == (if left.ownprofile then s.profiles - {s.prof[d.profile].name}
                                else s.profiles)[r.profile.name := q]
  {
    hide TablesSound, RefsExact, TableProfiles, SingleOwner, Replace, Renewed, EqualLists, LastUser;
    hide UpdatedInfo, NoOtherUser;
    InvProfiles(s);
    NotOwner(s, r.name);
    var a := s.devices[r.name];
    var d := s.dev[a];
    var name := s.prof[d.profile].name;
    if !InPlace(d.info, name, r) {
      RefusedInfo(d.info, name, r);
      RenewedEffect(s, r);
      if name != r.profile.name { RenewedHandOver(s, r); }
      ReplaceIsRenewed(s, r, fails);
      var u, t, left := Renewed(s, r), Replace(s, r, fails), LeftBehind(s, r);
      var b := u.devices[r.name];
      assert t.devices == u.devices && t.held == u.held && t.prof == u.prof;
      assert left == u.dev[a].(ownprofile := left.ownprofile);
      assert t.dev == u.dev[a := left];
    }
  }

  lemma NotOwner(s: State, name: Name)
    requires Inv(s) && name in s.devices
    ensures !s.dev[s.devices[name]].ownprofile
  {
    TableMeanings(s);
    hide RefsExact, SingleOwner, Registered, Owns;
    assert InTable(s, s.devices[name]);
  }

  lemma ReplaceIsRenewed(s: State, r: Request, fails: int)
    requires TablesSound(s) && r.name in s.devices && s.dev[s.devices[r.name]].profile in s.prof
    requires var d := s.dev[s.devices[r.name]]; !InPlace(d.info, s.prof[d.profile].name, r)
    ensures var u, t, a := Renewed(s, r), Replace(s, r, fails), s.devices[r.name];
            && a in u.dev && u.dev[a].profile == s.dev[a].profile && s.dev[a].profile in u.prof
            && u.prof[s.dev[a].profile] == s.prof[s.dev[a].profile]
            && t == if s.prof[s.dev[a].profile].name != r.profile.name && LastUser(u, s.dev[a].profile) then
                      u.(profiles := u.profiles - {s.prof[s.dev[a].profile].name},
                         dev := u.dev[a := u.dev[a].(ownprofile := true)])
                    else u
  {
    hide InPlace, UpdatedInfo, LastUser;
  }

  lemma RefusedInfo(was: Info, name: Name, r: Request)
    requires !InPlace(was, name, r)
    ensures UpdatedInfo(was, name, r)
            == if EqualLists(was.protocols, r.info.protocols) then was.(adminState := r.info.adminState) else was
  {
    hide EqualLists;
  }

  lemma LastUserAfterAdd(s: State, s1: State, r: Request, retries: int)
    requires TablesSound(s) && r.name in s.devices && s.dev[s.devices[r.name]].profile in s.prof
    requires var a := s.devices[r.name]; a in s1.dev && s1 == s.(dev := s.dev[a := s.dev[a].(info := s1.dev[a].info)])
    requires s.prof[s.dev[s.devices[r.name]].profile].name != r.profile.name
    ensures LastUser(AddLocked(Detach(s1, r.name), r, retries), s.dev[s.devices[r.name]].profile) <==>
            NoOtherUser(s, r.name)
  {
    hide AddLocked;
    var a, p := s.devices[r.name], s.dev[s.devices[r.name]].profile;
    var s0 := Detach(s1, r.name);
    var t := AddLocked(s0, r, retries);
    AddEffect(s0, r, retries);
    assert t.profiles[r.profile.name] != p;
    OthersSame(s, s1, t, r.name, t.devices[r.name]);
    if LastUser(t, p) {
      forall n | n in s.devices && n != r.name ensures s.dev[s.devices[n]].profile != p {
        assert t.dev[t.devices[n]].profile != p;
      }
    }
  }

  /** The other devices of the table, seen before and after. */
  lemma OthersSame(s: State, s1: State, t: State, name: Name, b: Addr)
    requires TablesSound(s) && name in s.devices && b !in s.dev && b in t.dev && b !in s1.dev
    requires var a := s.devices[name]; a in s1.dev && s1 == s.(dev := s.dev[a := s.dev[a].(info := s1.dev[a].info)])
    requires t.devices == (s.devices - {name})[name := b] && t.dev == s1.dev[b := t.dev[b]]
    ensures forall n :: n in s.devices && n != name ==>
              n in t.devices && t.devices[n] == s.devices[n] && t.devices[n] in t.dev
              && t.dev[t.devices[n]].profile == s.dev[s.devices[n]].profile
    ensures forall n :: n in t.devices ==> n == name || n in s.devices
  {
  }

  /** Each device that populating adds holds the data of the first request listed under its name, one
      reference and a full allowance, and uses a live profile of the name that request asks for. */
  lemma {:induction false} PopulatedEffect(s: State, devs: seq<Request>, retries: int, n: Name) returns (i: nat)
    requires Inv(s) && n !in s.devices && n in Populated(s, devs, retries).devices
    ensures FirstListed(devs, i, n) && Holds(Populated(s, devs, retries), n, devs[i], retries)
  {
    hide TablesSound, RefsExact, TableProfiles, SingleOwner, AddLocked, Holds, FirstListed;
    var last := |devs| - 1;
    var front, r := devs[..last], devs[last];
    var t := Populated(s, front, retries);
    PopulatedKeeps(s, front, retries);
    if n in t.devices {
      i := PopulatedEffect(s, front, retries, n);
      ListedOn(devs, i, n);
      if r.name !in t.devices { HoldsOn(t, n, front[i], r, retries); }
    } else {
      AddedNames(t, r, retries);
      HoldsNew(t, r, retries);
      i := last;
      assert devs == front + [r];
      ListedLast(front, r);
    }
  }

  lemma ListedOn(devs: seq<Request>, i: int, n: Name)
    requires devs != [] && FirstListed(devs[..|devs| - 1], i, n)
    ensures FirstListed(devs, i, n) && 0 <= i < |devs| - 1 && devs[..|devs| - 1][i] == devs[i]
  {
  }

  lemma ListedLast(front: seq<Request>, r: Request)
    requires !exists i :: 0 <= i < |front| && front[i].name == r.name
    ensures FirstListed(front + [r], |front|, r.name)
  {
  }

  predicate FirstListed(devs: seq<Request>, i: int, n: Name) {
    0 <= i < |devs| && devs[i].name == n && forall j :: 0 <= j < i ==> devs[j].name != n
  }

  ghost predicate Holds(t: State, n: Name, r: Request, retries: int) {
    && n in t.devices && t.devices[n] in t.dev && r.profile.name in t.profiles
    && t.dev[t.devices[n]] == Device(n, r.info, t.profiles[r.profile.name], 1, retries, false)
    && t.profiles[r.profile.name] in t.prof && t.prof[t.profiles[r.profile.name]].name == r.profile.name
  }

  lemma HoldsOn(t: State, n: Name, r: Request, more: Request, retries: int)
    requires Inv(t) && Holds(t, n, r, retries) && more.name !in t.devices
    ensures Holds(AddLocked(t, more, retries), n, r, retries)
  {
    hide RefsExact, TableProfiles, SingleOwner, AddLocked;
    AddEffect(t, more, retries);
  }

  lemma HoldsNew(t: State, r: Request, retries: int)
    requires Inv(t) && r.name !in t.devices
    ensures Holds(AddLocked(t, r, retries), r.name, r, retries)
  {
    hide RefsExact, TableProfiles, SingleOwner, AddLocked;
    AddEffect(t, r, retries);
  }

  lemma AddedNames(t: State, r: Request, retries: int)
    ensures forall n :: n in AddLocked(t, r, retries).devices ==> n == r.name || n in t.devices
  {
  }
}
