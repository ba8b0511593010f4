/** Every step of the registry keeps its invariant. */
module RegistryInvariant {
  import opened Registry

  /** What the three relations entail, for proofs that keep their definitions out of sight. */
  lemma Meanings(s: State)
    ensures forall a :: InTable(s, a) ==> a in s.dev
    ensures forall p :: Registered(s, p) ==> p in s.prof
    ensures forall a, p :: Owns(s, a, p) <==> a in s.dev && s.dev[a].ownprofile && s.dev[a].profile == p
  {
  }

  lemma TableMeanings(s: State)
    requires TablesSound(s)
    ensures forall n :: n in s.devices ==> InTable(s, s.devices[n])
    ensures forall n :: n in s.profiles ==> Registered(s, s.profiles[n])
  {
  }

  lemma InvProfiles(s: State)
    requires Inv(s)
    ensures forall n :: n in s.devices ==> s.devices[n] in s.dev && s.dev[s.devices[n]].profile in s.prof
  {
    TableMeanings(s);
  }

  lemma SafeProfiles(s: State)
    requires TablesSound(s) && UsedLive(s)
    ensures forall n :: n in s.devices ==> s.devices[n] in s.dev && s.dev[s.devices[n]].profile in s.prof
  {
    TableMeanings(s);
  }

  lemma InvIsSafe(s: State)
    requires Inv(s)
    ensures Safe(s)
  {
    hide InTable, Registered, Owns, RefsExact;
    Meanings(s);
  }

  lemma LookupView(s: State, name: Name)
    requires TablesSound(s) && name in s.devices
    ensures var t := Lookup(s, name);
            && InTable(s, s.devices[name])
            && (forall a :: InTable(t, a) <==> InTable(s, a))
            && (forall p :: Registered(t, p) <==> Registered(s, p))
            && (forall a, p :: Owns(t, a, p) <==> Owns(s, a, p))
  {
  }

  lemma LookupKeeps(s: State, name: Name)
    requires Inv(s)
    ensures Inv(Lookup(s, name))
  {
    hide TablesSound, RefsExact, TableProfiles, SingleOwner;
    TableMeanings(s);
    if name in s.devices {
      LookupTables(s, name);
      LookupOwners(s, name);
    }
  }

  lemma LookupTables(s: State, name: Name)
    requires TablesSound(s) && RefsExact(s) && name in s.devices && s.devices[name] in s.dev
    ensures var t := Lookup(s, name); TablesSound(t) && RefsExact(t)
  {
    hide InTable, Registered, Owns;
    LookupView(s, name);
    Meanings(s);
    var t := Lookup(s, name);
    assert TablesSound(t) by {
      hide RefsExact;
      TablesKept(s, t);
    }
    assert RefsExact(t) by { hide TablesSound; }
  }

  lemma LookupOwners(s: State, name: Name)
    requires Inv(s) && name in s.devices
    ensures TableProfiles(Lookup(s, name)) && SingleOwner(Lookup(s, name))
  {
    hide InTable, Registered, Owns, RefsExact;
    LookupView(s, name);
    Meanings(s);
    Meanings(Lookup(s, name));
  }

  lemma LastHolder(s: State, a: Addr)
    requires RefsExact(s) && a in s.held && s.dev[a].refs == 1
    ensures !InTable(s, a)
  {
  }

  lemma ReleaseView(s: State, a: Addr)
    requires Safe(s) && a in s.held
    ensures var t, d := Release(s, a), s.dev[a];
            && (d.refs == 1 ==> !InTable(s, a))
            && (forall b :: InTable(t, b) <==> InTable(s, b))
            && (forall p :: Registered(t, p) <==> Registered(s, p))
            && (forall b, p :: Owns(t, b, p) <==> Owns(s, b, p) && (d.refs == 1 ==> b != a))
  {
    var t, d := Release(s, a), s.dev[a];
    if d.refs == 1 {
      LastHolder(s, a);
      hide RefsExact, UsedLive;
      if d.ownprofile {
        assert Owns(s, a, d.profile);
      }
    }
    hide RefsExact, UsedLive, OwnedApart;
  }

  lemma ReleaseKeeps(s: State, a: Addr)
    requires Inv(s) && a in s.held
    ensures Inv(Release(s, a))
  {
    hide TablesSound, TableProfiles, SingleOwner;
    InvIsSafe(s);
    ReleaseTables(s, a);
    ReleaseProfiles(s, a);
    ReleaseRefs(s, a);
    ReleaseOwners(s, a);
  }

  /** What a release leaves as it was. */
  lemma ReleaseFrame(s: State, a: Addr)
    requires a in s.held && a in s.dev
    ensures var t := Release(s, a);
            && t.devices == s.devices && t.profiles == s.profiles && t.next == s.next
            && (forall b :: b in t.dev ==> b in s.dev && t.dev[b].(refs := s.dev[b].refs) == s.dev[b])
            && (forall p :: p in t.prof ==> p in s.prof && t.prof[p] == s.prof[p])
  {
  }

  /** Tables stay sound while what they point to stays live under the same names. */
  lemma TablesKept(s: State, t: State)
    requires TablesSound(s) && t.devices == s.devices && t.profiles == s.profiles && t.next == s.next
    requires forall b :: b in t.dev ==> b in s.dev && t.dev[b].name == s.dev[b].name
    requires forall p :: p in t.prof ==> p in s.prof && t.prof[p] == s.prof[p]
    requires forall n :: n in s.devices ==> s.devices[n] in t.dev
    requires forall n :: n in s.profiles ==> s.profiles[n] in t.prof
    ensures TablesSound(t)
  {
  }

  lemma ReleaseTables(s: State, a: Addr)
    requires Safe(s) && a in s.held && a in s.dev
    ensures TablesSound(Release(s, a))
  {
    hide Release, TablesSound, InTable, Registered, Owns, RefsExact, UsedLive, OwnedApart;
    ReleaseView(s, a);
    ReleaseFrame(s, a);
    TableMeanings(s);
    Meanings(Release(s, a));
    TablesKept(s, Release(s, a));
  }

  lemma ReleaseProfiles(s: State, a: Addr)
    requires Inv(s) && a in s.held && a in s.dev
    ensures TableProfiles(Release(s, a))
  {
    hide Release, InTable, Registered, Owns, RefsExact, SingleOwner;
    InvIsSafe(s);
    ReleaseView(s, a);
    ReleaseFrame(s, a);
    Meanings(s);
    Meanings(Release(s, a));
  }

  lemma ReleaseRefs(s: State, a: Addr)
    requires Safe(s) && a in s.held
    ensures RefsExact(Release(s, a))
  {
    hide InTable, Registered, Owns, TablesSound, UsedLive, OwnedApart;
    ReleaseView(s, a);
    var t := Release(s, a);
    forall b | b in t.held ensures b in t.dev { }
    forall b | b in t.dev ensures t.dev[b].refs > 0 && t.dev[b].refs == (if InTable(t, b) then 1 else 0) + t.held[b] { }
  }

  lemma ReleaseOwners(s: State, a: Addr)
    requires Inv(s) && a in s.held
    ensures SingleOwner(Release(s, a))
  {
    hide InTable, Registered, Owns, TablesSound, TableProfiles;
    InvIsSafe(s);
    ReleaseView(s, a);
    var t, d := Release(s, a), s.dev[a];
    Meanings(s); Meanings(t);
    forall b | b in t.dev && t.dev[b].ownprofile ensures t.dev[b].profile in t.prof {
      assert Owns(s, b, s.dev[b].profile);
      if d.refs == 1 && d.ownprofile { assert Owns(s, a, d.profile); }
    }
    forall p | p in t.prof && !Registered(t, p) ensures exists b :: Owns(t, b, p) {
      var b :| Owns(s, b, p);
      assert Owns(t, b, p);
    }
  }

  lemma AddView(s: State, r: Request, retries: int)
    requires TablesSound(s) && r.name !in s.devices
    ensures var t := AddLocked(s, r, retries);
            && (forall b :: InTable(t, b) <==> b == s.next || InTable(s, b))
            && (forall p :: Registered(t, p)
                            <==> Registered(s, p) || (r.profile.name !in s.profiles && p == s.next + 1))
            && (forall b, p :: Owns(t, b, p) <==> Owns(s, b, p))
            && Registered(t, t.dev[s.next].profile)
  {
  }

  lemma AddTables(s: State, r: Request, retries: int)
    requires TablesSound(s)
    ensures TablesSound(AddLocked(s, r, retries))
  {
  }

  lemma AddKeeps(s: State, r: Request, retries: int)
    requires Inv(s) && r.name !in s.devices
    ensures Inv(AddLocked(s, r, retries))
  {
    hide InTable, Registered, Owns;
    AddView(s, r, retries);
    AddTables(s, r, retries);
    Meanings(s);
    var t := AddLocked(s, r, retries);
    AddRefs(s, r, retries);
    hide RefsExact;
    assert TableProfiles(t);
    AddOwners(s, r, retries);
  }

  lemma AddRefs(s: State, r: Request, retries: int)
    requires TablesSound(s) && RefsExact(s) && r.name !in s.devices
    ensures RefsExact(AddLocked(s, r, retries))
  {
    AddView(s, r, retries);
    hide InTable;
    var t := AddLocked(s, r, retries);
    assert s.next !in s.held;
  }

  lemma AddOwners(s: State, r: Request, retries: int)
    requires Inv(s) && r.name !in s.devices
    ensures SingleOwner(AddLocked(s, r, retries))
  {
    hide InTable, Registered, Owns, RefsExact, TableProfiles;
    AddView(s, r, retries);
    Meanings(s);
    var t := AddLocked(s, r, retries);
    assert forall a: Addr, p: Addr :: Owns(s, a, p) ==> p < s.next;
    forall p | p in t.prof && !Registered(t, p) ensures exists b :: Owns(t, b, p) {
      var b :| Owns(s, b, p);
      assert Owns(t, b, p);
    }
  }

  /** What adding a device leaves as it was. */
  lemma AddFrame(s: State, r: Request, retries: int)
    requires TablesSound(s)
    ensures var t := AddLocked(s, r, retries);
            && t.devices == s.devices[r.name := s.next] && s.next <= t.next
            && (forall a :: a in s.dev ==> a in t.dev && t.dev[a] == s.dev[a])
            && (forall p :: p in s.prof ==> p in t.prof && t.prof[p] == s.prof[p])
            && (forall a :: a in t.dev && a !in s.dev ==> s.next <= a)
            && (forall p :: p in t.prof && p !in s.prof ==> s.next <= p)
  {
  }

  /** Populating keeps the invariant: known devices and profiles stay as they are, and afterwards
      exactly the known and the listed names are in the table. */
  lemma {:induction false} PopulatedKeeps(s: State, devs: seq<Request>, retries: int)
    requires Inv(s)
    ensures var t := Populated(s, devs, retries);
            && Inv(t) && s.next <= t.next
            && (forall n :: n in t.devices <==> n in s.devices || exists i :: 0 <= i < |devs| && devs[i].name == n)
            && (forall n :: n in s.devices ==> t.devices[n] == s.devices[n])
            && (forall a :: a in s.dev ==> a in t.dev && t.dev[a] == s.dev[a])
            && (forall p :: p in s.prof ==> p in t.prof && t.prof[p] == s.prof[p])
            && (forall a :: a in t.dev && a !in s.dev ==> s.next <= a)
            && (forall p :: p in t.prof && p !in s.prof ==> s.next <= p)
  {
    hide TablesSound, RefsExact, TableProfiles, SingleOwner, AddLocked;
    if devs != [] {
      var last := |devs| - 1;
      PopulatedKeeps(s, devs[..last], retries);
      var t := Populated(s, devs[..last], retries);
      if devs[last].name !in t.devices {
        AddKeeps(t, devs[last], retries);
        AddFrame(t, devs[last], retries);
      }
      assert forall i :: 0 <= i < last ==> devs[..last][i] == devs[i];
    }
  }

  lemma DetachView(s: State, name: Name)
    requires TablesSound(s) && name in s.devices
    ensures var t := Detach(s, name);
            && InTable(s, s.devices[name])
            && (forall b :: InTable(t, b) <==> b != s.devices[name] && InTable(s, b))
            && (forall p :: Registered(t, p) <==> Registered(s, p))
            && (forall b, p :: Owns(t, b, p) <==> Owns(s, b, p))
  {
  }

  lemma DetachKeeps(s: State, name: Name)
    requires Inv(s) && name in s.devices
    ensures Inv(Detach(s, name))
  {
    hide InTable, Registered, Owns;
    DetachTables(s, name);
    DetachView(s, name);
    Meanings(s);
    var t := Detach(s, name);
    hide TablesSound, RefsExact;
    assert TableProfiles(t);
    assert SingleOwner(t);
  }

  lemma DetachTables(s: State, name: Name)
    requires TablesSound(s) && RefsExact(s) && name in s.devices
    ensures TablesSound(Detach(s, name)) && RefsExact(Detach(s, name))
  {
    hide InTable, Registered, Owns;
    DetachView(s, name);
    Meanings(s);
  }

  lemma InfoKeeps(s: State, a: Addr, info: Info)
    requires Inv(s) && a in s.dev
    ensures Inv(s.(dev := s.dev[a := s.dev[a].(info := info)]))
  {
    var t := s.(dev := s.dev[a := s.dev[a].(info := info)]);
    assert forall b :: InTable(t, b) <==> InTable(s, b);
    assert forall p :: Registered(t, p) <==> Registered(s, p);
    assert forall b, p :: Owns(t, b, p) <==> Owns(s, b, p);
    InfoKeepsView(s, t);
  }

  /** Objects whose counts, names, profiles and ownership are unchanged. */
  lemma InfoKeepsView(s: State, t: State)
    requires Inv(s) && t == s.(dev := t.dev) && t.dev.Keys == s.dev.Keys
    requires forall b :: b in s.dev ==> t.dev[b] == s.dev[b].(info := t.dev[b].info)
    requires forall b :: InTable(t, b) <==> InTable(s, b)
    requires forall p :: Registered(t, p) <==> Registered(s, p)
    requires forall b, p :: Owns(t, b, p) <==> Owns(s, b, p)
    ensures Inv(t)
  {
    hide InTable, Registered, Owns;
    Meanings(s);
    assert TablesSound(t);
    assert RefsExact(t);
    assert TableProfiles(t);
    assert SingleOwner(t);
  }

  lemma ReleaseProfileView(s: State, a: Addr)
    requires Inv(s) && a in s.dev && !InTable(s, a) && !s.dev[a].ownprofile && Registered(s, s.dev[a].profile)
    requires LastUser(s, s.dev[a].profile)
    ensures var t, q := ReleaseProfileLocked(s, a), s.dev[a].profile;
            && (forall b :: InTable(t, b) <==> InTable(s, b))
            && (forall b :: InTable(s, b) ==> s.dev[b].profile != q)
            && (forall p :: Registered(t, p) <==> p != q && Registered(s, p))
            && (forall b, p :: Owns(t, b, p) <==> Owns(s, b, p) || (b == a && p == q))
  {
  }

  lemma ReleaseProfileOwners(s: State, a: Addr)
    requires Inv(s) && a in s.dev && !InTable(s, a) && !s.dev[a].ownprofile && Registered(s, s.dev[a].profile)
    requires LastUser(s, s.dev[a].profile)
    ensures SingleOwner(ReleaseProfileLocked(s, a))
  {
    hide InTable, Registered, Owns, LastUser, RefsExact, TablesSound, TableProfiles;
    ReleaseProfileView(s, a);
    Meanings(s);
    var t, q := ReleaseProfileLocked(s, a), s.dev[a].profile;
    Meanings(t);
    forall p | p in t.prof && !Registered(t, p) ensures exists b :: Owns(t, b, p) {
      if p == q {
        assert Owns(t, a, p);
      } else {
        var b :| Owns(s, b, p);
        assert Owns(t, b, p);
      }
    }
  }

  lemma ReleaseProfileKeeps(s: State, a: Addr)
    requires Inv(s) && a in s.dev && !InTable(s, a) && !s.dev[a].ownprofile && Registered(s, s.dev[a].profile)
    ensures Inv(ReleaseProfileLocked(s, a))
  {
    hide InTable, Registered, Owns, LastUser;
    Meanings(s);
    if LastUser(s, s.dev[a].profile) {
      ReleaseProfileView(s, a);
      ReleaseProfileOwners(s, a);
      hide SingleOwner;
      var t := ReleaseProfileLocked(s, a);
      assert TablesSound(t);
      assert RefsExact(t);
      assert TableProfiles(t);
    }
  }

  lemma RemoveKeeps(s: State, name: Name)
    requires Inv(s)
    ensures Inv(Remove(s, name))
  {
    if name in s.devices {
      DetachView(s, name);
      DetachKeeps(s, name);
      ReleaseProfileKeeps(Detach(s, name), s.devices[name]);
    }
  }

  lemma ReplaceKeeps(s: State, r: Request, allowedFails: int)
    requires Inv(s)
    ensures Inv(Replace(s, r, allowedFails))
  {
    if r.name !in s.devices {
      AddKeeps(s, r, allowedFails);
    } else {
      hide InPlace, UpdatedInfo;
      var a := s.devices[r.name];
      var d := s.dev[a];
      assert InTable(s, a);
      var name := s.prof[d.profile].name;
      var s1 := s.(dev := s.dev[a := d.(info := UpdatedInfo(d.info, name, r))]);
      InfoKeeps(s, a, UpdatedInfo(d.info, name, r));
      if !InPlace(d.info, name, r) {
        ReplacedKeeps(s1, a, r, d.retries);
      }
    }
  }

  /** Out with the old device, in with the new, and the old profile with it when nothing uses it. */
  lemma ReplacedKeeps(s: State, a: Addr, r: Request, retries: int)
    requires Inv(s) && r.name in s.devices && s.devices[r.name] == a
    ensures var t := AddLocked(Detach(s, r.name), r, retries);
            && Inv(t) && a in t.dev && t.dev[a].profile in t.prof
            && Inv(ReleaseProfileLocked(t, a))
  {
    var s1 := Detach(s, r.name);
    var t := AddLocked(s1, r, retries);
    DetachView(s, r.name);
    DetachKeeps(s, r.name);
    AddView(s1, r, retries);
    AddKeeps(s1, r, retries);
    ReleaseProfileKeeps(t, a);
  }

  lemma AddProfileView(s: State, p: Profile)
    requires TablesSound(s)
    ensures var t := AddProfile(s, p);
            && (forall b :: InTable(t, b) <==> InTable(s, b))
            && (forall b, q :: Owns(t, b, q) <==> Owns(s, b, q))
            && (p.name !in s.profiles ==> forall q :: Registered(t, q) <==> q == s.next || Registered(s, q))
            && (p.name in s.profiles ==> !Registered(t, s.profiles[p.name]))
  {
  }

  lemma AddProfileKeeps(s: State, p: Profile)
    requires Inv(s) && p.name !in s.profiles
    ensures Inv(AddProfile(s, p))
  {
    hide InTable, Registered, Owns;
    AddProfileView(s, p);
    var t := AddProfile(s, p);
    Meanings(s);
    GainedProfile(s, t, s.next);
    hide SingleOwner;
    assert TablesSound(t);
    assert RefsExact(t);
    assert TableProfiles(t);
  }

  /** Adding a profile keeps the invariant exactly when its name was not registered: otherwise the
      overwritten profile is left without an owner. */
  lemma AddProfileKeepsIff(s: State, p: Profile)
    requires Inv(s)
    ensures Inv(AddProfile(s, p)) <==> p.name !in s.profiles
  {
    if p.name in s.profiles {
      var q, t := s.profiles[p.name], AddProfile(s, p);
      assert Registered(s, q);
      AddProfileView(s, p);
      hide InTable, Registered, Owns, RefsExact, TableProfiles;
      assert q in t.prof && !Registered(t, q) && forall b :: !Owns(t, b, q);
    } else {
      AddProfileKeeps(s, p);
    }
  }

  /** Ownership when one new profile joins the table. */
  lemma GainedProfile(s: State, t: State, fresh': Addr)
    requires SingleOwner(s) && t.dev == s.dev && t.prof.Keys == s.prof.Keys + {fresh'} && fresh' !in s.prof
    requires forall q :: Registered(t, q) <==> q == fresh' || Registered(s, q)
    requires forall b, q :: Owns(t, b, q) <==> Owns(s, b, q)
    ensures SingleOwner(t)
  {
    Meanings(s);
    hide Registered, Owns;
    forall q | q in t.prof && !Registered(t, q) ensures exists b :: Owns(t, b, q) {
      var b :| Owns(s, b, q);
      assert Owns(t, b, q);
    }
  }

  lemma UpdateProfileView(s: State, p: Profile)
    requires TablesSound(s) && UsedLive(s) && p.name in s.profiles
    ensures var t, was := UpdateProfile(s, p), s.profiles[p.name];
            && Registered(s, was) && was != s.next
            && (forall b :: InTable(t, b) <==> InTable(s, b))
            && (forall q :: Registered(t, q) <==> q == s.next || (q != was && Registered(s, q)))
            && (forall b, q :: Owns(t, b, q) <==> Owns(s, b, q))
  {
    var was := s.profiles[p.name];
    assert Registered(s, was);
  }

  lemma UpdateProfileOwners(s: State, p: Profile)
    requires Inv(s) && p.name in s.profiles
    ensures SingleOwner(UpdateProfile(s, p))
  {
    hide InTable, Registered, Owns, RefsExact;
    InvIsSafe(s);
    UpdateProfileView(s, p);
    var t, was := UpdateProfile(s, p), s.profiles[p.name];
    Meanings(s); Meanings(t);
    forall b | b in t.dev && t.dev[b].ownprofile ensures t.dev[b].profile in t.prof {
      assert Owns(t, b, t.dev[b].profile);
      assert Owns(s, b, t.dev[b].profile);
    }
    forall q | q in t.prof && !Registered(t, q) ensures exists b :: Owns(t, b, q) {
      var b :| Owns(s, b, q);
      assert Owns(t, b, q);
    }
  }

  lemma UpdateProfileTables(s: State, p: Profile)
    requires TablesSound(s) && p.name in s.profiles
    ensures TablesSound(UpdateProfile(s, p))
  {
    hide InTable;
  }

  lemma UpdateProfileRefs(s: State, p: Profile)
    requires TablesSound(s) && RefsExact(s) && UsedLive(s) && p.name in s.profiles
    ensures RefsExact(UpdateProfile(s, p))
  {
    hide InTable, Registered, Owns, TablesSound, UsedLive;
    UpdateProfileView(s, p);
    Meanings(s);
  }

  lemma UpdateProfileUse(s: State, p: Profile)
    requires Inv(s) && p.name in s.profiles
    ensures TableProfiles(UpdateProfile(s, p))
  {
    hide InTable, Registered, Owns, SingleOwner, TablesSound, RefsExact;
    InvIsSafe(s);
    UpdateProfileView(s, p);
    Meanings(s);
  }

  lemma UpdateProfileKeeps(s: State, p: Profile)
    requires Inv(s)
    ensures Inv(UpdateProfile(s, p))
  {
    if p.name !in s.profiles {
      AddProfileKeepsIff(s, p);
    } else {
      InvIsSafe(s);
      UpdateProfileTables(s, p);
      UpdateProfileRefs(s, p);
      UpdateProfileUse(s, p);
      UpdateProfileOwners(s, p);
    }
  }

  lemma ClearView(s: State)
    requires Safe(s)
    ensures var t := Clear(s);
            && (forall b :: !InTable(t, b))
            && (forall q :: Registered(t, q) <==> Registered(s, q))
            && (forall b, q :: Owns(t, b, q) <==> Owns(s, b, q))
  {
  }

  lemma ClearKeeps(s: State)
    requires Inv(s)
    ensures Inv(Clear(s))
  {
    hide InTable, Registered, Owns;
    InvIsSafe(s);
    ClearTables(s);
    ClearView(s);
    ClearOwners(s);
    hide SingleOwner, TablesSound, RefsExact;
    assert TableProfiles(Clear(s));
  }

  lemma ClearTables(s: State)
    requires Safe(s)
    ensures TablesSound(Clear(s)) && RefsExact(Clear(s))
  {
    hide InTable, Registered, Owns, UsedLive, OwnedApart;
    ClearView(s);
    Meanings(s);
    Meanings(Clear(s));
  }

  lemma ClearOwners(s: State)
    requires Inv(s)
    ensures SingleOwner(Clear(s))
  {
    hide InTable, Registered, Owns;
    InvIsSafe(s);
    ClearView(s);
    var t := Clear(s);
    Meanings(s);
    Meanings(t);
    forall q | q in t.prof && !Registered(t, q) ensures exists b :: Owns(t, b, q) {
      var b :| Owns(s, b, q);
      assert Owns(t, b, q);
    }
  }
}
