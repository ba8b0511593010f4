/** Runs in which profiles are added without regard to what is registered. The test for the name in
    profiles.c and the addition are two critical sections, so another thread may register the name in
    between and be overwritten. Profiles may then be left without an owner, but nothing is freed twice
    and no device in the table loses its profile. */
module RegistryUnchecked {
  import opened Registry
  import opened RegistryInvariant
  import opened RegistryRuns

  // ---------------------------------------------------------------- each step keeps safety

  lemma LookupSafe(s: State, name: Name)
    requires Safe(s)
    ensures Safe(Lookup(s, name))
  {
    hide InTable, Registered, Owns;
    TableMeanings(s);
    if name in s.devices {
      LookupTables(s, name);
      LookupView(s, name);
      hide TablesSound, RefsExact;
      Meanings(s);
      Meanings(Lookup(s, name));
    }
  }

  lemma ReleaseSafe(s: State, a: Addr)
    requires Safe(s) && a in s.held && a in s.dev
    ensures Safe(Release(s, a))
  {
    hide InTable, Registered, Owns, TablesSound, RefsExact;
    ReleaseTables(s, a);
    ReleaseRefs(s, a);
    ReleaseUse(s, a);
  }

  lemma ReleaseUse(s: State, a: Addr)
    requires Safe(s) && a in s.held && a in s.dev
    ensures UsedLive(Release(s, a)) && OwnedApart(Release(s, a))
  {
    hide InTable, Registered, Owns, TablesSound, RefsExact;
    ReleaseView(s, a);
    var t, d := Release(s, a), s.dev[a];
    Meanings(s);
    Meanings(t);
    if d.refs == 1 && d.ownprofile {
      assert Owns(s, a, d.profile);
    }
    assert forall b :: b in t.dev ==>
        t.dev[b].profile == s.dev[b].profile && t.dev[b].ownprofile == s.dev[b].ownprofile;
  }

  lemma AddSafe(s: State, r: Request, retries: int)
    requires Safe(s) && r.name !in s.devices
    ensures Safe(AddLocked(s, r, retries))
  {
    hide TablesSound, RefsExact, UsedLive, OwnedApart;
    AddTables(s, r, retries);
    AddRefs(s, r, retries);
    AddUse(s, r, retries);
  }

  lemma AddedDevice(s: State, r: Request, retries: int)
    ensures var t := AddLocked(s, r, retries); s.next in t.dev && !t.dev[s.next].ownprofile
  {
  }

  lemma OwnedOld(s: State)
    requires TablesSound(s) && OwnedApart(s)
    ensures forall a: Addr, p: Addr :: Owns(s, a, p) ==> p < s.next
  {
    hide InTable, Registered, Owns;
  }

  lemma AddUse(s: State, r: Request, retries: int)
    requires TablesSound(s) && UsedLive(s) && OwnedApart(s) && r.name !in s.devices
    ensures UsedLive(AddLocked(s, r, retries)) && OwnedApart(AddLocked(s, r, retries))
  {
    hide InTable, Registered, Owns, TablesSound, AddLocked;
    var t := AddLocked(s, r, retries);
    AddedDevice(s, r, retries);
    AddView(s, r, retries);
    AddFrame(s, r, retries);
    OwnedOld(s);
    Meanings(s);
    Meanings(t);
    assert UsedLive(t);
    assert OwnedApart(t);
  }

  lemma {:induction false} PopulatedSafe(s: State, devs: seq<Request>, retries: int)
    requires Safe(s)
    ensures Safe(Populated(s, devs, retries)) && OnlyAllocates(s, Populated(s, devs, retries))
  {
    hide TablesSound, RefsExact, UsedLive, OwnedApart, AddLocked;
    if devs != [] {
      var last := |devs| - 1;
      PopulatedSafe(s, devs[..last], retries);
      var t := Populated(s, devs[..last], retries);
      if devs[last].name !in t.devices {
        AddSafe(t, devs[last], retries);
        AddAllocates(t, devs[last], retries);
      }
    }
  }

  lemma DetachSafe(s: State, name: Name)
    requires Safe(s) && name in s.devices
    ensures Safe(Detach(s, name))
  {
    hide InTable, Registered, Owns;
    DetachTables(s, name);
    DetachView(s, name);
    hide TablesSound, RefsExact;
    Meanings(s);
    Meanings(Detach(s, name));
  }

  lemma InfoSafe(s: State, a: Addr, info: Info)
    requires Safe(s) && a in s.dev
    ensures Safe(s.(dev := s.dev[a := s.dev[a].(info := info)]))
  {
    var t := s.(dev := s.dev[a := s.dev[a].(info := info)]);
    assert forall b :: InTable(t, b) <==> InTable(s, b);
    assert forall p :: Registered(t, p) <==> Registered(s, p);
    assert forall b, p :: Owns(t, b, p) <==> Owns(s, b, p);
    InfoSafeView(s, t);
  }

  /** Objects whose counts, names, profiles and ownership are unchanged. */
  lemma InfoSafeView(s: State, t: State)
    requires Safe(s) && t == s.(dev := t.dev) && t.dev.Keys == s.dev.Keys
    requires forall b :: b in s.dev ==> t.dev[b] == s.dev[b].(info := t.dev[b].info)
    requires forall b :: InTable(t, b) <==> InTable(s, b)
    requires forall p :: Registered(t, p) <==> Registered(s, p)
    requires forall b, p :: Owns(t, b, p) <==> Owns(s, b, p)
    ensures Safe(t)
  {
    hide InTable, Registered, Owns;
    Meanings(s);
    assert TablesSound(t);
    assert RefsExact(t);
    hide TablesSound, RefsExact;
    assert UsedLive(t);
    assert OwnedApart(t);
  }

  lemma HandOverView(s: State, a: Addr)
    requires TablesSound(s) && a in s.dev && !InTable(s, a) && s.dev[a].profile in s.prof
    requires LastUser(s, s.dev[a].profile)
    ensures var t, q := ReleaseProfileLocked(s, a), s.dev[a].profile;
            && (forall b :: InTable(t, b) <==> InTable(s, b))
            && (forall b :: InTable(s, b) ==> s.dev[b].profile != q)
            && (forall p :: Registered(t, p) ==> p != q && Registered(s, p))
            && (forall b, p :: Owns(t, b, p) <==> (b != a && Owns(s, b, p)) || (b == a && p == q))
  {
  }

  /** The name is unregistered even if another profile bears it by now. */
  lemma HandOverSafe(s: State, a: Addr)
    requires Safe(s) && a in s.dev && !InTable(s, a) && s.dev[a].profile in s.prof
    requires forall b :: !Owns(s, b, s.dev[a].profile)
    ensures Safe(ReleaseProfileLocked(s, a))
  {
    hide InTable, Registered, Owns, LastUser;
    if LastUser(s, s.dev[a].profile) {
      HandOverView(s, a);
      Meanings(s);
      var t := ReleaseProfileLocked(s, a);
      Meanings(t);
      assert TablesSound(t);
      assert RefsExact(t);
      hide TablesSound, RefsExact;
      assert UsedLive(t);
      assert OwnedApart(t);
    }
  }

  lemma RemoveSafe(s: State, name: Name)
    requires Safe(s) && (name in s.devices ==> s.devices[name] in s.dev && s.dev[s.devices[name]].profile in s.prof)
    ensures Safe(Remove(s, name))
  {
    hide InTable, Registered, Owns, LastUser, TablesSound, RefsExact, UsedLive;
    if name in s.devices {
      DetachView(s, name);
      DetachSafe(s, name);
      HandOverSafe(Detach(s, name), s.devices[name]);
    }
  }

  lemma ReplaceSafe(s: State, r: Request, fails: int)
    requires Safe(s) && (r.name in s.devices ==> s.dev[s.devices[r.name]].profile in s.prof)
    ensures Safe(Replace(s, r, fails))
  {
    hide InPlace, UpdatedInfo, RefsExact, UsedLive, OwnedApart, LastUser, InTable, Registered, Owns, AddLocked;
    if r.name !in s.devices {
      AddSafe(s, r, fails);
    } else {
      var a := s.devices[r.name];
      var d := s.dev[a];
      var name := s.prof[d.profile].name;
      var s1 := s.(dev := s.dev[a := d.(info := UpdatedInfo(d.info, name, r))]);
      InfoSafe(s, a, UpdatedInfo(d.info, name, r));
      if !InPlace(d.info, name, r) {
        SupersededSafe(s1, a, r, d.retries);
      }
    }
  }

  lemma SupersededSafe(s: State, a: Addr, r: Request, retries: int)
    requires Safe(s) && r.name in s.devices && s.devices[r.name] == a
    ensures var t := AddLocked(Detach(s, r.name), r, retries);
            && Safe(t) && a in t.dev && t.dev[a].profile in t.prof
            && Safe(ReleaseProfileLocked(t, a))
  {
    hide InTable, Registered, Owns, LastUser, AddLocked, RefsExact;
    var s1 := Detach(s, r.name);
    var t := AddLocked(s1, r, retries);
    DetachView(s, r.name);
    DetachSafe(s, r.name);
    AddView(s1, r, retries);
    AddSafe(s1, r, retries);
    AddFrame(s1, r, retries);
    HandOverSafe(t, a);
  }

  lemma OverwriteView(s: State, p: Profile)
    requires TablesSound(s)
    ensures TablesSound(AddProfile(s, p))
    ensures forall q :: Registered(AddProfile(s, p), q) ==> q == s.next || Registered(s, q)
  {
  }

  lemma AddProfileSafe(s: State, p: Profile)
    requires Safe(s)
    ensures Safe(AddProfile(s, p))
  {
    hide InTable, Registered, Owns;
    var t := AddProfile(s, p);
    AddProfileView(s, p);
    OverwriteView(s, p);
    Meanings(s);
    assert RefsExact(t);
    hide RefsExact;
    assert UsedLive(t);
    assert OwnedApart(t);
  }

  lemma UpdateProfileSafe(s: State, p: Profile)
    requires Safe(s)
    ensures Safe(UpdateProfile(s, p))
  {
    hide TablesSound, RefsExact, UsedLive, OwnedApart, InTable;
    if p.name !in s.profiles {
      AddProfileSafe(s, p);
    } else {
      UpdateProfileTables(s, p);
      UpdateProfileRefs(s, p);
      UpdateUse(s, p);
    }
  }

  lemma UpdateUse(s: State, p: Profile)
    requires TablesSound(s) && UsedLive(s) && OwnedApart(s) && p.name in s.profiles
    ensures UsedLive(UpdateProfile(s, p)) && OwnedApart(UpdateProfile(s, p))
  {
    hide InTable, Registered, Owns, TablesSound;
    UpdateProfileView(s, p);
    OwnedOld(s);
    Meanings(s);
    Meanings(UpdateProfile(s, p));
  }

  lemma ClearSafe(s: State)
    requires Safe(s)
    ensures Safe(Clear(s))
  {
    hide InTable, Registered, Owns, TablesSound, RefsExact;
    ClearTables(s);
    ClearView(s);
  }

  // ---------------------------------------------------------------- unchecked runs

  /** Only a release is restricted, to holders. */
  predicate Permitted(s: State, step: Step) {
    step.ReleaseStep? ==> step.a in s.held
  }

  lemma TakenSafe(s: State, step: Step)
    requires Safe(s) && Permitted(s, step)
    ensures Safe(Taken(s, step))
  {
    hide TablesSound, UsedLive, OwnedApart;
    hide Lookup, Release, Replace, Remove, Populated, AddProfile, UpdateProfile, Clear;
    SafeProfiles(s);
    match step
    case LookupStep(name) => LookupSafe(s, name);
    case ReleaseStep(a) => ReleaseSafe(s, a);
    case ReplaceStep(r, fails) => ReplaceSafe(s, r, fails);
    case PopulateStep(devs, fails) => PopulatedSafe(s, devs, fails);
    case RemoveStep(name) => RemoveSafe(s, name);
    case AddProfileStep(p) => AddProfileSafe(s, p);
    case UpdateProfileStep(p) => UpdateProfileSafe(s, p);
    case ClearStep => ClearSafe(s);
  }

  /** A run of interleaved steps from the empty registry, additions unchecked. */
  ghost predicate IsUncheckedRun(states: seq<State>, steps: seq<Step>) {
    && |states| == |steps| + 1 && states[0] == INITIAL
    && forall i :: 0 <= i < |steps| ==>
         Safe(states[i]) ==> Permitted(states[i], steps[i]) && states[i + 1] == Taken(states[i], steps[i])
  }

  /** Over every such run: reference counts are exact, every device in the table has its profile, and
      an owned profile has one owner and is neither registered nor used by a device in the table. */
  lemma {:induction false} UncheckedRunSafe(states: seq<State>, steps: seq<Step>, i: nat)
    requires IsUncheckedRun(states, steps) && i < |states|
    ensures Safe(states[i])
  {
    if i > 0 {
      UncheckedRunSafe(states, steps, i - 1);
      TakenSafe(states[i - 1], steps[i - 1]);
    }
  }

  lemma UncheckedStep(states: seq<State>, steps: seq<Step>, i: nat)
    requires IsUncheckedRun(states, steps) && i < |steps|
    ensures Safe(states[i]) && Permitted(states[i], steps[i]) && states[i + 1] == Taken(states[i], steps[i])
  {
    hide Safe, Permitted, Taken;
    UncheckedRunSafe(states, steps, i);
    var s, step, t := states[i], steps[i], states[i + 1];
  }

  /** The checked runs are among them. */
  lemma CheckedIsUnchecked(states: seq<State>, steps: seq<Step>)
    requires IsRun(states, steps)
    ensures IsUncheckedRun(states, steps)
  {
    hide Inv, Safe, Taken;
    forall i | 0 <= i < |steps| && Safe(states[i])
      ensures Permitted(states[i], steps[i]) && states[i + 1] == Taken(states[i], steps[i])
    {
      RunStep(states, steps, i);
    }
  }

  lemma TakenLifetimes(s: State, step: Step)
    requires Safe(s) && Permitted(s, step)
    ensures var t := Taken(s, step);
            && s.next <= t.next
            && (forall a :: a in t.dev && a !in s.dev ==> s.next <= a)
            && (forall p :: p in t.prof && p !in s.prof ==> s.next <= p)
  {
    hide Replace, Remove, Populated, InTable, Registered, Owns, UsedLive, OwnedApart;
    SafeProfiles(s);
    match step
    case ReplaceStep(r, fails) => ReplaceAllocates(s, r, fails);
    case PopulateStep(devs, fails) => PopulatedSafe(s, devs, fails);
    case RemoveStep(name) => RemoveFreesNothing(s, name);
    case _ =>
  }

  lemma {:induction false} UncheckedFreedForever(states: seq<State>, steps: seq<Step>, i: nat, j: nat, a: Addr)
    requires IsUncheckedRun(states, steps) && i <= j < |states| && a < states[i].next
    ensures a < states[j].next
    ensures a !in states[i].dev ==> a !in states[j].dev
    ensures a !in states[i].prof ==> a !in states[j].prof
  {
    hide Safe, Permitted, Taken;
    if i < j {
      UncheckedFreedForever(states, steps, i, j - 1, a);
      UncheckedRunSafe(states, steps, j - 1);
      assert states[j - 1 + 1] == states[j];
      TakenLifetimes(states[j - 1], steps[j - 1]);
    }
  }

  /** Whatever is added: an object freed once is never live again, so nothing is freed twice. A freed
      device is neither held nor in the table; a freed profile is neither registered, nor owned, nor
      used by any device in the table. */
  lemma UncheckedLifetimes(states: seq<State>, steps: seq<Step>, i: nat, j: nat, a: Addr)
    requires IsUncheckedRun(states, steps) && i < j < |states|
    ensures a in states[i].dev && a !in states[i + 1].dev ==>
              a !in states[j].dev && states[j].held[a] == 0 && !InTable(states[j], a)
    ensures a in states[i].prof && a !in states[i + 1].prof ==>
              && a !in states[j].prof && !Registered(states[j], a)
              && forall b :: !Owns(states[j], b, a) && (InTable(states[j], b) ==> states[j].dev[b].profile != a)
  {
    hide Taken, Permitted;
    UncheckedStep(states, steps, i);
    UncheckedRunSafe(states, steps, j);
    TakenLifetimes(states[i], steps[i]);
    if a < states[i].next {
      UncheckedFreedForever(states, steps, i + 1, j, a);
    }
  }

  /** Adding over a registered name is possible, and what it costs is the owner: the old profile stays
      live, registered nowhere and owned by nobody, until a device that uses it is the last to go. */
  lemma OverwrittenProfileOrphaned(s: State, p: Profile)
    requires Inv(s) && p.name in s.profiles
    ensures var q, t := s.profiles[p.name], AddProfile(s, p);
            && Safe(t) && q in t.prof && !Registered(t, q) && forall b :: !Owns(t, b, q)
  {
    InvIsSafe(s);
    AddProfileSafe(s, p);
    AddProfileView(s, p);
    assert Registered(s, s.profiles[p.name]);
  }
}
