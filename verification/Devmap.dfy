/** devmap.c as it runs: the tables and objects updated in place by loops, each critical section
    shown to take exactly the step of the protocol in `Registry` and to keep its invariant. Allocated
    objects live in the maps `dev` and `prof`, keyed by address. Every access and every free requires
    its address to be live, so that no use after free or double free can verify. */
module Devmap {
  import opened ListEquality
  import opened Registry
  import opened RegistryInvariant
  import opened RegistryRuns

  lemma TableUnchanged(s: State, t: State)
    requires t.devices == s.devices && t.dev == s.dev
    ensures forall a :: InTable(t, a) <==> InTable(s, a)
  {
  }

  class DeviceMap {
    var devices: map<Name, Addr>
    var profiles: map<Name, Addr>
    var dev: map<Addr, Device>
    var prof: map<Addr, Profile>
    var next: Addr
    ghost var held: multiset<Addr>

    ghost function View(): State
      reads this
    {
      State(devices, profiles, dev, prof, held, next)
    }

    constructor ()
      ensures View() == INITIAL && Inv(View())
    {
      devices, profiles, dev, prof, next, held := map[], map[], map[], map[], 0, multiset{};
    }

    /** edgex_device_free, of a device that is live. */
    method FreeDevice(a: Addr)
      requires a in dev
      modifies this`dev
      ensures dev == old(dev) - {a}
    {
      dev := dev - {a};
    }

    /** edgex_deviceprofile_free, of a profile that is live. */
    method FreeProfile(p: Addr)
      requires p in prof
      modifies this`prof
      ensures prof == old(prof) - {p}
    {
      prof := prof - {p};
    }

    /** edgex_devmap_device_byname. */
    method DeviceByName(name: Name) returns (found: bool, a: Addr)
      requires Inv(View())
      modifies this
      ensures View() == Lookup(old(View()), name) && Inv(View())
      ensures found == (name in old(devices)) && (found ==> a == old(devices)[name] && a in held)
    {
      hide RefsExact, TableProfiles, SingleOwner;
      LookupKeeps(View(), name);
      found, a := false, 0;
      if name in devices {
        found, a := true, devices[name];
        dev := dev[a := dev[a].(refs := dev[a].refs + 1)];
        held := held + multiset{a};
      }
    }

    /** edgex_device_release by one of the device's holders: the fetched count decides who frees. */
    method DeviceRelease(a: Addr)
      requires Inv(View()) && a in held
      modifies this
      ensures View() == Release(old(View()), a) && Inv(View())
    {
      hide TablesSound, TableProfiles;
      ReleaseKeeps(View(), a);
      var fetched := dev[a].refs;
      held := held - multiset{a};
      if fetched == 1 {
        if dev[a].ownprofile {
          FreeProfile(dev[a].profile);
        }
        FreeDevice(a);
      } else {
        dev := dev[a := dev[a].(refs := fetched - 1)];
      }
    }

    /** add_locked. */
    method AddDevice(r: Request, retries: int)
      requires TablesSound(View())
      modifies this
      ensures View() == AddLocked(old(View()), r, retries)
    {
      var a, dup := next, next + 1;
      next := next + 2;
      prof := prof[dup := r.profile];
      var profile := dup;
      if r.profile.name in profiles {
        FreeProfile(dup);
        assert prof == old(prof);
        profile := profiles[r.profile.name];
      } else {
        profiles := profiles[r.profile.name := profile];
      }
      dev := dev[a := Device(r.name, r.info, profile, 1, retries, false)];
      devices := devices[r.name := a];
    }

    /** The scan of release_profile_locked: does any device in the table still use the profile? */
    method IsLastUser(p: Addr) returns (last: bool)
      requires TablesSound(View())
      ensures last == LastUser(View(), p)
    {
      var todo := devices.Keys;
      while todo != {}
        invariant todo <= devices.Keys
        invariant forall n :: n in devices && n !in todo ==> dev[devices[n]].profile != p
        decreases |todo|
      {
        var n :| n in todo;
        if dev[devices[n]].profile == p {
          return false;
        }
        todo := todo - {n};
      }
      return true;
    }

    method ReleaseProfile(a: Addr)
      requires TablesSound(View()) && a in dev && dev[a].profile in prof
      modifies this
      ensures View() == ReleaseProfileLocked(old(View()), a)
    {
      var last := IsLastUser(dev[a].profile);
      if last {
        profiles := profiles - {prof[dev[a].profile].name};
        dev := dev[a := dev[a].(ownprofile := true)];
      }
    }

    /** edgex_devmap_removedevice_byname up to the release outside the lock. */
    method RemoveByName(name: Name) returns (removed: bool, a: Addr)
      requires Inv(View())
      modifies this
      ensures View() == Remove(old(View()), name) && Inv(View())
      ensures removed == (name in old(devices)) && (removed ==> a == old(devices)[name] && a in held)
    {
      hide RefsExact, TableProfiles, SingleOwner, LastUser, InTable, Registered, Owns;
      removed, a := false, 0;
      InvProfiles(View());
      RemoveKeeps(View(), name);
      if name in devices {
        removed, a := true, devices[name];
        devices := devices - {name};
        held := held + multiset{a};
        ReleaseProfile(a);
      }
    }

    /** update_in_place: what it changes stays changed even when it then refuses. */
    method UpdateInPlace(a: Addr, r: Request) returns (updated: bool, outcome: Outcome)
      requires a in dev && dev[a].profile in prof
      modifies this`dev
      ensures var d := old(dev)[a]; var name := prof[d.profile].name;
              && updated == InPlace(d.info, name, r)
              && dev == old(dev)[a := d.(info := UpdatedInfo(d.info, name, r))]
              && outcome == if updated && d.info.adminState == r.info.adminState then UpdatedSdk else UpdatedDriver
    {
      outcome := UpdatedSdk;
      var d := dev[a];
      var same := ListEqual(d.info.protocols, r.info.protocols);
      if !same {
        assert d == d.(info := d.info);
        dev := dev[a := d];
        return false, UpdatedDriver;
      }
      if d.info.adminState != r.info.adminState {
        outcome := UpdatedDriver;
        d := d.(info := d.info.(adminState := r.info.adminState));
        dev := dev[a := d];
      }
      if prof[d.profile].name != r.profile.name {
        return false, UpdatedDriver;
      }
      same := ListEqual(d.info.autos, r.info.autos);
      if !same {
        return false, UpdatedDriver;
      }
      d := d.(info := d.info.(operatingState := r.info.operatingState, origin := r.info.origin,
                              description := r.info.description, labels := r.info.labels));
      dev := dev[a := d];
      updated := true;
    }

    /** edgex_devmap_replace_device up to the release outside the lock. */
    method ReplaceDevice(r: Request, allowedFails: int) returns (outcome: Outcome, release: bool, a: Addr)
      requires Inv(View())
      modifies this
      ensures old(TablesSound(View()))
      ensures r.name in old(devices) ==> old(dev)[old(devices)[r.name]].profile in old(prof)
      ensures View() == Replace(old(View()), r, allowedFails) && Inv(View())
      ensures outcome == ReplaceOutcome(old(View()), r)
      ensures release ==> a in held
    {
      hide EqualLists, InPlace, UpdatedInfo, LastUser, RefsExact, TableProfiles, SingleOwner, InTable, Registered, Owns;
      InvProfiles(View());
      ReplaceKeeps(View(), r, allowedFails);
      release, a := false, 0;
      if r.name !in devices {
        AddDevice(r, allowedFails);
        return Created, false, 0;
      }
      a := devices[r.name];
      var updated;
      updated, outcome := UpdateInPlace(a, r);
      if !updated {
        release := true;
        Supersede(a, r);
      }
    }

    /** The removal and re-creation of a device that could not be updated in place. */
    method Supersede(a: Addr, r: Request)
      requires TablesSound(View()) && r.name in devices && devices[r.name] == a && dev[a].profile in prof
      modifies this
      ensures a in held
      ensures var s2 := AddLocked(Detach(old(View()), r.name), r, old(dev)[a].retries);
              && a in s2.dev && s2.dev[a].profile in s2.prof
              && View() == if old(prof)[old(dev)[a].profile].name != r.profile.name then ReleaseProfileLocked(s2, a)
                           else s2
    {
      hide LastUser;
      devices := devices - {r.name};
      held := held + multiset{a};
      AddDevice(r, dev[a].retries);
      if prof[dev[a].profile].name != r.profile.name {
        ReleaseProfile(a);
      }
    }

    /** edgex_devmap_add_profile: sound exactly for a name that is not registered. */
    method AddNewProfile(p: Profile)
      requires Inv(View())
      modifies this
      ensures View() == AddProfile(old(View()), p)
      ensures Inv(View()) <==> p.name !in old(profiles)
    {
      AddProfileKeepsIff(View(), p);
      hide Inv;
      prof := prof[next := p];
      profiles := profiles[p.name := next];
      next := next + 1;
    }

    /** edgex_devmap_update_profile. */
    method UpdateDeviceProfile(p: Profile)
      requires Inv(View())
      modifies this
      ensures View() == UpdateProfile(old(View()), p) && Inv(View())
    {
      hide InTable, RefsExact, TableProfiles, SingleOwner, Registered, Owns;
      UpdateProfileKeeps(View(), p);
      var dp := next;
      next := next + 1;
      prof := prof[dp := p];
      if p.name in profiles {
        var was := profiles[p.name];
        MoveDevices(was, dp);
        TableUnchanged(old(View()), View().(dev := old(dev)));
        FreeProfile(was);
      }
      profiles := profiles[p.name := dp];
    }

    /** The device loop of edgex_devmap_update_profile. */
    method MoveDevices(was: Addr, dp: Addr)
      requires forall n :: n in devices ==> devices[n] in dev && dev[devices[n]].name == n
      modifies this`dev
      ensures dev == Moved(old(View()), was, dp, {})
    {
      hide Moved;
      ghost var s := View();
      var todo := devices.Keys;
      MoveStarts(s, was, dp);
      while todo != {}
        invariant todo <= devices.Keys && dev == Moved(s, was, dp, todo)
        decreases |todo|
      {
        var n :| n in todo;
        var a := devices[n];
        MoveTurn(s, was, dp, todo, n);
        if dev[a].profile == was {
          dev := dev[a := dev[a].(profile := dp)];
        }
        todo := todo - {n};
      }
    }

    /** edgex_devmap_populate_devices: devices already known are left alone. */
    method Populate(devs: seq<Request>, allowedFails: int)
      requires Inv(View())
      modifies this
      ensures View() == Populated(old(View()), devs, allowedFails) && Inv(View())
    {
      hide TablesSound, RefsExact, TableProfiles, SingleOwner, AddLocked;
      ghost var s := View();
      var i := 0;
      while i < |devs|
        invariant 0 <= i <= |devs| && View() == Populated(s, devs[..i], allowedFails)
      {
        assert devs[..i + 1][..i] == devs[..i];
        PopulatedKeeps(s, devs[..i], allowedFails);
        if devs[i].name !in devices {
          AddDevice(devs[i], allowedFails);
        }
        i := i + 1;
      }
      assert devs[..i] == devs;
      PopulatedKeeps(s, devs, allowedFails);
    }

    /** edgex_devmap_clear: visit each device, drop the table's reference, then its table entry. */
    method ClearAll()
      requires Inv(View())
      modifies this
      ensures View() == Clear(old(View())) && Inv(View())
    {
      hide Inv, InTable, ClearedSoFar;
      ghost var s := View();
      ClearKeeps(s);
      ClearStarts(s);
      while devices != map[]
        invariant profiles == s.profiles && prof == s.prof && held == s.held && next == s.next
        invariant ClearedSoFar(s, devices, dev)
        decreases |devices|
      {
        var n :| n in devices;
        var a := devices[n];
        ClearTurn(s, devices, dev, n);
        if dev[a].refs == 1 {
          FreeDevice(a);
        } else {
          dev := dev[a := dev[a].(refs := dev[a].refs - 1)];
        }
        devices := devices - {n};
      }
      ClearDone(s, dev);
    }

    /** Any sequence of critical sections and releases, from the empty registry: the code goes through
        exactly the states of the protocol's run, and its invariant holds after every call. */
    method Run(steps: seq<Step>, ghost states: seq<State>)
      requires View() == INITIAL && IsRun(states, steps)
      modifies this
      ensures View() == states[|steps|] && Inv(View())
    {
      hide Inv, Next, Allowed;
      RunInvariant(states, steps, 0);
      var i := 0;
      while i < |steps|
        invariant 0 <= i <= |steps| && View() == states[i] && Inv(View())
      {
        RunStep(states, steps, i);
        Take(steps[i]);
        i := i + 1;
      }
    }

    method Take(step: Step)
      requires Inv(View()) && Allowed(View(), step)
      modifies this
      ensures Inv(old(View())) && View() == Next(old(View()), step) && Inv(View())
    {
      hide Inv, Lookup, Release, Replace, Remove, Populated, UpdateProfile, Clear, AddProfile;
      match step {
        case LookupStep(name) => var _, _ := DeviceByName(name);
        case ReleaseStep(a) => DeviceRelease(a);
        case ReplaceStep(r, fails) => var _, _, _ := ReplaceDevice(r, fails);
        case PopulateStep(devs, fails) => Populate(devs, fails);
        case RemoveStep(name) => var _, _ := RemoveByName(name);
        case AddProfileStep(p) => AddNewProfile(p);
        case UpdateProfileStep(p) => UpdateDeviceProfile(p);
        case ClearStep => ClearAll();
      }
    }
  }

  /** The devices once those in the table under names outside `todo` have moved to the new profile. */
  ghost function Moved(s: State, was: Addr, dp: Addr, todo: set<Name>): map<Addr, Device> {
    map a | a in s.dev ::
      if InTable(s, a) && s.dev[a].name !in todo && s.dev[a].profile == was then s.dev[a].(profile := dp) else s.dev[a]
  }

  lemma MoveStarts(s: State, was: Addr, dp: Addr)
    ensures Moved(s, was, dp, s.devices.Keys) == s.dev
  {
  }

  lemma MoveTurn(s: State, was: Addr, dp: Addr, todo: set<Name>, n: Name)
    requires n in todo && n in s.devices && s.devices[n] in s.dev && s.dev[s.devices[n]].name == n
    ensures var a, m := s.devices[n], Moved(s, was, dp, todo);
            && a in m
            && Moved(s, was, dp, todo - {n}) == if m[a].profile == was then m[a := m[a].(profile := dp)] else m
  {
    var a, m, m' := s.devices[n], Moved(s, was, dp, todo), Moved(s, was, dp, todo - {n});
    assert forall b :: b in m && b != a ==> m'[b] == m[b];
  }

  /** The table's reference to one device is gone, and the device with it if it was the last. */
  function Dropped(dev: map<Addr, Device>, a: Addr): map<Addr, Device>
    requires a in dev && dev[a].refs > 0
  {
    if dev[a].refs == 1 then dev - {a} else dev[a := dev[a].(refs := dev[a].refs - 1)]
  }

  /** The clear loop part-way: devices still in the table and devices never in it are untouched. */
  ghost predicate ClearedSoFar(s: State, devices: map<Name, Addr>, dev: map<Addr, Device>) {
    && (forall n :: n in devices ==> n in s.devices && devices[n] == s.devices[n])
    && (forall a :: a in dev ==> a in s.dev)
    && (forall a :: a in s.dev && (InTable(s, a) ==> s.dev[a].name in devices) ==> a in dev && dev[a] == s.dev[a])
    && (forall a :: InTable(s, a) && s.dev[a].name !in devices ==>
          if s.dev[a].refs == 1 then a !in dev
          else a in dev && dev[a] == s.dev[a].(refs := if s.dev[a].refs > 0 then s.dev[a].refs - 1 else 0))
  }

  lemma ClearStarts(s: State)
    requires Inv(s)
    ensures ClearedSoFar(s, s.devices, s.dev)
  {
    hide RefsExact, TableProfiles, SingleOwner;
  }

  lemma InTableByName(s: State, n: Name)
    requires Inv(s) && n in s.devices
    ensures var a := s.devices[n];
            && a in s.dev && InTable(s, a) && s.dev[a].name == n && s.dev[a].refs > 0 && !s.dev[a].ownprofile
            && forall b :: InTable(s, b) && b != a ==> s.dev[b].name != n
  {
    hide SingleOwner;
  }

  lemma ClearTurn(s: State, devices: map<Name, Addr>, dev: map<Addr, Device>, n: Name)
    requires Inv(s) && ClearedSoFar(s, devices, dev) && n in devices
    ensures devices[n] in dev && dev[devices[n]].refs > 0 && !dev[devices[n]].ownprofile
    ensures ClearedSoFar(s, devices - {n}, Dropped(dev, devices[n]))
  {
    hide Inv, InTable;
    InTableByName(s, n);
    assert dev[devices[n]] == s.dev[s.devices[n]];
    var a, dev' := devices[n], Dropped(dev, devices[n]);
    assert forall b :: b != a ==> (b in dev' <==> b in dev) && (b in dev ==> dev'[b] == dev[b]);
  }

  lemma ClearDone(s: State, dev: map<Addr, Device>)
    requires Inv(s) && ClearedSoFar(s, map[], dev)
    ensures dev == Clear(s).dev
  {
    hide Inv, InTable;
    var after := Clear(s).dev;
    assert forall a :: a in dev <==> a in after;
    assert forall a :: a in dev ==> dev[a] == after[a];
  }
}
