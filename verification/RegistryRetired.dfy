/** Devices that a thread still holds after they left the table, and what becomes of their profiles. */
module RegistryRetired {
  import opened Registry
  import opened RegistryInvariant
  import opened RegistryRuns

  /** Out of the table, not the owner of its profile: a holder's reference is all that keeps it. */
  predicate Retired(s: State, a: Addr) {
    a in s.dev && !InTable(s, a) && !s.dev[a].ownprofile
  }

  /** A retired device stays as it is until its last holder releases it. */
  lemma RetiredStays(s: State, step: Step, a: Addr)
    requires Inv(s) && Allowed(s, step) && Retired(s, a) && a in Next(s, step).dev
    ensures Retired(Next(s, step), a) && Next(s, step).dev[a].profile == s.dev[a].profile
  {
    hide Replace, Remove, Populated, Lookup, Release, UpdateProfile, Clear, TableProfiles, SingleOwner;
    InvProfiles(s);
    match step
    case LookupStep(name) => LookupTouches(s, name, a);
    case ReleaseStep(b) => ReleaseTouches(s, b, a);
    case ReplaceStep(r, fails) => ReplaceTouches(s, r, fails, a);
    case PopulateStep(devs, fails) => PopulatedTouches(s, devs, fails, a);
    case RemoveStep(name) => RemoveTouches(s, name, a);
    case AddProfileStep(_) =>
    case UpdateProfileStep(p) => UpdateTouches(s, p, a);
    case ClearStep => ClearTouches(s, a);
  }

  lemma LookupTouches(s: State, name: Name, a: Addr)
    requires TablesSound(s) && a in s.dev && !InTable(s, a)
    ensures var t := Lookup(s, name); a in t.dev && t.dev[a] == s.dev[a] && !InTable(t, a)
  {
  }

  lemma ReleaseTouches(s: State, b: Addr, a: Addr)
    requires b in s.held && b in s.dev && Retired(s, a) && a in Release(s, b).dev
    ensures Retired(Release(s, b), a) && Release(s, b).dev[a].profile == s.dev[a].profile
  {
  }

  lemma UpdateTouches(s: State, p: Profile, a: Addr)
    requires a in s.dev && !InTable(s, a)
    ensures var t := UpdateProfile(s, p); a in t.dev && t.dev[a] == s.dev[a] && !InTable(t, a)
  {
  }

  lemma ClearTouches(s: State, a: Addr)
    requires a in s.dev && !InTable(s, a)
    ensures var t := Clear(s); a in t.dev && t.dev[a] == s.dev[a] && !InTable(t, a)
  {
  }

  lemma ReplaceTouches(s: State, r: Request, fails: int, a: Addr)
    requires TablesSound(s) && (r.name in s.devices ==> s.dev[s.devices[r.name]].profile in s.prof)
    requires a in s.dev && !InTable(s, a)
    ensures var t := Replace(s, r, fails); a in t.dev && t.dev[a] == s.dev[a] && !InTable(t, a)
  {
    hide InPlace, UpdatedInfo, LastUser;
  }

  lemma RemoveTouches(s: State, name: Name, a: Addr)
    requires TablesSound(s) && (name in s.devices ==> s.dev[s.devices[name]].profile in s.prof)
    requires a in s.dev && !InTable(s, a)
    ensures var t := Remove(s, name); a in t.dev && t.dev[a] == s.dev[a] && !InTable(t, a)
  {
    hide LastUser;
  }

  lemma PopulatedTouches(s: State, devs: seq<Request>, fails: int, a: Addr)
    requires Inv(s) && a in s.dev && !InTable(s, a)
    ensures var t := Populated(s, devs, fails); a in t.dev && t.dev[a] == s.dev[a] && !InTable(t, a)
  {
    PopulatedKeeps(s, devs, fails);
    hide RefsExact, TableProfiles, SingleOwner, Populated;
    var t := Populated(s, devs, fails);
    if InTable(t, a) && s.dev[a].name !in s.devices {
      PopulatedNew(s, devs, fails, s.dev[a].name);
    }
  }

  /** A name that populating adds gets a newly allocated device. */
  lemma {:induction false} PopulatedNew(s: State, devs: seq<Request>, fails: int, n: Name)
    requires Inv(s) && n !in s.devices && n in Populated(s, devs, fails).devices
    ensures s.next <= Populated(s, devs, fails).devices[n]
  {
    hide TablesSound, RefsExact, TableProfiles, SingleOwner, AddLocked;
    var last := |devs| - 1;
    PopulatedKeeps(s, devs[..last], fails);
    var t := Populated(s, devs[..last], fails);
    if n in t.devices {
      PopulatedNew(s, devs[..last], fails, n);
    }
    if devs[last].name !in t.devices {
      AddFrame(t, devs[last], fails);
    }
  }

  /** Some step from state `i` to state `j` frees the profile. */
  predicate FreedBetween(states: seq<State>, steps: seq<Step>, i: nat, j: nat, p: Addr)
    requires i <= j <= |steps| && j < |states|
  {
    exists k :: i <= k < j && FreesProfile(states[k], steps[k], p)
  }

  lemma FreedBetweenSteps(states: seq<State>, steps: seq<Step>, i: nat, j: nat, p: Addr)
    requires i <= j <= |steps| && j < |states|
    ensures FreedBetween(states, steps, i, j, p)
            <==> i < j && (FreedBetween(states, steps, i, j - 1, p) || FreesProfile(states[j - 1], steps[j - 1], p))
  {
    hide FreesProfile;
  }

  /** Over every run, the profile of a device that a thread still holds after it was retired is gone
      exactly when one of two things has happened since: that profile was updated while registered, or
      another retired device that owned it was released for the last time. */
  lemma {:induction false} HeldProfileGoneIff(states: seq<State>, steps: seq<Step>, i: nat, j: nat, a: Addr)
    requires IsRun(states, steps) && i <= j < |states|
    requires Retired(states[i], a) && states[i].dev[a].profile in states[i].prof && a in states[j].dev
    ensures Retired(states[j], a) && states[j].dev[a].profile == states[i].dev[a].profile
    ensures states[j].dev[a].profile !in states[j].prof <==> FreedBetween(states, steps, i, j, states[i].dev[a].profile)
  {
    var p := states[i].dev[a].profile;
    hide Inv, Allowed, Next, Retired, FreesProfile, FreedBetween;
    RunInvariant(states, steps, i);
    LiveAddresses(states[i], a, p);
    FreedBetweenSteps(states, steps, i, j, p);
    if i < j {
      var m := j - 1;
      RunInvariant(states, steps, m);
      assert states[m + 1] == Next(states[m], steps[m]);
      FreedForever(states, steps, i, m, a);
      FreedForever(states, steps, m, j, a);
      HeldProfileGoneIff(states, steps, i, m, a);
      FreedForever(states, steps, i, m, p);
      ProfileGoneStep(states[m], steps[m], a, p);
    }
  }

  /** One step further: the profile is gone if it was before, or if the step frees it. */
  lemma ProfileGoneStep(s: State, step: Step, a: Addr, p: Addr)
    requires Inv(s) && Allowed(s, step) && Retired(s, a) && s.dev[a].profile == p && p < s.next
    requires a in Next(s, step).dev
    ensures var t := Next(s, step);
            && Retired(t, a) && t.dev[a].profile == p
            && (p !in t.prof <==> p !in s.prof || FreesProfile(s, step, p))
  {
    hide Inv, Allowed, Next, Retired, FreesProfile;
    RetiredStays(s, step, a);
    StepLifetimes(s, step);
    if p in s.prof {
      ProfileFreed(s, step, p);
    }
  }

  /** Any other device has its profile: one in the table uses a registered one, an owner its own. */
  lemma OnlyRetiredDangle(s: State, a: Addr)
    requires Inv(s) && a in s.dev && !Retired(s, a)
    ensures s.dev[a].profile in s.prof
  {
    Meanings(s);
  }

  /** A device is retired with its profile still live. */
  lemma RetiresWithProfile(s: State, step: Step, a: Addr)
    requires Inv(s) && Allowed(s, step) && InTable(s, a) && Retired(Next(s, step), a)
    ensures Next(s, step).dev[a].profile in Next(s, step).prof
  {
    hide Replace, Remove, Populated, RefsExact, SingleOwner;
    InvProfiles(s);
    Meanings(s);
    match step
    case ReplaceStep(r, fails) => ReplaceKeepsUse(s, r, fails, a);
    case PopulateStep(devs, fails) => PopulatedKeeps(s, devs, fails);
    case RemoveStep(name) => RemoveKeepsUse(s, name, a);
    case _ =>
  }

  lemma ReplaceKeepsUse(s: State, r: Request, fails: int, a: Addr)
    requires TablesSound(s) && (r.name in s.devices ==> s.dev[s.devices[r.name]].profile in s.prof)
    requires a in s.dev && s.dev[a].profile in s.prof
    ensures var t := Replace(s, r, fails);
            a in t.dev && t.dev[a].profile == s.dev[a].profile && t.dev[a].profile in t.prof
  {
    hide InPlace, UpdatedInfo, LastUser;
  }

  lemma RemoveKeepsUse(s: State, name: Name, a: Addr)
    requires TablesSound(s) && (name in s.devices ==> s.dev[s.devices[name]].profile in s.prof)
    requires a in s.dev && s.dev[a].profile in s.prof
    ensures var t := Remove(s, name); a in t.dev && t.dev[a].profile == s.dev[a].profile && t.dev[a].profile in t.prof
  {
    hide LastUser;
  }

  /** So from the step that retires a device: its profile is gone exactly when freed since. */
  lemma DanglesSinceRetiredIff(states: seq<State>, steps: seq<Step>, i: nat, j: nat, a: Addr)
    requires IsRun(states, steps) && i < j < |states| && a in states[j].dev
    requires InTable(states[i], a) && Retired(states[i + 1], a)
    ensures Retired(states[j], a)
    ensures states[j].dev[a].profile !in states[j].prof
            <==> FreedBetween(states, steps, i + 1, j, states[j].dev[a].profile)
  {
    RunInvariant(states, steps, i);
    RetiresWithProfile(states[i], steps[i], a);
    HeldProfileGoneIff(states, steps, i + 1, j, a);
  }

  lemma LiveAddresses(s: State, a: Addr, p: Addr)
    requires Inv(s) && Retired(s, a) && p in s.prof
    ensures a < s.next && p < s.next
  {
  }

  /** It does happen, from any state with a device in the table: look it up, replace it under the same
      profile name by one that cannot be updated in place, update that profile. The thread that looked
      it up now holds a device whose profile has been freed. */
  lemma HeldDeviceOutlivesProfile(s: State, r: Request, fails: int, p: Profile)
    requires Inv(s) && r.name in s.devices
    requires var d := s.dev[s.devices[r.name]];
             d.profile in s.prof && s.prof[d.profile].name == r.profile.name == p.name
             && !InPlace(d.info, r.profile.name, r)
    ensures var a := s.devices[r.name];
            var s1 := Lookup(s, r.name);
            Inv(s1) &&
            var s2 := Next(s1, ReplaceStep(r, fails));
            Inv(s2) &&
            var s3 := Next(s2, UpdateProfileStep(p));
            Inv(s3) && a in s3.held && Retired(s3, a) && s3.dev[a].profile !in s3.prof
  {
    hide InPlace, TablesSound, RefsExact, TableProfiles, SingleOwner, Replace, UpdateProfile, Registered, Retired;
    TableMeanings(s);
    var a := s.devices[r.name];
    var s1 := Lookup(s, r.name);
    LookupKeeps(s, r.name);
    InvProfiles(s1);
    var s2 := Next(s1, ReplaceStep(r, fails));
    ReplaceKeeps(s1, r, fails);
    ReplaceRetires(s1, r, fails);
    UpdateProfileKeeps(s2, p);
    UpdateFrees(s2, a, p);
  }

  lemma ReplaceRetires(s: State, r: Request, fails: int)
    requires Inv(s) && r.name in s.devices && s.devices[r.name] in s.held
    requires var d := s.dev[s.devices[r.name]];
             d.profile in s.prof && s.prof[d.profile].name == r.profile.name && !InPlace(d.info, r.profile.name, r)
    ensures var a, t := s.devices[r.name], Replace(s, r, fails);
            a in t.held && Retired(t, a) && t.dev[a].profile in t.prof && Registered(t, t.dev[a].profile)
            && t.prof[t.dev[a].profile].name == r.profile.name
  {
    hide InPlace, UpdatedInfo, LastUser, RefsExact, SingleOwner;
  }

  lemma UpdateFrees(s: State, a: Addr, p: Profile)
    requires Inv(s) && a in s.held && Retired(s, a) && Registered(s, s.dev[a].profile)
    requires s.prof[s.dev[a].profile].name == p.name
    ensures var t := UpdateProfile(s, p); a in t.held && Retired(t, a) && t.dev[a].profile !in t.prof
  {
    hide RefsExact, TableProfiles, SingleOwner;
  }
}
