/** Runs of the registry: any interleaving of the steps of all threads, what holds along it, and when
    objects are freed. */
module RegistryRuns {
  import opened Registry
  import opened RegistryInvariant

  /** What one thread does next. */
  datatype Step =
    | LookupStep(name: Name) | ReleaseStep(a: Addr) | ReplaceStep(r: Request, allowedFails: int)
    | PopulateStep(devs: seq<Request>, allowedFails: int) | RemoveStep(name: Name)
    | AddProfileStep(p: Profile) | UpdateProfileStep(p: Profile) | ClearStep

  /** A holder releases what it holds, and a profile is added only under a name found absent. */
  predicate Allowed(s: State, step: Step) {
    match step
    case ReleaseStep(a) => a in s.held
    case AddProfileStep(p) => p.name !in s.profiles
    case _ => true
  }

  ghost function Next(s: State, step: Step): State
    requires Inv(s) && Allowed(s, step)
  {
    InvIsSafe(s);
    Taken(s, step)
  }

  /** The step itself, which needs only that holders release what they hold. */
  ghost function Taken(s: State, step: Step): State
    requires Safe(s) && (step.ReleaseStep? ==> step.a in s.held)
  {
    SafeProfiles(s);
    match step
    case LookupStep(name) => Lookup(s, name)
    case ReleaseStep(a) => Release(s, a)
    case ReplaceStep(r, fails) => Replace(s, r, fails)
    case PopulateStep(devs, fails) => Populated(s, devs, fails)
    case RemoveStep(name) => Remove(s, name)
    case AddProfileStep(p) => AddProfile(s, p)
    case UpdateProfileStep(p) => UpdateProfile(s, p)
    case ClearStep => Clear(s)
  }

  lemma NextKeeps(s: State, step: Step)
    requires Inv(s) && Allowed(s, step)
    ensures Inv(Next(s, step))
  {
    match step
    case LookupStep(name) => LookupKeeps(s, name);
    case ReleaseStep(a) => ReleaseKeeps(s, a);
    case ReplaceStep(r, fails) => ReplaceKeeps(s, r, fails);
    case PopulateStep(devs, fails) => PopulatedKeeps(s, devs, fails);
    case RemoveStep(name) => RemoveKeeps(s, name);
    case AddProfileStep(p) => AddProfileKeepsIff(s, p);
    case UpdateProfileStep(p) => UpdateProfileKeeps(s, p);
    case ClearStep => ClearKeeps(s);
  }

  /** A run of interleaved steps from the empty registry. */
  ghost predicate IsRun(states: seq<State>, steps: seq<Step>) {
    && |states| == |steps| + 1 && states[0] == INITIAL
    && forall i :: 0 <= i < |steps| ==>
         Inv(states[i]) ==> Allowed(states[i], steps[i]) && states[i + 1] == Next(states[i], steps[i])
  }

  /** Over every run: reference counts are exact, table devices use registered profiles, and each
      live profile has exactly one owner, in every state. */
  lemma {:induction false} RunInvariant(states: seq<State>, steps: seq<Step>, i: nat)
    requires IsRun(states, steps) && i < |states|
    ensures Inv(states[i])
  {
    if i > 0 {
      RunInvariant(states, steps, i - 1);
      NextKeeps(states[i - 1], steps[i - 1]);
    }
  }

  lemma RunStep(states: seq<State>, steps: seq<Step>, i: nat)
    requires IsRun(states, steps) && i < |steps|
    ensures Inv(states[i]) && Allowed(states[i], steps[i]) && states[i + 1] == Next(states[i], steps[i])
  {
    hide Inv, Allowed, Next;
    RunInvariant(states, steps, i);
    var s, step, t := states[i], steps[i], states[i + 1];
  }

  /** Every object stays live, and any other object is newly allocated. */
  ghost predicate OnlyAllocates(s: State, t: State) {
    && s.next <= t.next
    && (forall a :: a in s.dev ==> a in t.dev) && (forall p :: p in s.prof ==> p in t.prof)
    && (forall a :: a in t.dev && a !in s.dev ==> s.next <= a)
    && (forall p :: p in t.prof && p !in s.prof ==> s.next <= p)
  }

  /** Replacing and removing allocate but free nothing. */
  lemma ReplaceAllocates(s: State, r: Request, fails: int)
    requires TablesSound(s) && (r.name in s.devices ==> s.dev[s.devices[r.name]].profile in s.prof)
    ensures OnlyAllocates(s, Replace(s, r, fails))
  {
    hide TablesSound, InPlace, UpdatedInfo, AddLocked, Detach, ReleaseProfileLocked, OnlyAllocates;
    if r.name !in s.devices {
      AddAllocates(s, r, fails);
    } else {
      ReplaceKnownAllocates(s, r, fails);
    }
  }

  lemma AddAllocates(s: State, r: Request, retries: int)
    requires TablesSound(s)
    ensures OnlyAllocates(s, AddLocked(s, r, retries))
  {
    AddFrame(s, r, retries);
  }

  lemma ReplaceKnownAllocates(s: State, r: Request, fails: int)
    requires TablesSound(s) && r.name in s.devices && s.dev[s.devices[r.name]].profile in s.prof
    ensures OnlyAllocates(s, Replace(s, r, fails))
  {
    hide InPlace, UpdatedInfo, LastUser, AddLocked;
    var a := s.devices[r.name];
    var d := s.dev[a];
    var name := s.prof[d.profile].name;
    var s1 := s.(dev := s.dev[a := d.(info := UpdatedInfo(d.info, name, r))]);
    if !InPlace(d.info, name, r) {
      var s0 := Detach(s1, r.name);
      assert s0.dev.Keys == s.dev.Keys;
      AddFrame(s0, r, d.retries);
    }
  }

  lemma RemoveFreesNothing(s: State, name: Name)
    requires name in s.devices ==> s.devices[name] in s.dev && s.dev[s.devices[name]].profile in s.prof
    ensures var t := Remove(s, name); t.next == s.next && t.dev.Keys == s.dev.Keys && t.prof == s.prof
  {
    hide LastUser;
  }

  /** Who frees what in one step, and that nothing freed comes back. */
  lemma StepLifetimes(s: State, step: Step)
    requires Inv(s) && Allowed(s, step)
    ensures var t := Next(s, step);
            && s.next <= t.next
            && (forall a :: a in t.dev && a !in s.dev ==> s.next <= a)
            && (forall p :: p in t.prof && p !in s.prof ==> s.next <= p)
  {
    hide Replace, Remove, Populated, InTable, Registered, Owns, TableProfiles, SingleOwner;
    InvProfiles(s);
    match step
    case ReplaceStep(r, fails) => ReplaceAllocates(s, r, fails);
    case PopulateStep(devs, fails) => PopulatedKeeps(s, devs, fails);
    case RemoveStep(name) => RemoveFreesNothing(s, name);
    case _ =>
  }

  /** A device dies in one of two ways: its last holder releases it after it left the table, or it
      is cleared from the table while nobody holds it. */
  lemma DeviceFreed(s: State, step: Step, a: Addr)
    requires Inv(s) && Allowed(s, step) && a in s.dev && a !in Next(s, step).dev
    ensures || (step == ReleaseStep(a) && s.held[a] == 1 && !InTable(s, a))
            || (step == ClearStep && s.held[a] == 0 && InTable(s, a))
  {
    hide Replace, Remove, Populated, Registered, Owns, TableProfiles, SingleOwner;
    InvProfiles(s);
    match step
    case ReplaceStep(r, fails) => ReplaceAllocates(s, r, fails);
    case PopulateStep(devs, fails) => PopulatedKeeps(s, devs, fails);
    case RemoveStep(name) => RemoveFreesNothing(s, name);
    case _ =>
  }

  /** The two steps that free a profile: an update of the registered profile of that name, and the
      last release of the retired device that owns it. */
  predicate FreesProfile(s: State, step: Step, p: Addr) {
    || (step.UpdateProfileStep? && Registered(s, p) && s.prof[p].name == step.p.name)
    || (step.ReleaseStep? && Owns(s, step.a, p) && s.dev[step.a].refs == 1)
  }

  /** A live profile is freed exactly by those steps. */
  lemma ProfileFreed(s: State, step: Step, p: Addr)
    requires Inv(s) && Allowed(s, step) && p in s.prof
    ensures p !in Next(s, step).prof <==> FreesProfile(s, step, p)
  {
    hide Replace, Remove, Populated, Release, UpdateProfile, InTable, Registered, Owns;
    InvProfiles(s);
    match step
    case ReplaceStep(r, fails) => ReplaceAllocates(s, r, fails);
    case PopulateStep(devs, fails) => PopulatedKeeps(s, devs, fails);
    case RemoveStep(name) => RemoveFreesNothing(s, name);
    case ReleaseStep(a) => ReleaseFreesIff(s, a, p);
    case UpdateProfileStep(dp) => UpdateFreesIff(s, dp, p);
    case _ =>
  }

  lemma ReleaseFreesIff(s: State, a: Addr, p: Addr)
    requires a in s.held && a in s.dev && p in s.prof
    ensures p !in Release(s, a).prof <==> Owns(s, a, p) && s.dev[a].refs == 1
  {
  }

  lemma UpdateFreesIff(s: State, dp: Profile, p: Addr)
    requires TablesSound(s) && p in s.prof
    ensures p !in UpdateProfile(s, dp).prof <==> Registered(s, p) && s.prof[p].name == dp.name
  {
    hide InTable;
  }

  lemma {:induction false} FreedForever(states: seq<State>, steps: seq<Step>, i: nat, j: nat, a: Addr)
    requires IsRun(states, steps) && i <= j < |states| && a < states[i].next
    ensures a < states[j].next
    ensures a !in states[i].dev ==> a !in states[j].dev
    ensures a !in states[i].prof ==> a !in states[j].prof
  {
    hide Inv, Allowed, Next;
    if i < j {
      FreedForever(states, steps, i, j - 1, a);
      RunInvariant(states, steps, j - 1);
      assert states[j - 1 + 1] == states[j];
      StepLifetimes(states[j - 1], steps[j - 1]);
    }
  }

  /** Over every run, a device freed once is never live again, so it is not freed twice; and no
      freed device is held or in the table. */
  lemma RunLifetimes(states: seq<State>, steps: seq<Step>, i: nat, j: nat, a: Addr)
    requires IsRun(states, steps) && i < j < |states|
    requires a in states[i].dev && a !in states[i + 1].dev
    ensures a !in states[j].dev && states[j].held[a] == 0 && !InTable(states[j], a)
    ensures forall n :: n in states[j].devices ==> states[j].devices[n] != a
    ensures states[i].held[a] + (if InTable(states[i], a) then 1 else 0) == 1
  {
    RunInvariant(states, steps, i);
    RunInvariant(states, steps, i + 1);
    RunInvariant(states, steps, j);
    StepLifetimes(states[i], steps[i]);
    DeviceFreed(states[i], steps[i], a);
    FreedForever(states, steps, i + 1, j, a);
  }

  /** The same of profiles: freed once, by one of two steps, and then never live, registered, owned
      or used by a device in the table. */
  lemma ProfileLifetimes(states: seq<State>, steps: seq<Step>, i: nat, j: nat, p: Addr)
    requires IsRun(states, steps) && i < j < |states|
    requires p in states[i].prof && p !in states[i + 1].prof
    ensures FreesProfile(states[i], steps[i], p)
    ensures p !in states[j].prof && !Registered(states[j], p)
    ensures forall n :: n in states[j].profiles ==> states[j].profiles[n] != p
    ensures forall a :: !Owns(states[j], a, p) && (InTable(states[j], a) ==> states[j].dev[a].profile != p)
  {
    RunInvariant(states, steps, i);
    RunInvariant(states, steps, j);
    ProfileFreed(states[i], steps[i], p);
    StepLifetimes(states[i], steps[i]);
    FreedForever(states, steps, i + 1, j, p);
  }

  /** Clearing frees every device if and only if there are no outstanding holders; then the profiles
      left are exactly the registered ones, which edgex_devmap_free frees next: nothing leaks. */
  lemma ShutdownLeaksNothing(s: State)
    requires Inv(s)
    ensures Clear(s).dev == map[] <==> s.held == multiset{}
    ensures s.held == multiset{} ==> forall p :: p in Clear(s).prof <==> Registered(Clear(s), p)
  {
    ClearKeeps(s);
    InvIsSafe(s);
    ClearView(s);
    var t := Clear(s);
    hide InTable;
    if s.held == multiset{} {
      forall a ensures a !in t.dev {
      }
    } else {
      var a :| a in s.held;
      assert a in t.held;
    }
  }
}
