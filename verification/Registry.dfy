/** The device and profile registry of devmap.c, as a protocol: every critical section and every
    atomic decrement is one step on the state below, and the steps of all threads interleave. */
module Registry {
  import opened ListEquality

  type Name = string
  /** The address of an allocated object. Addresses are never reused. */
  type Addr = nat

  datatype AdminState = Locked | Unlocked
  datatype OperatingState = Up | Down
  datatype AutoEvent = AutoEvent(interval: string, onChange: bool, threshold: real)
  datatype Profile = Profile(name: Name, body: string)

  datatype Info = Info(
    protocols: seq<Entry<map<string, string>>>, adminState: AdminState, operatingState: OperatingState,
    autos: seq<Entry<AutoEvent>>, origin: nat, description: string, labels: seq<string>, tags: string, parent: string)

  /** A device as a caller submits it, with its own copy of the profile. */
  datatype Request = Request(name: Name, info: Info, profile: Profile)

  datatype Device = Device(name: Name, info: Info, profile: Addr, refs: nat, retries: int, ownprofile: bool)

  /** Both tables, every object allocated and not yet freed, and the references that threads hold:
      one per lookup not yet released, and one per removed device whose remover has yet to release it. */
  datatype State = State(
    devices: map<Name, Addr>, profiles: map<Name, Addr>,
    dev: map<Addr, Device>, prof: map<Addr, Profile>, held: multiset<Addr>, next: Addr)

  datatype Outcome = UpdatedSdk | UpdatedDriver | Created

  const INITIAL := State(map[], map[], map[], map[], multiset{}, 0)

  // ---------------------------------------------------------------- the invariant

  predicate InTable(s: State, a: Addr) {
    a in s.dev && s.dev[a].name in s.devices && s.devices[s.dev[a].name] == a
  }

  predicate Registered(s: State, p: Addr) {
    p in s.prof && s.prof[p].name in s.profiles && s.profiles[s.prof[p].name] == p
  }

  predicate Owns(s: State, a: Addr, p: Addr) {
    a in s.dev && s.dev[a].ownprofile && s.dev[a].profile == p
  }

  ghost predicate TablesSound(s: State) {
    && (forall n :: n in s.devices ==> s.devices[n] in s.dev && s.dev[s.devices[n]].name == n)
    && (forall n :: n in s.profiles ==> s.profiles[n] in s.prof && s.prof[s.profiles[n]].name == n)
    && (forall a :: a in s.dev ==> a < s.next)
    && (forall p :: p in s.prof ==> p < s.next)
  }

  /** One reference for the table and one for each holder. */
  ghost predicate RefsExact(s: State) {
    && (forall a :: a in s.held ==> a in s.dev)
    && (forall a :: a in s.dev ==>
          s.dev[a].refs > 0 && s.dev[a].refs == (if InTable(s, a) then 1 else 0) + s.held[a])
  }

  /** A device in the table uses the very profile registered under its profile's name. */
  ghost predicate TableProfiles(s: State) {
    forall a :: InTable(s, a) ==> Registered(s, s.dev[a].profile) && !s.dev[a].ownprofile
  }

  /** Each live profile has exactly one owner: the profile table, or one retired device. */
  ghost predicate SingleOwner(s: State) {
    && (forall a :: a in s.dev && s.dev[a].ownprofile ==> s.dev[a].profile in s.prof)
    && (forall p :: p in s.prof ==> Registered(s, p) || exists a :: Owns(s, a, p))
    && (forall p, a :: Owns(s, a, p) ==> !Registered(s, p))
    && (forall p, a, b :: Owns(s, a, p) && Owns(s, b, p) ==> a == b)
  }

  ghost predicate Inv(s: State) {
    TablesSound(s) && RefsExact(s) && TableProfiles(s) && SingleOwner(s)
  }

  // What is left of the last two where a profile may be added over one that is registered: a device
  // in the table has its profile, and an owned profile is out of the table's reach.

  ghost predicate UsedLive(s: State) {
    forall a :: InTable(s, a) ==> s.dev[a].profile in s.prof && !s.dev[a].ownprofile
  }

  ghost predicate OwnedApart(s: State) {
    && (forall a, p :: Owns(s, a, p) ==> p in s.prof && !Registered(s, p))
    && (forall a, b, p :: Owns(s, a, p) && InTable(s, b) ==> s.dev[b].profile != p)
    && (forall a, b, p :: Owns(s, a, p) && Owns(s, b, p) ==> a == b)
  }

  ghost predicate Safe(s: State) {
    TablesSound(s) && RefsExact(s) && UsedLive(s) && OwnedApart(s)
  }

  // ---------------------------------------------------------------- steps

  /** edgex_devmap_device_byname. */
  function Lookup(s: State, name: Name): State
    requires name in s.devices ==> s.devices[name] in s.dev
  {
    if name !in s.devices then s
    else
      var a := s.devices[name];
      s.(dev := s.dev[a := s.dev[a].(refs := s.dev[a].refs + 1)], held := s.held + multiset{a})
  }

  /** edgex_device_release, by a holder: the last reference frees the device, and the profile with
      it when the device owns it. */
  function Release(s: State, a: Addr): State
    requires a in s.held && a in s.dev
  {
    var d := s.dev[a];
    var t := s.(held := s.held - multiset{a});
    if d.refs == 1 then
      t.(dev := s.dev - {a}, prof := if d.ownprofile then s.prof - {d.profile} else s.prof)
    else t.(dev := s.dev[a := d.(refs := if d.refs > 0 then d.refs - 1 else 0)])
  }

  /** add_locked: the device and its profile are duplicated; the duplicate profile is dropped
      again when one of that name is registered. */
  function AddLocked(s: State, r: Request, retries: int): State {
    var a, p := s.next, s.next + 1;
    var known := r.profile.name in s.profiles;
    var profile := if known then s.profiles[r.profile.name] else p;
    s.(prof := if known then s.prof else s.prof[p := r.profile],
       profiles := if known then s.profiles else s.profiles[r.profile.name := p],
       dev := s.dev[a := Device(r.name, r.info, profile, 1, retries, false)],
       devices := s.devices[r.name := a],
       next := s.next + 2)
  }

  /** edgex_devmap_populate_devices: each device of the list whose name is not known by then. */
  function Populated(s: State, devs: seq<Request>, retries: int): State {
    if devs == [] then s
    else
      var last := |devs| - 1;
      var t := Populated(s, devs[..last], retries);
      if devs[last].name in t.devices then t else AddLocked(t, devs[last], retries)
  }

  ghost predicate LastUser(s: State, p: Addr) {
    forall n :: n in s.devices && s.devices[n] in s.dev ==> s.dev[s.devices[n]].profile != p
  }

  /** release_profile_locked: a profile no table device uses any more passes to the retired device. */
  ghost function ReleaseProfileLocked(s: State, a: Addr): State
    requires a in s.dev && s.dev[a].profile in s.prof
  {
    var p := s.dev[a].profile;
    if LastUser(s, p) then
      s.(profiles := s.profiles - {s.prof[p].name}, dev := s.dev[a := s.dev[a].(ownprofile := true)])
    else s
  }

  /** remove_locked: the device leaves the table, and the thread that removed it now holds the
      table's reference, to be released after the lock. */
  function Detach(s: State, name: Name): State
    requires name in s.devices
  {
    s.(devices := s.devices - {name}, held := s.held + multiset{s.devices[name]})
  }

  /** edgex_devmap_removedevice_byname up to the release. */
  ghost function Remove(s: State, name: Name): State
    requires name in s.devices ==> s.devices[name] in s.dev && s.dev[s.devices[name]].profile in s.prof
  {
    if name !in s.devices then s else ReleaseProfileLocked(Detach(s, name), s.devices[name])
  }

  /** A device that may be updated in place: nothing a running operation depends on changes. */
  predicate InPlace(was: Info, wasProfile: Name, r: Request) {
    EqualLists(was.protocols, r.info.protocols) && wasProfile == r.profile.name && EqualLists(was.autos, r.info.autos)
  }

  /** What update_in_place leaves behind; a refused update may already have changed the admin state. */
  function UpdatedInfo(was: Info, wasProfile: Name, r: Request): Info {
    if InPlace(was, wasProfile, r) then
      was.(adminState := r.info.adminState, operatingState := r.info.operatingState, origin := r.info.origin,
           description := r.info.description, labels := r.info.labels)
    else if EqualLists(was.protocols, r.info.protocols) then was.(adminState := r.info.adminState)
    else was
  }

  function ReplaceOutcome(s: State, r: Request): Outcome
    requires r.name in s.devices ==> s.devices[r.name] in s.dev && s.dev[s.devices[r.name]].profile in s.prof
  {
    if r.name !in s.devices then Created
    else
      var d := s.dev[s.devices[r.name]];
      if InPlace(d.info, s.prof[d.profile].name, r) && d.info.adminState == r.info.adminState then UpdatedSdk
      else UpdatedDriver
  }

  /** edgex_devmap_replace_device up to the release of a replaced device. */
  ghost function Replace(s: State, r: Request, allowedFails: int): State
    requires TablesSound(s)
    requires r.name in s.devices ==> s.dev[s.devices[r.name]].profile in s.prof
  {
    if r.name !in s.devices then AddLocked(s, r, allowedFails)
    else
      var a := s.devices[r.name];
      var d := s.dev[a];
      var name := s.prof[d.profile].name;
      var s1 := s.(dev := s.dev[a := d.(info := UpdatedInfo(d.info, name, r))]);
      if InPlace(d.info, name, r) then s1
      else
        var s2 := AddLocked(Detach(s1, r.name), r, d.retries);
        if name != r.profile.name then ReleaseProfileLocked(s2, a) else s2
  }

  /** edgex_devmap_add_profile: whatever was registered under the name is overwritten. */
  function AddProfile(s: State, p: Profile): State {
    s.(prof := s.prof[s.next := p], profiles := s.profiles[p.name := s.next], next := s.next + 1)
  }

  /** edgex_devmap_update_profile: table devices move to the new profile and the old one is freed. */
  ghost function UpdateProfile(s: State, p: Profile): State {
    var t := AddProfile(s, p);
    if p.name !in s.profiles then t
    else
      var was := s.profiles[p.name];
      t.(dev := map a | a in s.dev :: if InTable(s, a) && s.dev[a].profile == was then s.dev[a].(profile := s.next)
                                     else s.dev[a],
         prof := t.prof - {was})
  }

  /** edgex_devmap_clear: every table reference is released and the table emptied, under one lock. */
  ghost function Clear(s: State): State {
    s.(devices := map[],
       dev := map a | a in s.dev && !(InTable(s, a) && s.dev[a].refs == 1) ::
                if InTable(s, a) && s.dev[a].refs > 0 then s.dev[a].(refs := s.dev[a].refs - 1) else s.dev[a])
  }
}
