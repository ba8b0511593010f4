/** Event assembly in data.c: full events, and reduced ones that leave out of each reading what the
    enclosing event already says. */
module ReducedEvent {
  import opened Collections

  datatype Kind = Binary | Array | Object | Text | Scalar

  /** A reading's value: the kind that decides where it is filed, the name of its type code, its text
      (base64 for binary data), and the value itself, which binary and object readings carry. */
  datatype Value = Value(kind: Kind, typeName: string, text: string, content: seq<int>)

  /** A command result after the outgoing transform; origin 0 means that the driver gave none. */
  datatype Result = Result(value: Value, origin: nat)

  datatype Request = Request(
    resource: string, tags: Option<string>, binary: bool, mediaType: string, assertion: string)

  type TagMap = map<string, string>

  datatype Command = Command(name: string, profile: string, requests: seq<Request>, tags: TagMap)

  /** Where and when the event arises: the device with its tags, the tags of the call, the time, the id
      drawn for the event, and how the map library merges one map of tags into another. */
  datatype Context = Context(
    device: string, deviceTags: TagMap, tags: TagMap, now: nat, id: string, merge: (TagMap, TagMap) -> TagMap)

  datatype Key =
    Id | ProfileName | DeviceName | ResourceName | ValueType | Origin | BinaryValue | MediaType | PlainValue
  | ObjectValue | Tags

  datatype Datum = Chars(text: string) | Nanoseconds(n: nat) | Content(bytes: seq<int>)

  type Reading = map<Key, Datum>

  datatype Event = Event(
    id: string, deviceName: string, profileName: string, sourceName: string, origin: nat, readings: seq<Reading>,
    tags: Option<TagMap>, path: string, cbor: bool)

  // ---------------------------------------------------------------- what an event means

  /** The full reading without its id. */
  function Meaning(device: string, c: Command, q: Request, v: Result, now: nat): Reading {
    Header(device, c, q, v, now) + Payload(q, v.value)
    + if q.tags.Some? then map[Tags := Chars(q.tags.value)] else map[]
  }

  function Header(device: string, c: Command, q: Request, v: Result, now: nat): Reading {
    map[ProfileName := Chars(c.profile),
        DeviceName := Chars(device),
        ResourceName := Chars(q.resource),
        ValueType := Chars(v.value.typeName),
        Origin := Nanoseconds(if v.origin != 0 then v.origin else now)]
  }

  function Payload(q: Request, v: Value): Reading {
    match v.kind
    case Binary => map[BinaryValue := Content(v.content), MediaType := Chars(q.mediaType)]
    case Object => map[ObjectValue := Content(v.content)]
    case _ => map[PlainValue := Chars(v.text)]
  }

  /** What a consumer of reduced events does: the enclosing event supplies what a reading lacks. */
  function Fill(e: Event, r: Reading): Reading {
    map[ProfileName := Chars(e.profileName),
        DeviceName := Chars(e.deviceName),
        ResourceName := Chars(e.sourceName),
        Origin := Nanoseconds(e.origin)]
    + r
  }

  function FillEvent(e: Event): Event {
    e.(readings := seq(|e.readings|, i requires 0 <= i < |e.readings| => Fill(e, e.readings[i])))
  }

  function WithoutIds(e: Event): Event {
    e.(readings := seq(|e.readings|, i requires 0 <= i < |e.readings| => e.readings[i] - {Id}))
  }

  /** The call's tags, then the command's, then the device's; no tags at all rather than an empty map. */
  function EventTags(x: Context, c: Command): Option<TagMap> {
    var tags := x.merge(x.merge(x.merge(map[], x.tags), c.tags), x.deviceTags);
    if |tags| > 0 then Some(tags) else None
  }

  /** The event that a full, unreduced assembly means, reading ids apart. */
  function Ideal(x: Context, c: Command, values: seq<Result>): Event
    requires |values| == |c.requests|
  {
    Event(x.id, x.device, c.profile, c.name, x.now,
          seq(|values|, i requires 0 <= i < |values| => Meaning(x.device, c, c.requests[i], values[i], x.now)),
          EventTags(x, c),
          c.profile + "/" + x.device + "/" + c.name,
          exists i :: 0 <= i < |c.requests| && c.requests[i].binary)
  }

  // ---------------------------------------------------------------- the assembly

  /** Exactly which fields a reading of either form carries. */
  predicate Carries(r: Reading, c: Command, q: Request, v: Result, now: nat, reduced: bool) {
    && (Id in r <==> !reduced)
    && (ProfileName in r <==> !reduced)
    && (DeviceName in r <==> !reduced)
    && (ResourceName in r <==> !(reduced && |c.requests| == 1 && q.resource == c.name))
    && (Origin in r <==> !(reduced && (v.origin == 0 || v.origin == now)))
  }

  /** Every field of a reading but the id is the full reading's, and none is missing but those the
      reduced form may leave out. */
  predicate Agrees(r: Reading, full: Reading) {
    && r.Keys <= full.Keys + {Id}
    && (forall k :: k in r && k != Id ==> r[k] == full[k])
    && full.Keys <= r.Keys + {ProfileName, DeviceName, ResourceName, Origin}
  }

  method AddPayload(r: Reading, q: Request, v: Value) returns (r': Reading)
    ensures r' == r + Payload(q, v)
  {
    r' := r;
    if v.kind == Binary {
      r' := r'[BinaryValue := Content(v.content)];
      r' := r'[MediaType := Chars(q.mediaType)];
    } else if v.kind == Object {
      r' := r'[ObjectValue := Content(v.content)];
    } else {
      r' := r'[PlainValue := Chars(v.text)];
    }
  }

  /** The fields that the reduced form may leave out, and the type. */
  method BuildHeader(device: string, c: Command, q: Request, v: Result, now: nat, reduced: bool, id: string)
    returns (r: Reading)
    requires c.requests != []
    ensures Carries(r, c, q, v, now, reduced)
    ensures Agrees(r, Header(device, c, q, v, now))
  {
    r := map[];
    if !reduced {
      r := r[Id := Chars(id)];
      r := r[ProfileName := Chars(c.profile)];
      r := r[DeviceName := Chars(device)];
    }
    if !reduced || |c.requests| > 1 || q.resource != c.name {
      r := r[ResourceName := Chars(q.resource)];
    }
    r := r[ValueType := Chars(v.value.typeName)];
    if !reduced || (v.origin != 0 && v.origin != now) {
      r := r[Origin := Nanoseconds(if v.origin != 0 then v.origin else now)];
    }
  }

  lemma Extend(r: Reading, full: Reading, x: Reading, c: Command, q: Request, v: Result, now: nat, reduced: bool)
    requires Carries(r, c, q, v, now, reduced) && Agrees(r, full)
    requires x.Keys !! {Id, ProfileName, DeviceName, ResourceName, Origin}
    ensures Carries(r + x, c, q, v, now, reduced) && Agrees(r + x, full + x)
  {
  }

  /** One iteration of the loop that builds the readings. */
  method BuildReading(device: string, c: Command, q: Request, v: Result, now: nat, reduced: bool, id: string)
    returns (r: Reading)
    requires c.requests != []
    ensures Carries(r, c, q, v, now, reduced)
    ensures Agrees(r, Meaning(device, c, q, v, now))
  {
    hide Header, Carries, Agrees;
    r := BuildHeader(device, c, q, v, now, reduced, id);
    ghost var full := Header(device, c, q, v, now);
    Extend(r, full, Payload(q, v.value), c, q, v, now, reduced);
    full := full + Payload(q, v.value);
    r := AddPayload(r, q, v.value);
    if q.tags.Some? {
      Extend(r, full, map[Tags := Chars(q.tags.value)], c, q, v, now, reduced);
      r := r + map[Tags := Chars(q.tags.value)];
    } else {
      assert full + map[] == full;
    }
  }

  ghost predicate Assembled(x: Context, c: Command, values: seq<Result>, reduced: bool, e: Event)
    requires |values| == |c.requests|
  {
    && |e.readings| == |values|
    && e.(readings := []) == Ideal(x, c, values).(readings := [])
    && forall i :: 0 <= i < |values| ==>
         && Carries(e.readings[i], c, c.requests[i], values[i], x.now, reduced)
         && Agrees(e.readings[i], Meaning(x.device, c, c.requests[i], values[i], x.now))
  }

  /** edgex_data_process_event: no event at all when an assertion fails. */
  method ProcessEvent(x: Context, c: Command, values: seq<Result>, reduced: bool, ids: seq<string>)
    returns (e: Option<Event>)
    requires |values| == |c.requests| == |ids|
    ensures e == None <==>
            exists i ::
              && 0 <= i < |values|
              && c.requests[i].assertion != "" && values[i].value.text != c.requests[i].assertion
    ensures e.Some? ==> Assembled(x, c, values, reduced, e.value)
  {
    hide Carries, Agrees, Meaning;
    var cbor := false;
    var i := 0;
    while i < |c.requests|
      invariant 0 <= i <= |c.requests|
      invariant cbor == exists j :: 0 <= j < i && c.requests[j].binary
      invariant forall j :: 0 <= j < i ==>
                  c.requests[j].assertion == "" || values[j].value.text == c.requests[j].assertion
    {
      if c.requests[i].binary {
        cbor := true;
      }
      if c.requests[i].assertion != "" && values[i].value.text != c.requests[i].assertion {
        return None;
      }
      i := i + 1;
    }
    var readings: seq<Reading> := [];
    i := 0;
    while i < |c.requests|
      invariant 0 <= i <= |c.requests| && |readings| == i
      invariant forall j :: 0 <= j < i ==>
                  && Carries(readings[j], c, c.requests[j], values[j], x.now, reduced)
                  && Agrees(readings[j], Meaning(x.device, c, c.requests[j], values[j], x.now))
    {
      var r := BuildReading(x.device, c, c.requests[i], values[i], x.now, reduced, ids[i]);
      readings := readings + [r];
      i := i + 1;
    }
    var tags: TagMap := map[];
    tags := x.merge(tags, x.tags);
    tags := x.merge(tags, c.tags);
    tags := x.merge(tags, x.deviceTags);
    var eventTags: Option<TagMap> := None;
    if |tags| > 0 {
      eventTags := Some(tags);
    }
    e := Some(Event(x.id, x.device, c.profile, c.name, x.now, readings, eventTags,
                    c.profile + "/" + x.device + "/" + c.name, cbor));
  }

  // ---------------------------------------------------------------- nothing is lost

  lemma FilledReading(e: Event, device: string, c: Command, q: Request, v: Result, r: Reading)
    requires q in c.requests
    requires e.deviceName == device && e.profileName == c.profile && e.sourceName == c.name
    requires Carries(r, c, q, v, e.origin, true) && Agrees(r, Meaning(device, c, q, v, e.origin))
    ensures Fill(e, r) == Meaning(device, c, q, v, e.origin)
  {
    hide Meaning;
    var full := Meaning(device, c, q, v, e.origin);
    MeaningFields(device, c, q, v, e.origin);
    assert |c.requests| == 1 ==> c.requests == [q];
    assert Fill(e, r).Keys == full.Keys;
    forall k | k in full
      ensures Fill(e, r)[k] == full[k]
    {
    }
  }

  lemma MeaningFields(device: string, c: Command, q: Request, v: Result, now: nat)
    ensures var full := Meaning(device, c, q, v, now);
            && Id !in full
            && ProfileName in full && full[ProfileName] == Chars(c.profile)
            && DeviceName in full && full[DeviceName] == Chars(device)
            && ResourceName in full && full[ResourceName] == Chars(q.resource)
            && Origin in full && full[Origin] == Nanoseconds(if v.origin != 0 then v.origin else now)
  {
  }

  lemma StrippedReading(device: string, c: Command, q: Request, v: Result, now: nat, r: Reading)
    requires Carries(r, c, q, v, now, false) && Agrees(r, Meaning(device, c, q, v, now))
    ensures r - {Id} == Meaning(device, c, q, v, now)
  {
    hide Payload;
    MeaningFields(device, c, q, v, now);
  }

  /** A reduced event filled in from itself is the full event without reading ids: for every command,
      every set of readings and whatever ids were drawn. */
  lemma ReducedLosesNothing(x: Context, c: Command, values: seq<Result>, full: Event, reduced: Event)
    requires |values| == |c.requests|
    requires Assembled(x, c, values, false, full) && Assembled(x, c, values, true, reduced)
    ensures FillEvent(reduced) == WithoutIds(full) == Ideal(x, c, values)
  {
    hide Carries, Agrees, Meaning, Fill;
    forall i | 0 <= i < |values|
      ensures Fill(reduced, reduced.readings[i]) == full.readings[i] - {Id}
              == Meaning(x.device, c, c.requests[i], values[i], x.now)
    {
      FilledReading(reduced, x.device, c, c.requests[i], values[i], reduced.readings[i]);
      StrippedReading(x.device, c, c.requests[i], values[i], x.now, full.readings[i]);
    }
    assert FillEvent(reduced).readings == WithoutIds(full).readings == Ideal(x, c, values).readings;
  }

  /** So two reduced events are equal only if the full events say the same. */
  lemma ReducedDetermines(x1: Context, c1: Command, v1: seq<Result>, x2: Context, c2: Command, v2: seq<Result>,
                          f1: Event, f2: Event, r: Event)
    requires |v1| == |c1.requests| && |v2| == |c2.requests|
    requires Assembled(x1, c1, v1, false, f1) && Assembled(x2, c2, v2, false, f2)
    requires Assembled(x1, c1, v1, true, r) && Assembled(x2, c2, v2, true, r)
    ensures WithoutIds(f1) == WithoutIds(f2)
  {
    ReducedLosesNothing(x1, c1, v1, f1, r);
    ReducedLosesNothing(x2, c2, v2, f2, r);
  }

  // ---------------------------------------------------------------- what an event says

  /** And it says nothing twice: whatever is taken out of a reduced reading is missed when it is filled
      in, but for the resource name, which stays whenever there are several readings. */
  lemma ReducedIsLeast(x: Context, c: Command, values: seq<Result>, e: Event, i: nat, k: Key)
    requires |values| == |c.requests| && Assembled(x, c, values, true, e) && i < |values|
    requires k in e.readings[i] && (k == ResourceName ==> |c.requests| == 1)
    ensures Fill(e, e.readings[i] - {k}) != Fill(e, e.readings[i])
  {
    hide Meaning;
    var r := e.readings[i];
    MeaningFields(x.device, c, c.requests[i], values[i], x.now);
    assert e.origin == x.now && e.sourceName == c.name by {
      assert e.(readings := []) == Ideal(x, c, values).(readings := []);
    }
    assert Fill(e, r)[k] == r[k];
    var less := Fill(e, r - {k});
    assert k in less ==> k in {ProfileName, DeviceName, ResourceName, Origin};
  }

  /** The event names its device, profile, source, time and id, has the path that names the first three,
      carries the merged tags if there are any, one reading per request, and is encoded as CBOR exactly
      when a binary resource is read. */
  lemma EventSays(x: Context, c: Command, values: seq<Result>, reduced: bool, e: Event)
    requires |values| == |c.requests| && Assembled(x, c, values, reduced, e)
    ensures e.deviceName == x.device && e.profileName == c.profile && e.sourceName == c.name
    ensures e.origin == x.now && e.id == x.id && |e.readings| == |c.requests|
    ensures e.path == c.profile + "/" + x.device + "/" + c.name
    ensures e.cbor <==> exists i :: 0 <= i < |c.requests| && c.requests[i].binary
    ensures var tags := x.merge(x.merge(x.merge(map[], x.tags), c.tags), x.deviceTags);
            e.tags == if tags == map[] then None else Some(tags)
  {
    hide Carries, Agrees, Meaning;
    var i := Ideal(x, c, values).(readings := []);
    assert e.(readings := []) == i;
  }

  /** A reading has its value under the key for its kind and no other, its type, and its tags if there
      are any. */
  predicate Says(r: Reading, q: Request, v: Value) {
    && ValueType in r && r[ValueType] == Chars(v.typeName)
    && (BinaryValue in r <==> v.kind == Binary) && (MediaType in r <==> v.kind == Binary)
    && (ObjectValue in r <==> v.kind == Object)
    && (PlainValue in r <==> v.kind != Binary && v.kind != Object)
    && (BinaryValue in r ==> r[BinaryValue] == Content(v.content) && r[MediaType] == Chars(q.mediaType))
    && (ObjectValue in r ==> r[ObjectValue] == Content(v.content))
    && (PlainValue in r ==> r[PlainValue] == Chars(v.text))
    && (Tags in r <==> q.tags.Some?) && (Tags in r ==> r[Tags] == Chars(q.tags.value))
  }

  lemma MeaningSays(device: string, c: Command, q: Request, v: Result, now: nat)
    ensures Says(Meaning(device, c, q, v, now), q, v.value)
  {
  }

  lemma AgreeingSays(r: Reading, full: Reading, q: Request, v: Value)
    requires Agrees(r, full) && Says(full, q, v)
    ensures Says(r, q, v)
  {
  }

  /** Wherever a reading names device, profile, resource or time, it is the right one, and a full reading
      names them all. */
  predicate Names(r: Reading, device: string, c: Command, q: Request, v: Result, now: nat, reduced: bool) {
    && (DeviceName in r ==> r[DeviceName] == Chars(device))
    && (ProfileName in r ==> r[ProfileName] == Chars(c.profile))
    && (ResourceName in r ==> r[ResourceName] == Chars(q.resource))
    && (Origin in r ==> r[Origin] == Nanoseconds(if v.origin != 0 then v.origin else now))
    && (!reduced ==> Id in r && DeviceName in r && ProfileName in r && ResourceName in r && Origin in r)
  }

  lemma HeaderSays(r: Reading, device: string, c: Command, q: Request, v: Result, now: nat, reduced: bool)
    requires Carries(r, c, q, v, now, reduced) && Agrees(r, Meaning(device, c, q, v, now))
    ensures Names(r, device, c, q, v, now, reduced)
  {
    hide Meaning;
    MeaningFields(device, c, q, v, now);
  }

  lemma ReadingSays(x: Context, c: Command, values: seq<Result>, reduced: bool, e: Event, i: nat)
    requires |values| == |c.requests| && Assembled(x, c, values, reduced, e) && i < |values|
    ensures i < |e.readings| && Says(e.readings[i], c.requests[i], values[i].value)
    ensures Names(e.readings[i], x.device, c, c.requests[i], values[i], x.now, reduced)
  {
    hide Meaning, Ideal, Says, Agrees, Carries, Names;
    HeaderSays(e.readings[i], x.device, c, c.requests[i], values[i], x.now, reduced);
    MeaningSays(x.device, c, c.requests[i], values[i], x.now);
    AgreeingSays(e.readings[i], Meaning(x.device, c, c.requests[i], values[i], x.now), c.requests[i], values[i].value);
  }
}
