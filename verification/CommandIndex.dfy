/** The per-profile command list of device.c, built once and searched, against a direct search of
    the profile. */
module CommandIndex {
  import opened Bits
  import opened Collections

  /** What the driver's create_res callback makes of a resource's attributes: a parsed form, nothing
      without complaint, or an exception. */
  datatype Attributes = Parsed(form: string) | Unparsed | Exception

  datatype Resource = Resource(
    name: string, readable: bool, writable: bool, defaultValue: string, mask: Option<int>, attributes: Attributes)

  /** A resource operation of a command; an empty default stands for none. */
  datatype Operation = Operation(resource: string, defaultValue: string, mappings: map<string, string>)

  datatype Command = Command(name: string, operations: seq<Operation>, readable: bool, writable: bool, tags: string)

  /** One request of a command: its resource, the resource's parsed attributes if there are any, and
      the complement of its mask. That is zero when a command's resource has no mask, and left unset
      (None) for a resource addressed directly without one. */
  datatype Request = Request(
    resource: Resource, attrs: Option<string>, mask: Option<int>, mappings: map<string, string>,
    default: Option<string>)

  /** The parsed form handed to the driver, NULL when there is none. */
  function AttrsOf(r: Resource): Option<string> {
    if r.attributes.Parsed? then Some(r.attributes.form) else None
  }

  datatype Info = Info(name: string, isGet: bool, requests: seq<Request>, tags: string)

  function FindResource(rs: seq<Resource>, name: string): (k: nat)
    ensures k <= |rs|
    ensures k < |rs| ==> rs[k].name == name
    ensures forall i :: 0 <= i < k ==> rs[i].name != name
  {
    if rs == [] || rs[0].name == name then 0 else 1 + FindResource(rs[1..], name)
  }

  /** Every operation names a resource of the profile, which the source relies on. */
  predicate Resolved(rs: seq<Resource>, c: Command) {
    forall i :: 0 <= i < |c.operations| ==> FindResource(rs, c.operations[i].resource) < |rs|
  }

  function ChosenDefault(operation: string, resource: string): Option<string> {
    if operation != "" then Some(operation) else if resource != "" then Some(resource) else None
  }

  function RequestFor(rs: seq<Resource>, o: Operation): Request
    requires FindResource(rs, o.resource) < |rs|
  {
    var r := rs[FindResource(rs, o.resource)];
    Request(r, AttrsOf(r), Some(if r.mask.Some? then Complement64(r.mask.value) else 0), o.mappings,
            ChosenDefault(o.defaultValue, r.defaultValue))
  }

  /** A command is unavailable as soon as one of its resources' attributes cannot be parsed. */
  predicate Available(rs: seq<Resource>, c: Command)
    requires Resolved(rs, c)
  {
    forall i :: 0 <= i < |c.operations| ==> rs[FindResource(rs, c.operations[i].resource)].attributes != Exception
  }

  function CommandInfo(rs: seq<Resource>, c: Command, forGet: bool): Info
    requires Resolved(rs, c)
  {
    Info(c.name, forGet,
         seq(|c.operations|, i requires 0 <= i < |c.operations| => RequestFor(rs, c.operations[i])), c.tags)
  }

  function ResourceInfo(r: Resource, forGet: bool): Info {
    Info(r.name, forGet,
         [Request(r, AttrsOf(r), if r.mask.Some? then Some(Complement64(r.mask.value)) else None, map[],
                  ChosenDefault("", r.defaultValue))],
         "")
  }

  // ---------------------------------------------------------------- the direct search

  predicate Offers(readable: bool, writable: bool, forGet: bool) {
    if forGet then readable else writable
  }

  /** The first available command of that name and direction. */
  function FindCommandDirect(cs: seq<Command>, rs: seq<Resource>, name: string, forGet: bool): Option<Info>
    requires forall i :: 0 <= i < |cs| ==> Resolved(rs, cs[i])
  {
    if cs == [] then None
    else if cs[0].name == name && Offers(cs[0].readable, cs[0].writable, forGet) && Available(rs, cs[0]) then
      Some(CommandInfo(rs, cs[0], forGet))
    else FindCommandDirect(cs[1..], rs, name, forGet)
  }

  function FindResourceDirect(rs: seq<Resource>, name: string, forGet: bool): Option<Info> {
    if rs == [] then None
    else if rs[0].name == name && Offers(rs[0].readable, rs[0].writable, forGet) && rs[0].attributes != Exception then
      Some(ResourceInfo(rs[0], forGet))
    else FindResourceDirect(rs[1..], name, forGet)
  }

  predicate CommandNamed(cs: seq<Command>, name: string) {
    exists i :: 0 <= i < |cs| && cs[i].name == name
  }

  /** A resource answers to its name only if no command bears it, available or not. */
  function FindDirect(cs: seq<Command>, rs: seq<Resource>, name: string, forGet: bool): Option<Info>
    requires forall i :: 0 <= i < |cs| ==> Resolved(rs, cs[i])
  {
    if CommandNamed(cs, name) then FindCommandDirect(cs, rs, name, forGet) else FindResourceDirect(rs, name, forGet)
  }

  // ---------------------------------------------------------------- the list

  /** The search of edgex_deviceprofile_findcommand. */
  function FindInfo(infos: seq<Info>, name: string, forGet: bool): Option<Info> {
    if infos == [] then None
    else if infos[0].name == name && infos[0].isGet == forGet then Some(infos[0])
    else FindInfo(infos[1..], name, forGet)
  }

  /** `x` if `kept`. */
  function When(kept: bool, x: Info): seq<Info> {
    if kept then [x] else []
  }

  function CommandEntries(rs: seq<Resource>, c: Command): seq<Info>
    requires Resolved(rs, c)
  {
    var available := Available(rs, c);
    When(c.readable && available, CommandInfo(rs, c, true)) + When(c.writable && available, CommandInfo(rs, c, false))
  }

  function ResourceEntries(cs: seq<Command>, r: Resource): seq<Info> {
    var available := !CommandNamed(cs, r.name) && r.attributes != Exception;
    When(r.readable && available, ResourceInfo(r, true)) + When(r.writable && available, ResourceInfo(r, false))
  }

  function CommandList(cs: seq<Command>, rs: seq<Resource>): seq<Info>
    requires forall i :: 0 <= i < |cs| ==> Resolved(rs, cs[i])
  {
    if cs == [] then [] else CommandEntries(rs, cs[0]) + CommandList(cs[1..], rs)
  }

  function ResourceList(cs: seq<Command>, rs: seq<Resource>): seq<Info> {
    if rs == [] then [] else ResourceEntries(cs, rs[0]) + ResourceList(cs, rs[1..])
  }

  lemma {:induction false} FindInConcat(a: seq<Info>, b: seq<Info>, name: string, forGet: bool)
    ensures FindInfo(a + b, name, forGet)
            == if FindInfo(a, name, forGet).Some? then FindInfo(a, name, forGet) else FindInfo(b, name, forGet)
  {
    if a == [] {
      assert a + b == b;
    } else {
      assert (a + b)[1..] == a[1..] + b;
      FindInConcat(a[1..], b, name, forGet);
    }
  }

  /** Searching a read entry followed by a write entry of one name. */
  lemma FindInPair(get: bool, x: Info, put: bool, y: Info, name: string, forGet: bool)
    requires x.isGet && !y.isGet && x.name == y.name
    ensures FindInfo(When(get, x) + When(put, y), name, forGet)
            == if x.name == name && Offers(get, put, forGet) then Some(if forGet then x else y) else None
  {
    FindInConcat(When(get, x), When(put, y), name, forGet);
    assert FindInfo([], name, forGet) == None;
    assert [x][1..] == [] && [y][1..] == [];
  }

  lemma {:induction false} SearchCommands(cs: seq<Command>, rs: seq<Resource>, name: string, forGet: bool)
    requires forall i :: 0 <= i < |cs| ==> Resolved(rs, cs[i])
    ensures FindInfo(CommandList(cs, rs), name, forGet) == FindCommandDirect(cs, rs, name, forGet)
    ensures !CommandNamed(cs, name) ==> FindCommandDirect(cs, rs, name, forGet) == None
  {
    if cs != [] {
      FindInConcat(CommandEntries(rs, cs[0]), CommandList(cs[1..], rs), name, forGet);
      SearchCommands(cs[1..], rs, name, forGet);
      FindInPair(cs[0].readable && Available(rs, cs[0]), CommandInfo(rs, cs[0], true),
                 cs[0].writable && Available(rs, cs[0]), CommandInfo(rs, cs[0], false), name, forGet);
      if !CommandNamed(cs, name) {
        assert cs[0].name != name && !CommandNamed(cs[1..], name);
      }
    }
  }

  lemma {:induction false} SearchResources(cs: seq<Command>, rs: seq<Resource>, name: string, forGet: bool)
    ensures FindInfo(ResourceList(cs, rs), name, forGet)
            == if CommandNamed(cs, name) then None else FindResourceDirect(rs, name, forGet)
  {
    if rs != [] {
      FindInConcat(ResourceEntries(cs, rs[0]), ResourceList(cs, rs[1..]), name, forGet);
      SearchResources(cs, rs[1..], name, forGet);
      var available := !CommandNamed(cs, rs[0].name) && rs[0].attributes != Exception;
      FindInPair(rs[0].readable && available, ResourceInfo(rs[0], true),
                 rs[0].writable && available, ResourceInfo(rs[0], false), name, forGet);
    }
  }

  /** Searching the list is searching the profile. */
  lemma ListSearchIsDirect(cs: seq<Command>, rs: seq<Resource>, name: string, forGet: bool)
    requires forall i :: 0 <= i < |cs| ==> Resolved(rs, cs[i])
    ensures FindInfo(CommandList(cs, rs) + ResourceList(cs, rs), name, forGet) == FindDirect(cs, rs, name, forGet)
  {
    FindInConcat(CommandList(cs, rs), ResourceList(cs, rs), name, forGet);
    SearchCommands(cs, rs, name, forGet);
    SearchResources(cs, rs, name, forGet);
  }

  // ---------------------------------------------------------------- what is found

  /** The resource that a name means: the first of that name. */
  predicate Means(rs: seq<Resource>, name: string, j: int) {
    0 <= j < |rs| && rs[j].name == name && forall i :: 0 <= i < j ==> rs[i].name != name
  }

  /** The mask handed to the driver has the bits that the resource's mask has not, and no others. */
  predicate MaskHanded(r: Resource, mask: nat) {
    r.mask.Some? ==>
      var bits := r.mask.value % 0x1_0000_0000_0000_0000;
      And(mask, bits) == 0 && Or(mask, bits) == 0xFFFF_FFFF_FFFF_FFFF
  }

  /** The parsed form of the attributes, or nothing. */
  predicate AttrsHanded(r: Resource, attrs: Option<string>) {
    match r.attributes
    case Parsed(form) => attrs == Some(form)
    case _ => attrs == None
  }

  /** What a request for resource `r` made by operation `o` holds: the operation's default before the
      resource's, the operation's mappings, and no mask bits where the resource has no mask. */
  predicate RequestHolds(q: Request, r: Resource, o: Operation) {
    && q.resource == r && AttrsHanded(r, q.attrs) && q.mappings == o.mappings
    && (o.defaultValue != "" ==> q.default == Some(o.defaultValue))
    && (o.defaultValue == "" && r.defaultValue != "" ==> q.default == Some(r.defaultValue))
    && (o.defaultValue == "" && r.defaultValue == "" ==> q.default == None)
    && q.mask.Some? && q.mask.value >= 0 && MaskHanded(r, q.mask.value) && (r.mask.None? ==> q.mask.value == 0)
  }

  /** What a command's info holds: one request per operation, in order, for the resource it names. */
  ghost predicate CommandHolds(rs: seq<Resource>, c: Command, forGet: bool, info: Info) {
    && info.name == c.name && info.isGet == forGet && info.tags == c.tags && |info.requests| == |c.operations|
    && forall i, j :: 0 <= i < |c.operations| && Means(rs, c.operations[i].resource, j) ==>
         RequestHolds(info.requests[i], rs[j], c.operations[i])
  }

  /** What the info of a resource addressed directly holds: one request, with the resource's default. */
  predicate ResourceHolds(r: Resource, forGet: bool, info: Info) {
    && info.name == r.name && info.isGet == forGet && info.tags == "" && |info.requests| == 1
    && var q := info.requests[0];
    && q.resource == r && AttrsHanded(r, q.attrs) && q.mappings == map[]
    && q.default == (if r.defaultValue != "" then Some(r.defaultValue) else None)
    && (r.mask.None? <==> q.mask.None?) && (q.mask.Some? ==> q.mask.value >= 0 && MaskHanded(r, q.mask.value))
  }

  /** A command serves a name and a direction unless the attributes of one of its resources are refused. */
  ghost predicate Serves(rs: seq<Resource>, c: Command, name: string, forGet: bool) {
    && c.name == name && (if forGet then c.readable else c.writable)
    && forall i, j :: 0 <= i < |c.operations| && Means(rs, c.operations[i].resource, j) ==>
         rs[j].attributes != Exception
  }

  predicate ServesDirectly(r: Resource, name: string, forGet: bool) {
    r.name == name && (if forGet then r.readable else r.writable) && r.attributes != Exception
  }

  ghost predicate FirstCommand(cs: seq<Command>, rs: seq<Resource>, name: string, forGet: bool, k: int) {
    && 0 <= k < |cs| && Serves(rs, cs[k], name, forGet)
    && forall i :: 0 <= i < k ==> !Serves(rs, cs[i], name, forGet)
  }

  predicate FirstResource(rs: seq<Resource>, name: string, forGet: bool, k: int) {
    && 0 <= k < |rs| && ServesDirectly(rs[k], name, forGet)
    && forall i :: 0 <= i < k ==> !ServesDirectly(rs[i], name, forGet)
  }

  /** The answer to a lookup: the first command that serves it; else, if no command has the name at all,
      the first resource that does; else nothing. */
  ghost predicate Answers(cs: seq<Command>, rs: seq<Resource>, name: string, forGet: bool, info: Option<Info>) {
    if exists i :: 0 <= i < |cs| && cs[i].name == name then
      if info.Some? then
        exists k :: FirstCommand(cs, rs, name, forGet, k) && CommandHolds(rs, cs[k], forGet, info.value)
      else forall i :: 0 <= i < |cs| ==> !Serves(rs, cs[i], name, forGet)
    else
      if info.Some? then
        exists k :: FirstResource(rs, name, forGet, k) && ResourceHolds(rs[k], forGet, info.value)
      else forall i :: 0 <= i < |rs| ==> !ServesDirectly(rs[i], name, forGet)
  }

  lemma MeansFound(rs: seq<Resource>, name: string, j: int)
    ensures Means(rs, name, j) <==> FindResource(rs, name) < |rs| && j == FindResource(rs, name)
  {
  }

  lemma HandedComplement(r: Resource)
    requires r.mask.Some?
    ensures MaskHanded(r, Complement64(r.mask.value))
  {
    hide And, Or;
    Complement64Splits(r.mask.value);
  }

  lemma RequestForHolds(rs: seq<Resource>, o: Operation, j: int)
    requires FindResource(rs, o.resource) < |rs| && Means(rs, o.resource, j)
    ensures RequestHolds(RequestFor(rs, o), rs[j], o)
  {
    hide MaskHanded, FindResource, And, Or;
    MeansFound(rs, o.resource, j);
    if rs[j].mask.Some? { HandedComplement(rs[j]); } else { NoMaskHanded(rs[j], 0); }
  }

  lemma NoMaskHanded(r: Resource, mask: nat)
    requires r.mask.None?
    ensures MaskHanded(r, mask)
  {
  }

  lemma CommandInfoHolds(rs: seq<Resource>, c: Command, forGet: bool)
    requires Resolved(rs, c)
    ensures CommandHolds(rs, c, forGet, CommandInfo(rs, c, forGet))
  {
    hide RequestHolds, RequestFor, FindResource;
    forall i, j | 0 <= i < |c.operations| && Means(rs, c.operations[i].resource, j)
      ensures RequestHolds(CommandInfo(rs, c, forGet).requests[i], rs[j], c.operations[i])
    {
      RequestForHolds(rs, c.operations[i], j);
    }
  }

  lemma ResourceInfoHolds(r: Resource, forGet: bool)
    ensures ResourceHolds(r, forGet, ResourceInfo(r, forGet))
  {
    hide MaskHanded, And, Or;
    if r.mask.Some? { HandedComplement(r); }
  }

  lemma ServesIff(rs: seq<Resource>, c: Command, name: string, forGet: bool)
    requires Resolved(rs, c)
    ensures Serves(rs, c, name, forGet)
            <==> c.name == name && Offers(c.readable, c.writable, forGet) && Available(rs, c)
  {
    hide FindResource, Means;
    forall i | 0 <= i < |c.operations|
      ensures Means(rs, c.operations[i].resource, FindResource(rs, c.operations[i].resource))
    {
      MeansFound(rs, c.operations[i].resource, FindResource(rs, c.operations[i].resource));
    }
    forall i, j | 0 <= i < |c.operations| && Means(rs, c.operations[i].resource, j)
      ensures j == FindResource(rs, c.operations[i].resource)
    {
      MeansFound(rs, c.operations[i].resource, j);
    }
  }

  lemma {:induction false} CommandSearchAnswers(cs: seq<Command>, rs: seq<Resource>, name: string, forGet: bool)
    requires forall i :: 0 <= i < |cs| ==> Resolved(rs, cs[i])
    ensures var info := FindCommandDirect(cs, rs, name, forGet);
            if info.Some? then
              exists k :: FirstCommand(cs, rs, name, forGet, k) && CommandHolds(rs, cs[k], forGet, info.value)
            else forall i :: 0 <= i < |cs| ==> !Serves(rs, cs[i], name, forGet)
  {
    hide Serves, CommandHolds, Resolved, Available, CommandInfo, Offers;
    if cs != [] {
      ServesIff(rs, cs[0], name, forGet);
      if Serves(rs, cs[0], name, forGet) {
        CommandInfoHolds(rs, cs[0], forGet);
        assert FirstCommand(cs, rs, name, forGet, 0);
      } else {
        CommandSearchAnswers(cs[1..], rs, name, forGet);
        var info := FindCommandDirect(cs[1..], rs, name, forGet);
        if info.Some? {
          var k :| FirstCommand(cs[1..], rs, name, forGet, k) && CommandHolds(rs, cs[1..][k], forGet, info.value);
          assert FirstCommand(cs, rs, name, forGet, k + 1) by {
            forall i | 0 <= i < k + 1 ensures !Serves(rs, cs[i], name, forGet) {
              if i > 0 { assert cs[i] == cs[1..][i - 1]; }
            }
          }
        } else {
          forall i | 0 <= i < |cs| ensures !Serves(rs, cs[i], name, forGet) {
            if i > 0 { assert cs[i] == cs[1..][i - 1]; }
          }
        }
      }
    }
  }

  lemma {:induction false} ResourceSearchAnswers(rs: seq<Resource>, name: string, forGet: bool)
    ensures var info := FindResourceDirect(rs, name, forGet);
            if info.Some? then
              exists k :: FirstResource(rs, name, forGet, k) && ResourceHolds(rs[k], forGet, info.value)
            else forall i :: 0 <= i < |rs| ==> !ServesDirectly(rs[i], name, forGet)
  {
    hide ResourceHolds, ResourceInfo;
    if rs != [] {
      if ServesDirectly(rs[0], name, forGet) {
        ResourceInfoHolds(rs[0], forGet);
        assert FirstResource(rs, name, forGet, 0);
      } else {
        ResourceSearchAnswers(rs[1..], name, forGet);
        var info := FindResourceDirect(rs[1..], name, forGet);
        if info.Some? {
          var k :| FirstResource(rs[1..], name, forGet, k) && ResourceHolds(rs[1..][k], forGet, info.value);
          assert FirstResource(rs, name, forGet, k + 1) by {
            forall i | 0 <= i < k + 1 ensures !ServesDirectly(rs[i], name, forGet) {
              if i > 0 { assert rs[i] == rs[1..][i - 1]; }
            }
          }
        } else {
          forall i | 0 <= i < |rs| ensures !ServesDirectly(rs[i], name, forGet) {
            if i > 0 { assert rs[i] == rs[1..][i - 1]; }
          }
        }
      }
    }
  }

  /** The direct search answers so. */
  lemma DirectSearchAnswers(cs: seq<Command>, rs: seq<Resource>, name: string, forGet: bool)
    requires forall i :: 0 <= i < |cs| ==> Resolved(rs, cs[i])
    ensures Answers(cs, rs, name, forGet, FindDirect(cs, rs, name, forGet))
  {
    hide FirstCommand, FirstResource, CommandHolds, ResourceHolds, Serves, ServesDirectly, Resolved;
    hide FindCommandDirect, FindResourceDirect;
    CommandSearchAnswers(cs, rs, name, forGet);
    ResourceSearchAnswers(rs, name, forGet);
  }

  // ---------------------------------------------------------------- the profile and its cache

  class Profile {
    const commands: seq<Command>
    const resources: seq<Resource>
    var cmdinfo: seq<Info>
    /** The parsed attributes kept per resource, and how often create_res has made each of them. */
    var parsed: map<nat, string>
    ghost var made: multiset<nat>

    /** Cached forms are what the driver made of the attributes, each made exactly once. */
    ghost predicate CacheSound()
      reads this`parsed, this`made
    {
      && (forall k :: k in parsed ==> k < |resources| && resources[k].attributes == Parsed(parsed[k]))
      && (forall k :: made[k] == if k in parsed then 1 else 0)
    }

    ghost predicate Valid()
      reads this
    {
      && CacheSound()
      && (forall i :: 0 <= i < |commands| ==> Resolved(resources, commands[i]))
      && (cmdinfo == [] || cmdinfo == CommandList(commands, resources) + ResourceList(commands, resources))
    }

    constructor (commands: seq<Command>, resources: seq<Resource>)
      requires forall i :: 0 <= i < |commands| ==> Resolved(resources, commands[i])
      ensures Valid() && this.commands == commands && this.resources == resources && cmdinfo == []
    {
      this.commands, this.resources, this.cmdinfo := commands, resources, [];
      this.parsed, this.made := map[], multiset{};
    }

    /** Nothing more to be made of a resource's attributes: they are cached, or have no form. */
    ghost predicate Settled(k: nat)
      requires k < |resources|
      reads this`parsed
    {
      resources[k].attributes.Parsed? ==> k in parsed
    }

    /** Ask the driver to parse a resource's attributes unless that has been done before. */
    method ParseAttributes(k: nat) returns (ok: bool)
      requires CacheSound() && k < |resources|
      modifies this`parsed, this`made
      ensures CacheSound() && Settled(k) && ok == (resources[k].attributes != Exception)
      ensures forall j :: j in old(parsed) ==> j in parsed
    {
      ok := true;
      if k !in parsed {
        match resources[k].attributes {
          case Parsed(form) =>
            parsed := parsed[k := form];
            made := made + multiset{k};
          case Unparsed =>
          case Exception => ok := false;
        }
      }
    }

    /** The cached attributes as a request takes them. */
    method CachedAttributes(k: nat) returns (attrs: Option<string>)
      requires CacheSound() && k < |resources| && Settled(k)
      ensures attrs == AttrsOf(resources[k])
    {
      attrs := if k in parsed then Some(parsed[k]) else None;
    }

    /** The first loop of infoForRes: parse every resource's attributes, giving up at an exception. */
    method ParseAll(c: Command) returns (ok: bool)
      requires CacheSound() && Resolved(resources, c)
      modifies this`parsed, this`made
      ensures CacheSound() && ok == Available(resources, c)
      ensures ok ==> forall i :: 0 <= i < |c.operations| ==> Settled(FindResource(resources, c.operations[i].resource))
    {
      hide CacheSound;
      var n := 0;
      while n < |c.operations|
        invariant 0 <= n <= |c.operations| && CacheSound()
        invariant forall i :: 0 <= i < n ==>
                    var k := FindResource(resources, c.operations[i].resource);
                    resources[k].attributes != Exception && Settled(k)
      {
        ok := ParseAttributes(FindResource(resources, c.operations[n].resource));
        if !ok {
          return;
        }
        n := n + 1;
      }
      return true;
    }

    /** One turn of the second loop of infoForRes. */
    method RequestOf(o: Operation) returns (q: Request)
      requires CacheSound() && FindResource(resources, o.resource) < |resources|
      requires Settled(FindResource(resources, o.resource))
      ensures q == RequestFor(resources, o)
    {
      var k := FindResource(resources, o.resource);
      var r := resources[k];
      var attrs := CachedAttributes(k);
      var mask := 0;
      if r.mask.Some? {
        mask := Complement64(r.mask.value);
      }
      var dfl := None;
      if o.defaultValue != "" {
        dfl := Some(o.defaultValue);
      } else if r.defaultValue != "" {
        dfl := Some(r.defaultValue);
      }
      q := Request(r, attrs, Some(mask), o.mappings, dfl);
    }

    /** infoForRes: parse every resource's attributes, then fill the requests in order. */
    method InfoForCommand(c: Command, forGet: bool) returns (info: Option<Info>)
      requires CacheSound() && Resolved(resources, c)
      modifies this`parsed, this`made
      ensures CacheSound()
      ensures info == if Available(resources, c) then Some(CommandInfo(resources, c, forGet)) else None
    {
      hide CacheSound, Available, RequestFor, Settled;
      var ok := ParseAll(c);
      if !ok {
        return None;
      }
      var requests: seq<Request> := [];
      var n := 0;
      while n < |c.operations|
        invariant 0 <= n <= |c.operations| && |requests| == n && CacheSound()
        invariant forall i :: 0 <= i < |c.operations| ==> Settled(FindResource(resources, c.operations[i].resource))
        invariant forall i :: 0 <= i < n ==> requests[i] == RequestFor(resources, c.operations[i])
      {
        var q := RequestOf(c.operations[n]);
        requests := requests + [q];
        n := n + 1;
      }
      assert requests == CommandInfo(resources, c, forGet).requests;
      info := Some(Info(c.name, forGet, requests, c.tags));
    }

    /** infoForDevRes. */
    method InfoForResource(k: nat, forGet: bool) returns (info: Option<Info>)
      requires CacheSound() && k < |resources|
      modifies this`parsed, this`made
      ensures CacheSound()
      ensures info == if resources[k].attributes == Exception then None else Some(ResourceInfo(resources[k], forGet))
    {
      hide CacheSound, Settled;
      var ok := ParseAttributes(k);
      if !ok {
        return None;
      }
      var r := resources[k];
      var attrs := CachedAttributes(k);
      var mask := if r.mask.Some? then Some(Complement64(r.mask.value)) else None;
      var dfl := if r.defaultValue != "" then Some(r.defaultValue) else None;
      info := Some(Info(r.name, forGet, [Request(r, attrs, mask, map[], dfl)], ""));
    }

    /** insertCmdInfo: appended unless there is nothing to append. */
    method InsertInfo(infos: seq<Info>, info: Option<Info>) returns (infos': seq<Info>)
      ensures infos' == infos + if info.Some? then [info.value] else []
    {
      infos' := if info.Some? then infos + [info.value] else infos;
    }

    method AppendCommandEntries(infos: seq<Info>, c: Command) returns (infos': seq<Info>)
      requires CacheSound() && Resolved(resources, c)
      modifies this`parsed, this`made
      ensures CacheSound() && infos' == infos + CommandEntries(resources, c)
    {
      hide Available, CommandInfo, CacheSound;
      infos' := infos;
      if c.readable {
        var info := InfoForCommand(c, true);
        infos' := InsertInfo(infos', info);
      }
      if c.writable {
        var info := InfoForCommand(c, false);
        infos' := InsertInfo(infos', info);
      }
    }

    method AppendResourceEntries(infos: seq<Info>, j: nat) returns (infos': seq<Info>)
      requires CacheSound() && j < |resources|
      modifies this`parsed, this`made
      ensures CacheSound() && infos' == infos + ResourceEntries(commands, resources[j])
    {
      hide ResourceInfo, CacheSound;
      infos' := infos;
      var r := resources[j];
      var k := 0;
      while k < |commands| && commands[k].name != r.name
        invariant 0 <= k <= |commands| && forall l :: 0 <= l < k ==> commands[l].name != r.name
      {
        k := k + 1;
      }
      if k == |commands| {
        if r.readable {
          var info := InfoForResource(j, true);
          infos' := InsertInfo(infos', info);
        }
        if r.writable {
          var info := InfoForResource(j, false);
          infos' := InsertInfo(infos', info);
        }
      }
    }

    method ListCommands() returns (infos: seq<Info>)
      requires Valid()
      modifies this`parsed, this`made
      ensures CacheSound() && infos == CommandList(commands, resources)
    {
      hide Resolved, CommandEntries, CacheSound;
      infos := [];
      var i := 0;
      while i < |commands|
        invariant 0 <= i <= |commands| && CacheSound()
        invariant infos + CommandList(commands[i..], resources) == CommandList(commands, resources)
      {
        assert commands[i..][1..] == commands[i + 1..];
        Assoc(infos, CommandEntries(resources, commands[i]), CommandList(commands[i + 1..], resources));
        infos := AppendCommandEntries(infos, commands[i]);
        i := i + 1;
      }
    }

    method ListResources(before: seq<Info>) returns (infos: seq<Info>)
      requires CacheSound()
      modifies this`parsed, this`made
      ensures CacheSound() && infos == before + ResourceList(commands, resources)
    {
      hide ResourceEntries, CacheSound;
      infos := before;
      var j := 0;
      while j < |resources|
        invariant 0 <= j <= |resources| && CacheSound()
        invariant infos + ResourceList(commands, resources[j..]) == before + ResourceList(commands, resources)
      {
        assert resources[j..][1..] == resources[j + 1..];
        Assoc(infos, ResourceEntries(commands, resources[j]), ResourceList(commands, resources[j + 1..]));
        infos := AppendResourceEntries(infos, j);
        j := j + 1;
      }
    }

    /** populateCmdInfo: commands first, then resources whose name no command bears. */
    method Populate()
      requires Valid() && cmdinfo == []
      modifies this
      ensures Valid() && cmdinfo == CommandList(commands, resources) + ResourceList(commands, resources)
    {
      var infos := ListCommands();
      cmdinfo := ListResources(infos);
    }

    /** The search loop of edgex_deviceprofile_findcommand. */
    method SearchList(name: string, forGet: bool) returns (info: Option<Info>)
      ensures info == FindInfo(cmdinfo, name, forGet)
    {
      var i := 0;
      while i < |cmdinfo| && (cmdinfo[i].name != name || cmdinfo[i].isGet != forGet)
        invariant 0 <= i <= |cmdinfo|
        invariant FindInfo(cmdinfo[i..], name, forGet) == FindInfo(cmdinfo, name, forGet)
      {
        assert cmdinfo[i..][1..] == cmdinfo[i + 1..];
        i := i + 1;
      }
      info := if i < |cmdinfo| then Some(cmdinfo[i]) else None;
    }

    /** edgex_deviceprofile_findcommand: on first use the list is built; every use answers as a
        direct search of the profile would. */
    method FindCommand(name: string, forGet: bool) returns (info: Option<Info>)
      requires Valid()
      modifies this
      ensures Valid() && info == FindDirect(commands, resources, name, forGet)
      ensures Answers(commands, resources, name, forGet, info)
    {
      hide Resolved, FindDirect, CommandList, ResourceList, FindInfo, Answers;
      if cmdinfo == [] {
        Populate();
      }
      ListSearchIsDirect(commands, resources, name, forGet);
      DirectSearchAnswers(commands, resources, name, forGet);
      info := SearchList(name, forGet);
    }
  }
}
