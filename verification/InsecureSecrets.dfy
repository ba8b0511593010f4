/** Insecure secrets: flattened into the configuration by config.c and regrouped by
    secrets-insecure.c, each loop taking the keys of a map in any order. */
module InsecureSecrets {
  import opened Collections
  import opened ConfigKeys

  const SEC_PREFIX: string := "Writable/InsecureSecrets/"
  const SEC_SUFFIX: string := "/SecretName"
  const SEC_DATA: string := "/SecretData/"

  /** An entry of Writable/InsecureSecrets: not a table, or a table with or without each part. */
  datatype Entry = NotTable | Table(name: Option<string>, data: Option<Config>)

  predicate Named(t: Entry) {
    t.Table? && t.name.Some?
  }

  /** The entry has that secret name. */
  predicate Bears(secrets: map<string, Entry>, e: string, n: string) {
    e in secrets && Named(secrets[e]) && secrets[e].name.value == n
  }

  function DataOf(t: Entry): Config {
    if t.Table? && t.data.Some? then t.data.value else map[]
  }

  function NameKey(e: string): string {
    SEC_PREFIX + e + SEC_SUFFIX
  }

  function DataPrefix(e: string): string {
    SEC_PREFIX + e + SEC_DATA
  }

  function Prefixed(p: string, keys: set<string>): (r: set<string>)
    ensures forall c :: c in r <==> p <= c && c[|p|..] in keys
  {
    var r := set d | d in keys :: p + d;
    assert forall c :: p <= c ==> c == p + c[|p|..];
    assert forall d: string :: (p + d)[|p|..] == d;
    r
  }

  function Filed(p: string, data: Config): Config {
    map c | c in Prefixed(p, data.Keys) :: data[c[|p|..]]
  }

  /** What one entry adds to the flat configuration. */
  function Emitted(e: string, t: Entry): Config {
    if Named(t) then Filed(DataPrefix(e), DataOf(t))[NameKey(e) := t.name.value] else map[]
  }

  ghost predicate Flattened(conf: Config, secrets: map<string, Entry>, done: set<string>, r: Config)
    requires done <= secrets.Keys
  {
    && (forall c :: c in conf ==> c in r)
    && (forall e, c :: e in done && c in Emitted(e, secrets[e]) ==> c in r)
    && (forall c :: c in r ==>
          || (exists e :: e in done && c in Emitted(e, secrets[e]) && r[c] == Emitted(e, secrets[e])[c])
          || (c in conf && r[c] == conf[c] && forall e :: e in done ==> c !in Emitted(e, secrets[e])))
  }

  predicate IsNameKey(key: string) {
    SEC_PREFIX <= key && EndsWith(key, SEC_SUFFIX)
  }

  predicate EndsWith(s: string, suffix: string) {
    |suffix| <= |s| && s[|s| - |suffix|..] == suffix
  }

  /** The data prefix computed from a name key: its last segment replaced. */
  function PrefixFor(key: string): string
    requires IsNameKey(key)
  {
    key[..|key| - |SEC_SUFFIX|] + SEC_DATA
  }

  function Stripped(p: string, keys: set<string>): (r: set<string>)
    ensures forall d :: d in r <==> p + d in keys
  {
    var r := set c | c in keys && p <= c :: c[|p|..];
    assert forall c :: p <= c ==> c == p + c[|p|..];
    assert forall d: string :: (p + d)[|p|..] == d;
    r
  }

  function Grouped(config: Config, prefix: string): Config {
    map d | d in Stripped(prefix, config.Keys) :: config[prefix + d]
  }

  ghost predicate Regrouped(config: Config, r: map<string, Config>) {
    && (forall c :: c in config && IsNameKey(c) ==> config[c] in r)
    && (forall n :: n in r ==>
          exists c :: c in config && IsNameKey(c) && config[c] == n && r[n] == Grouped(config, PrefixFor(c)))
  }

  predicate NameSegmentLast(d: string) {
    EndsWith("/" + d, SEC_SUFFIX)
  }

  /** Entry keys are single segments. */
  ghost predicate Single(secrets: map<string, Entry>) {
    forall e :: e in secrets ==> '/' !in e
  }

  /** Two texts with a slash-free start before a slash: equal prefixes mean equal starts. */
  lemma SameStart(a: string, x: string, b: string, y: string)
    requires '/' !in a && '/' !in b
    requires x != "" && x[0] == '/' && y != "" && y[0] == '/'
    requires a + x <= b + y
    ensures a == b && x <= y
  {
    var rest := (b + y)[|a + x|..];
    assert b + y == a + (x + rest);
    ToSlashOfSegment(a, x + rest);
    ToSlashOfSegment(b, y);
    AfterPrefix(a, x + rest);
    AfterPrefix(b, y);
  }

  lemma CancelPrefix(p: string, a: string, b: string)
    requires p + a <= p + b
    ensures a <= b
  {
    assert a == (p + a)[|p|..] && b == (p + b)[|p|..];
    assert (p + b)[..|p + a|] == p + a;
    assert b[..|a|] == (p + b)[|p|..|p + a|] == (p + a)[|p|..];
  }

  /** Under one entry's data prefix fall exactly that entry's data keys. */
  lemma PrefixSeparates(e: string, e': string, d: string)
    requires '/' !in e && '/' !in e'
    ensures DataPrefix(e) <= DataPrefix(e') + d ==> e == e'
    ensures !(DataPrefix(e) <= NameKey(e'))
  {
    var p := SEC_PREFIX;
    Assoc(p, e, SEC_DATA);
    Assoc(p, e', SEC_SUFFIX);
    assert DataPrefix(e') + d == p + (e' + (SEC_DATA + d));
    if DataPrefix(e) <= DataPrefix(e') + d {
      CancelPrefix(p, e + SEC_DATA, e' + (SEC_DATA + d));
      SameStart(e, SEC_DATA, e', SEC_DATA + d);
    }
    if DataPrefix(e) <= NameKey(e') {
      CancelPrefix(p, e + SEC_DATA, e' + SEC_SUFFIX);
      SameStart(e, SEC_DATA, e', SEC_SUFFIX);
    }
  }

  lemma NameKeyForm(e: string)
    ensures SEC_PREFIX <= NameKey(e) && IsNameKey(NameKey(e)) && PrefixFor(NameKey(e)) == DataPrefix(e)
  {
    AfterPrefix(SEC_PREFIX + e, SEC_SUFFIX);
    Assoc(SEC_PREFIX, e, SEC_SUFFIX);
  }

  lemma EndingOfConcat(a: string, b: string, suffix: string)
    requires |suffix| <= |b|
    ensures EndsWith(a + b, suffix) == EndsWith(b, suffix)
  {
    assert (a + b)[|a + b| - |suffix|..] == b[|b| - |suffix|..];
  }

  /** A data key looks like a name key exactly when its last segment is SecretName. */
  lemma DataKeyForm(e: string, d: string)
    ensures IsNameKey(DataPrefix(e) + d) == NameSegmentLast(d)
  {
    var q := SEC_PREFIX + e + "/SecretData";
    assert SEC_DATA == "/SecretData" + "/";
    Assoc(SEC_PREFIX + e, "/SecretData", "/");
    assert DataPrefix(e) == q + "/";
    Assoc(q, "/", d);
    assert SEC_PREFIX <= DataPrefix(e) + d;
    if |SEC_SUFFIX| <= |"/" + d| {
      EndingOfConcat(q, "/" + d, SEC_SUFFIX);
    } else if EndsWith(q + ("/" + d), SEC_SUFFIX) {
      SlashAtStartOnly(q, d);
      assert false;
    }
  }

  /** The only slash of the suffix is its first character, so it cannot reach over another one. */
  lemma SlashAtStartOnly(q: string, d: string)
    requires |d| + 1 < |SEC_SUFFIX|
    ensures !EndsWith(q + ("/" + d), SEC_SUFFIX)
  {
    var s := q + ("/" + d);
    assert s[|q|] == '/';
    if |SEC_SUFFIX| <= |s| {
      var k := |SEC_SUFFIX| - (|d| + 1);
      assert s[|s| - |SEC_SUFFIX|..][k] == s[|q|];
      assert SEC_SUFFIX[k] != '/';
    }
  }

  lemma PrefixText(key: string)
    requires IsNameKey(key)
    ensures 0 <= |key| + 1 - |SEC_SUFFIX| <= |key|
    ensures key[..|key| + 1 - |SEC_SUFFIX|] + "SecretData/" == PrefixFor(key)
  {
    var k := |key| - |SEC_SUFFIX|;
    assert key[k] == key[k..][0] == '/';
    assert key[..k + 1] == key[..k] + "/";
    assert SEC_DATA == "/" + "SecretData/";
    Assoc(key[..k], "/", "SecretData/");
  }

  // ---------------------------------------------------------------- the flat keys

  lemma EmittedData(e: string, t: Entry, d: string)
    requires Named(t) && d in DataOf(t) && DataPrefix(e) + d != NameKey(e)
    ensures DataPrefix(e) + d in Emitted(e, t) && Emitted(e, t)[DataPrefix(e) + d] == DataOf(t)[d]
  {
    hide Prefixed, DataPrefix, NameKey;
    AfterPrefix(DataPrefix(e), d);
  }

  lemma EmittedForm(e: string, t: Entry, c: string)
    requires c in Emitted(e, t)
    ensures Named(t)
    ensures (c == NameKey(e) && Emitted(e, t)[c] == t.name.value)
            || exists d :: d in DataOf(t) && c == DataPrefix(e) + d && Emitted(e, t)[c] == DataOf(t)[d]
  {
    if c != NameKey(e) {
      var d :| d in DataOf(t) && c == DataPrefix(e) + d;
      AfterPrefix(DataPrefix(e), d);
    }
  }

  /** Secrets under single-segment entry keys, flattened among keys that are not secrets. */
  ghost predicate FlatSecrets(conf: Config, secrets: map<string, Entry>, flat: Config) {
    && Single(secrets)
    && (forall c :: c in conf ==> !(SEC_PREFIX <= c))
    && Flattened(conf, secrets, secrets.Keys, flat)
  }

  /** Which flat key stands where: a key under the secrets' prefix comes from one entry. */
  lemma FlatKeyForm(conf: Config, secrets: map<string, Entry>, flat: Config, c: string) returns (e: string)
    requires FlatSecrets(conf, secrets, flat) && c in flat && SEC_PREFIX <= c
    ensures e in secrets && Named(secrets[e])
    ensures (c == NameKey(e) && flat[c] == secrets[e].name.value)
            || exists d :: d in DataOf(secrets[e]) && c == DataPrefix(e) + d && flat[c] == DataOf(secrets[e])[d]
  {
    hide Emitted, NameKey, DataPrefix, DataOf, Single, Named;
    e :| e in secrets && c in Emitted(e, secrets[e]) && flat[c] == Emitted(e, secrets[e])[c];
    EmittedForm(e, secrets[e], c);
  }

  lemma DataIsFlat(conf: Config, secrets: map<string, Entry>, flat: Config, e: string, d: string)
    requires FlatSecrets(conf, secrets, flat) && e in secrets && Named(secrets[e]) && d in DataOf(secrets[e])
    ensures DataPrefix(e) + d in flat
  {
    hide Emitted, NameKey, DataPrefix, DataOf, Named;
    PrefixSeparates(e, e, "");
    EmittedData(e, secrets[e], d);
  }

  lemma UnderPrefix(conf: Config, secrets: map<string, Entry>, flat: Config, e: string, d: string)
    requires FlatSecrets(conf, secrets, flat) && e in secrets && DataPrefix(e) + d in flat
    ensures d in DataOf(secrets[e]) && flat[DataPrefix(e) + d] == DataOf(secrets[e])[d]
  {
    hide Emitted, NameKey, DataOf, Named, Flattened;
    var c := DataPrefix(e) + d;
    assert SEC_PREFIX <= c;
    var e' := FlatKeyForm(conf, secrets, flat, c);
    PrefixSeparates(e, e', "");
    if c != NameKey(e') {
      var d' :| d' in DataOf(secrets[e']) && c == DataPrefix(e') + d' && flat[c] == DataOf(secrets[e'])[d'];
      PrefixSeparates(e, e', d');
      AfterPrefix(DataPrefix(e), d);
      AfterPrefix(DataPrefix(e), d');
    }
  }

  /** Below an entry's data prefix the flat configuration holds exactly that entry's data. */
  lemma GroupedIsData(conf: Config, secrets: map<string, Entry>, flat: Config, e: string, y: string)
    requires FlatSecrets(conf, secrets, flat) && e in secrets && Named(secrets[e])
    ensures Grouped(flat, DataPrefix(e) + y) == Grouped(DataOf(secrets[e]), y)
  {
    hide Emitted, NameKey, DataPrefix, DataOf, Named, SEC_PREFIX, FlatSecrets, Stripped;
    var p, data := DataPrefix(e), DataOf(secrets[e]);
    forall d: string
      ensures p + y + d in flat <==> y + d in data
      ensures y + d in data ==> flat[p + y + d] == data[y + d]
    {
      Assoc(p, y, d);
      if p + (y + d) in flat { UnderPrefix(conf, secrets, flat, e, y + d); }
      if y + d in data { DataIsFlat(conf, secrets, flat, e, y + d); UnderPrefix(conf, secrets, flat, e, y + d); }
    }
    assert Grouped(flat, p + y).Keys == Grouped(data, y).Keys;
  }

  lemma GroupedByNothing(data: Config)
    ensures Grouped(data, "") == data
  {
    assert forall d: string :: "" + d == d;
    assert Grouped(data, "").Keys == data.Keys;
  }

  lemma NameIsFlat(conf: Config, secrets: map<string, Entry>, flat: Config, e: string)
    requires FlatSecrets(conf, secrets, flat) && e in secrets && Named(secrets[e])
    ensures NameKey(e) in flat && flat[NameKey(e)] == secrets[e].name.value
  {
    hide NameKey, DataPrefix, DataOf, IsNameKey, PrefixFor, Emitted;
    EmittedName(e, secrets[e]);
    NameKeyForm(e);
    var e' := FlatKeyForm(conf, secrets, flat, NameKey(e));
    hide Flattened;
    if d :| d in DataOf(secrets[e']) && NameKey(e) == DataPrefix(e') + d {
      PrefixSeparates(e', e, d);
    } else {
      SameNameKey(e, e');
    }
  }

  lemma EmittedName(e: string, t: Entry)
    requires Named(t)
    ensures NameKey(e) in Emitted(e, t)
  {
  }

  lemma SameNameKey(e: string, e': string)
    requires NameKey(e) == NameKey(e')
    ensures e == e'
  {
    NameKeyForm(e);
    Assoc(SEC_PREFIX, e, SEC_SUFFIX);
    Assoc(SEC_PREFIX, e', SEC_SUFFIX);
    AfterPrefix(SEC_PREFIX, e + SEC_SUFFIX);
    AfterPrefix(SEC_PREFIX, e' + SEC_SUFFIX);
    assert e == (e + SEC_SUFFIX)[..|e|] && e' == (e' + SEC_SUFFIX)[..|e'|];
  }

  // ---------------------------------------------------------------- where secrets come from

  /** What stands before the last segment of a data key that ends in a segment SecretName. */
  function Stem(d: string): string
    requires NameSegmentLast(d)
  {
    d[..|d| + 1 - |SEC_SUFFIX|]
  }

  /** An entry gives its secret name its data. */
  ghost predicate FromEntry(secrets: map<string, Entry>, e: string, n: string, data: Config) {
    Bears(secrets, e, n) && data == DataOf(secrets[e])
  }

  /** A data key that ends in a segment SecretName is taken for a name: its value becomes a secret,
      with the entry's data below a sibling segment SecretData. */
  ghost predicate FromDataKey(secrets: map<string, Entry>, e: string, d: string, n: string, data: Config) {
    && e in secrets && Named(secrets[e]) && d in DataOf(secrets[e]) && NameSegmentLast(d)
    && DataOf(secrets[e])[d] == n && data == Grouped(DataOf(secrets[e]), Stem(d) + "SecretData/")
  }

  ghost predicate Source(secrets: map<string, Entry>, n: string, data: Config) {
    (exists e :: FromEntry(secrets, e, n, data)) || (exists e, d :: FromDataKey(secrets, e, d, n, data))
  }

  lemma PrefixForData(e: string, d: string)
    requires NameSegmentLast(d)
    ensures IsNameKey(DataPrefix(e) + d) && PrefixFor(DataPrefix(e) + d) == DataPrefix(e) + (Stem(d) + "SecretData/")
  {
    DataKeyForm(e, d);
    var p := DataPrefix(e);
    PrefixText(p + d);
    hide DataPrefix, PrefixFor, IsNameKey;
    var k := |d| + 1 - |SEC_SUFFIX|;
    assert (p + d)[..|p| + k] == p + d[..k];
    Assoc(p, d[..k], "SecretData/");
  }

  lemma NameKeySource(conf: Config, secrets: map<string, Entry>, flat: Config, c: string)
    requires FlatSecrets(conf, secrets, flat) && c in flat && IsNameKey(c)
    ensures Source(secrets, flat[c], Grouped(flat, PrefixFor(c)))
  {
    hide FlatSecrets, NameKey, DataPrefix, DataOf, Named, NameSegmentLast, Grouped, PrefixFor;
    var e := FlatKeyForm(conf, secrets, flat, c);
    if c == NameKey(e) && Bears(secrets, e, flat[c]) {
      EntryGroup(conf, secrets, flat, e);
      assert FromEntry(secrets, e, flat[c], Grouped(flat, PrefixFor(c)));
    } else {
      var d :| d in DataOf(secrets[e]) && c == DataPrefix(e) + d && flat[c] == DataOf(secrets[e])[d];
      DataKeyForm(e, d);
      PrefixForData(e, d);
      GroupedIsData(conf, secrets, flat, e, Stem(d) + "SecretData/");
      assert FromDataKey(secrets, e, d, flat[c], Grouped(flat, PrefixFor(c)));
    }
  }

  lemma EntryGroup(conf: Config, secrets: map<string, Entry>, flat: Config, e: string)
    requires FlatSecrets(conf, secrets, flat) && e in secrets && Named(secrets[e])
    ensures IsNameKey(NameKey(e)) && Grouped(flat, PrefixFor(NameKey(e))) == DataOf(secrets[e])
  {
    hide FlatSecrets, NameKey, DataPrefix, DataOf, Named, Grouped, PrefixFor, IsNameKey;
    NameKeyForm(e);
    GroupedIsData(conf, secrets, flat, e, "");
    GroupedByNothing(DataOf(secrets[e]));
    assert DataPrefix(e) + "" == DataPrefix(e);
  }

  lemma SourceNameKey(conf: Config, secrets: map<string, Entry>, flat: Config, n: string, data: Config)
    returns (c: string)
    requires FlatSecrets(conf, secrets, flat) && Source(secrets, n, data)
    ensures c in flat && IsNameKey(c) && flat[c] == n && Grouped(flat, PrefixFor(c)) == data
  {
    hide FlatSecrets, NameKey, DataPrefix, DataOf, Named, NameSegmentLast, Grouped, PrefixFor, IsNameKey;
    if e :| FromEntry(secrets, e, n, data) {
      c := NameKey(e);
      NameIsFlat(conf, secrets, flat, e);
      EntryGroup(conf, secrets, flat, e);
    } else {
      var e, d :| FromDataKey(secrets, e, d, n, data);
      c := DataPrefix(e) + d;
      DataIsFlat(conf, secrets, flat, e, d);
      UnderPrefix(conf, secrets, flat, e, d);
      PrefixForData(e, d);
      GroupedIsData(conf, secrets, flat, e, Stem(d) + "SecretData/");
    }
  }

  ghost predicate FromSources(secrets: map<string, Entry>, parsed: map<string, Config>) {
    && (forall n, data :: Source(secrets, n, data) ==> n in parsed)
    && (forall n :: n in parsed ==> Source(secrets, n, parsed[n]))
  }

  /** Every result of flattening and regrouping, exactly: each name that some source gives, with the
      data of one such source. */
  lemma RegroupedExactly(conf: Config, secrets: map<string, Entry>, flat: Config, parsed: map<string, Config>)
    requires FlatSecrets(conf, secrets, flat)
    ensures Regrouped(flat, parsed) <==> FromSources(secrets, parsed)
  {
    hide FlatSecrets, IsNameKey, PrefixFor, Grouped, Source;
    if Regrouped(flat, parsed) {
      forall n, data | Source(secrets, n, data) ensures n in parsed {
        var c := SourceNameKey(conf, secrets, flat, n, data);
      }
      forall n | n in parsed ensures Source(secrets, n, parsed[n]) {
        var c :| c in flat && IsNameKey(c) && flat[c] == n && parsed[n] == Grouped(flat, PrefixFor(c));
        NameKeySource(conf, secrets, flat, c);
      }
    }
    if FromSources(secrets, parsed) {
      forall c | c in flat && IsNameKey(c) ensures flat[c] in parsed {
        NameKeySource(conf, secrets, flat, c);
      }
      forall n | n in parsed
        ensures exists c :: c in flat && IsNameKey(c) && flat[c] == n && parsed[n] == Grouped(flat, PrefixFor(c))
      {
        var c := SourceNameKey(conf, secrets, flat, n, parsed[n]);
      }
    }
  }

  /** The names that come out: those of the named entries, and the values of their data keys that end
      in a segment SecretName. */
  lemma SecretNamesExactly(
    conf: Config, secrets: map<string, Entry>, flat: Config, parsed: map<string, Config>, n: string)
    requires FlatSecrets(conf, secrets, flat) && Regrouped(flat, parsed)
    ensures n in parsed <==>
            || (exists e :: Bears(secrets, e, n))
            || (exists e, d :: e in secrets && Named(secrets[e]) && d in DataOf(secrets[e]) && NameSegmentLast(d)
                               && DataOf(secrets[e])[d] == n)
  {
    hide FlatSecrets, Regrouped, Grouped, DataOf, NameSegmentLast;
    RegroupedExactly(conf, secrets, flat, parsed);
    if e :| Bears(secrets, e, n) {
      assert FromEntry(secrets, e, n, DataOf(secrets[e]));
      assert Source(secrets, n, DataOf(secrets[e]));
    }
    if e, d :| e in secrets && Named(secrets[e]) && d in DataOf(secrets[e]) && NameSegmentLast(d)
               && DataOf(secrets[e])[d] == n
    {
      var data := Grouped(DataOf(secrets[e]), Stem(d) + "SecretData/");
      assert FromDataKey(secrets, e, d, n, data);
      assert Source(secrets, n, data);
    }
  }

  // ---------------------------------------------------------------- the round trip

  /** Every secret name has its entry's data, and there are no other names. */
  ghost predicate RoundTrips(secrets: map<string, Entry>, parsed: map<string, Config>) {
    && (forall e, n :: Bears(secrets, e, n) ==> n in parsed && parsed[n] == DataOf(secrets[e]))
    && (forall n :: n in parsed ==> exists e :: Bears(secrets, e, n))
  }

  /** What the sources must satisfy: each gives an entry's name, and what every entry of that name has. */
  ghost predicate Unambiguous(secrets: map<string, Entry>) {
    forall n, data :: Source(secrets, n, data) ==>
      && (exists e :: Bears(secrets, e, n))
      && (forall e :: Bears(secrets, e, n) ==> DataOf(secrets[e]) == data)
  }

  ghost function NamesIn(flat: Config): set<string> {
    set c | c in flat && IsNameKey(c) :: flat[c]
  }

  /** The result for which the given source was met last. */
  ghost function Preferring(flat: Config, n: string, data: Config): map<string, Config> {
    map m | m in NamesIn(flat) ::
      if m == n then data else var c :| c in flat && IsNameKey(c) && flat[c] == m; Grouped(flat, PrefixFor(c))
  }

  lemma PreferredIsRegrouped(conf: Config, secrets: map<string, Entry>, flat: Config, n: string, data: Config)
    requires FlatSecrets(conf, secrets, flat) && Source(secrets, n, data)
    ensures var parsed := Preferring(flat, n, data); Regrouped(flat, parsed) && n in parsed && parsed[n] == data
  {
    hide FlatSecrets, IsNameKey, PrefixFor, Grouped, Source;
    var c := SourceNameKey(conf, secrets, flat, n, data);
  }

  /** Flattening and regrouping gives the secrets back, whatever the order of iteration, if and only
      if the sources are unambiguous. */
  lemma SecretsRoundTripIff(conf: Config, secrets: map<string, Entry>, flat: Config)
    requires FlatSecrets(conf, secrets, flat)
    ensures (forall parsed :: Regrouped(flat, parsed) ==> RoundTrips(secrets, parsed)) <==> Unambiguous(secrets)
  {
    hide FlatSecrets, Regrouped, Source, Preferring, DataOf;
    if Unambiguous(secrets) {
      forall parsed | Regrouped(flat, parsed) ensures RoundTrips(secrets, parsed) {
        RegroupedExactly(conf, secrets, flat, parsed);
        forall e, n | Bears(secrets, e, n) ensures Source(secrets, n, DataOf(secrets[e])) {
          EntryIsSource(secrets, e, n);
        }
      }
    }
    if forall parsed :: Regrouped(flat, parsed) ==> RoundTrips(secrets, parsed) {
      forall n, data | Source(secrets, n, data)
        ensures exists e :: Bears(secrets, e, n)
        ensures forall e :: Bears(secrets, e, n) ==> DataOf(secrets[e]) == data
      {
        PreferredIsRegrouped(conf, secrets, flat, n, data);
        assert RoundTrips(secrets, Preferring(flat, n, data));
      }
    }
  }

  lemma EntryIsSource(secrets: map<string, Entry>, e: string, n: string)
    requires Bears(secrets, e, n)
    ensures Source(secrets, n, DataOf(secrets[e]))
  {
    assert FromEntry(secrets, e, n, DataOf(secrets[e]));
  }

  /** Distinct secret names and no data key ending in a segment SecretName are enough. */
  lemma SecretsRoundTrip(conf: Config, secrets: map<string, Entry>, flat: Config, parsed: map<string, Config>)
    requires FlatSecrets(conf, secrets, flat) && Regrouped(flat, parsed)
    requires forall e, d :: e in secrets && d in DataOf(secrets[e]) ==> !NameSegmentLast(d)
    requires forall e1, e2 :: e1 in secrets && e2 in secrets && e1 != e2 && Named(secrets[e1]) && Named(secrets[e2]) ==>
               secrets[e1].name != secrets[e2].name
    ensures RoundTrips(secrets, parsed)
  {
    hide FlatSecrets, Regrouped, NameSegmentLast, Grouped;
    assert Unambiguous(secrets);
    SecretsRoundTripIff(conf, secrets, flat);
  }

  // ---------------------------------------------------------------- the loops

  lemma FileOneMore(p: string, data: Config, d: string, v: string)
    ensures Filed(p, data[d := v]) == Filed(p, data)[p + d := v]
  {
    hide Prefixed;
    AfterPrefix(p, d);
    var f, g := Filed(p, data), Filed(p, data[d := v]);
    forall c: string | p <= c && c[|p|..] == d
      ensures c == p + d
    {
    }
    assert g.Keys == f.Keys + {p + d};
  }

  lemma UpdateLast(a: Config, b: Config, k: string, v: string)
    ensures (a + b)[k := v] == a + b[k := v]
  {
  }

  method AddData(confmap: Config, p: string, data: Config) returns (r: Config)
    ensures r == confmap + Filed(p, data)
  {
    hide Filed;
    r := confmap;
    var todo := data.Keys;
    ghost var done: Config := map[];
    EmptyFiled(p);
    while todo != {}
      invariant todo <= data.Keys && done.Keys == data.Keys - todo
      invariant forall d :: d in done ==> done[d] == data[d]
      invariant r == confmap + Filed(p, done)
      decreases |todo|
    {
      var d :| d in todo;
      FileOneMore(p, done, d, data[d]);
      UpdateLast(confmap, Filed(p, done), p + d, data[d]);
      r := r[p + d := data[d]];
      todo, done := todo - {d}, done[d := data[d]];
    }
    assert done == data;
  }

  method AddEntry(confmap: Config, e: string, t: Entry) returns (r: Config)
    ensures r == confmap + Emitted(e, t)
  {
    hide Filed, SEC_PREFIX, SEC_DATA, SEC_SUFFIX;
    r := confmap;
    if t.Table? && t.name.Some? {
      if t.data.Some? {
        r := AddData(r, SEC_PREFIX + e + SEC_DATA, t.data.value);
      } else {
        EmptyFiled(DataPrefix(e));
      }
      r := r[SEC_PREFIX + e + SEC_SUFFIX := t.name.value];
    }
  }

  lemma EmptyFiled(p: string)
    ensures Filed(p, map[]) == map[]
  {
  }

  /** addInsecureSecretsMap, from where the table of secrets has been found. */
  method AddInsecureSecrets(confmap: Config, secrets: map<string, Entry>) returns (r: Config)
    ensures Flattened(confmap, secrets, secrets.Keys, r)
  {
    hide Emitted;
    r := confmap;
    var todo := secrets.Keys;
    while todo != {}
      invariant todo <= secrets.Keys
      invariant Flattened(confmap, secrets, secrets.Keys - todo, r)
      decreases |todo|
    {
      var key :| key in todo;
      r := AddEntry(r, key, secrets[key]);
      todo := todo - {key};
    }
    assert secrets.Keys - todo == secrets.Keys;
  }

  /** The inner loop of insecure_parse_config. */
  method Group(config: Config, prefix: string) returns (r: Config)
    ensures r == Grouped(config, prefix)
  {
    r := map[];
    var todo := config.Keys;
    while todo != {}
      invariant todo <= config.Keys
      invariant forall d :: d in r <==> prefix + d in config && prefix + d !in todo
      invariant forall d :: d in r ==> r[d] == config[prefix + d]
      decreases |todo|
    {
      var key :| key in todo;
      if prefix <= key {
        assert key == prefix + key[|prefix|..];
        r := r[key[|prefix|..] := config[key]];
      }
      todo := todo - {key};
    }
  }

  /** insecure_parse_config. */
  method ParseInsecureSecrets(config: Config) returns (r: map<string, Config>)
    ensures Regrouped(config, r)
  {
    hide Grouped, PrefixFor, EndsWith, SEC_PREFIX, SEC_SUFFIX;
    r := map[];
    var todo := config.Keys;
    while todo != {}
      invariant todo <= config.Keys
      invariant forall c :: c in config && c !in todo && IsNameKey(c) ==> config[c] in r
      invariant forall n :: n in r ==>
                  exists c :: c in config && IsNameKey(c) && config[c] == n && r[n] == Grouped(config, PrefixFor(c))
      decreases |todo|
    {
      var key :| key in todo;
      if SEC_PREFIX <= key && EndsWith(key, SEC_SUFFIX) {
        PrefixText(key);
        var data := Group(config, key[..|key| + 1 - |SEC_SUFFIX|] + "SecretData/");
        r := r[config[key] := data];
      }
      todo := todo - {key};
    }
  }

  /** What the keys are. */
  lemma SecretKeys(e: string, d: string)
    ensures NameKey(e) == "Writable/InsecureSecrets/" + e + "/SecretName"
    ensures DataPrefix(e) + d == "Writable/InsecureSecrets/" + e + "/SecretData/" + d
  {
  }
}
