/** The flat key encoding of config.c: driver configuration filed among the SDK's keys. The iteration
    order of a map is not known, so each loop takes its keys in any order and is specified by a
    relation. */
module ConfigKeys {
  import opened Collections

  type Config = map<string, string>

  const DYN: string := "Writable/"
  const DRV: string := "Driver/"

  // ---------------------------------------------------------------- driver keys

  function Rename(key: string): string {
    if DYN <= key then DYN + DRV + key[|DYN|..] else DRV + key
  }

  function Recover(key: string): Option<string> {
    if DRV <= key then Some(key[|DRV|..])
    else if DYN + DRV <= key then Some(DYN + key[|DYN + DRV|..])
    else None
  }

  lemma FiledApart()
    ensures forall s: string :: !(DRV <= DYN + s) && !(DYN <= DRV + s)
  {
    assert DRV[0] == 'D' && DYN[0] == 'W';
  }

  lemma RecoverUndoesRename(key: string)
    ensures Recover(Rename(key)) == Some(key)
  {
    FiledApart();
    if DYN <= key {
      var rest := key[|DYN|..];
      assert key == DYN + rest;
      Assoc(DYN, DRV, rest);
      AfterPrefix(DYN + DRV, rest);
    } else {
      AfterPrefix(DRV, key);
    }
  }

  /** The one ambiguity: a key recovers to the same name as another only as `Driver/Writable/x` and
      `Writable/Driver/x`. */
  lemma RecoverCollidesIff(c1: string, c2: string)
    requires Recover(c1).Some? && c1 != c2
    ensures Recover(c1) == Recover(c2)
            <==> exists x: string :: {c1, c2} == {DRV + DYN + x, DYN + DRV + x}
  {
    FiledApart();
    RecoveredForm(c1);
    RecoveredForm(c2);
    if x: string :| {c1, c2} == {DRV + DYN + x, DYN + DRV + x} {
      assert c1 in {c1, c2} && c2 in {c1, c2};
      assert DRV + DYN + x in {c1, c2} && DYN + DRV + x in {c1, c2};
      RecoverBoth(x);
    }
    if Recover(c1) == Recover(c2) {
      var name := Recover(c1).value;
      assert DYN <= name;
      var x := name[|DYN|..];
      assert name == DYN + x;
      Assoc(DRV, DYN, x);
      assert {c1, c2} == {DRV + DYN + x, DYN + DRV + x};
    }
  }

  lemma RecoverBoth(x: string)
    ensures Recover(DRV + DYN + x) == Recover(DYN + DRV + x) == Some(DYN + x)
  {
    FiledApart();
    Assoc(DRV, DYN, x);
    Assoc(DYN, DRV, x);
    AfterPrefix(DRV, DYN + x);
    AfterPrefix(DYN + DRV, x);
  }

  /** A key that recovers is one of two: the plain filing of the name or, for a dynamic name, the
      dynamic one. */
  lemma RecoveredForm(c: string)
    ensures Recover(c).Some? ==>
              var name := Recover(c).value;
              c == DRV + name || (DYN <= name && c == DYN + DRV + name[|DYN|..])
  {
    if DRV <= c {
      assert c == DRV + c[|DRV|..];
    } else if DYN + DRV <= c {
      assert c == DYN + DRV + c[|DYN + DRV|..];
      AfterPrefix(DYN, c[|DYN + DRV|..]);
    }
  }

  /** The SDK's defaults with the driver's filed among them. */
  ghost predicate FiledAmong(sdk: Config, driver: Config, r: Config) {
    && (forall k :: k in driver ==> Rename(k) in r && r[Rename(k)] == driver[k])
    && (forall c :: c in sdk ==> c in r)
    && (forall c :: c in r ==> (exists k :: k in driver && c == Rename(k)) || (c in sdk && r[c] == sdk[c]))
  }

  /** The driver's configuration taken out again. */
  ghost predicate TakenOut(config: Config, r: Config) {
    && (forall c :: c in config && Recover(c).Some? ==> Recover(c).value in r)
    && (forall k :: k in r ==> exists c :: c in config && Recover(c) == Some(k) && r[k] == config[c])
  }

  /** The SDK keys that would be taken for the driver's are the driver's too: overwritten by a driver
      key, or of the same value. */
  ghost predicate NotMistaken(sdk: Config, driver: Config) {
    forall c :: c in sdk && Recover(c).Some? ==>
      var k := Recover(c).value; k in driver && (c == Rename(k) || sdk[c] == driver[k])
  }

  ghost function RecoveredNames(config: Config): set<string> {
    set c | c in config && Recover(c).Some? :: Recover(c).value
  }

  /** What is taken out when the given key is met last. */
  ghost function Preferring(config: Config, key: string): Config
    requires key in config
  {
    map k | k in RecoveredNames(config) ::
      if Recover(key) == Some(k) then config[key] else var c :| c in config && Recover(c) == Some(k); config[c]
  }

  lemma PreferredIsTakenOut(config: Config, key: string)
    requires key in config && Recover(key).Some?
    ensures var r := Preferring(config, key);
            TakenOut(config, r) && Recover(key).value in r && r[Recover(key).value] == config[key]
  {
    hide Recover;
  }

  /** Filing a driver's configuration among SDK keys and taking it out gives it back, in whatever order
      the keys are met, if and only if no SDK key is mistaken for one of the driver's. */
  lemma DriverConfigRoundTripIff(sdk: Config, driver: Config, config: Config)
    requires FiledAmong(sdk, driver, config)
    ensures (forall recovered :: TakenOut(config, recovered) ==> recovered == driver) <==> NotMistaken(sdk, driver)
  {
    hide Rename, Recover;
    if NotMistaken(sdk, driver) {
      forall recovered | TakenOut(config, recovered) ensures recovered == driver {
        RecoveredIsDriver(sdk, driver, config, recovered);
      }
    }
    if forall recovered :: TakenOut(config, recovered) ==> recovered == driver {
      forall c | c in sdk && Recover(c).Some?
        ensures var k := Recover(c).value; k in driver && (c == Rename(k) || sdk[c] == driver[k])
      {
        PreferredIsTakenOut(config, c);
        assert Preferring(config, c) == driver;
        if k :| k in driver && c == Rename(k) {
          RecoverUndoesRename(k);
        }
      }
    }
  }

  lemma RecoveredIsDriver(sdk: Config, driver: Config, config: Config, recovered: Config)
    requires FiledAmong(sdk, driver, config) && TakenOut(config, recovered) && NotMistaken(sdk, driver)
    ensures recovered == driver
  {
    hide Rename, Recover, FiledAmong, NotMistaken;
    forall k | k in driver
      ensures k in recovered
    {
      RenamedIsFiled(sdk, driver, config, k);
    }
    forall k | k in recovered
      ensures k in driver && recovered[k] == driver[k]
    {
      var c :| c in config && Recover(c) == Some(k) && recovered[k] == config[c];
      FiledValue(sdk, driver, config, c, k);
    }
  }

  lemma RenamedIsFiled(sdk: Config, driver: Config, config: Config, k: string)
    requires FiledAmong(sdk, driver, config) && k in driver
    ensures Rename(k) in config && Recover(Rename(k)) == Some(k)
  {
    hide Rename, Recover;
    RecoverUndoesRename(k);
  }

  /** Whatever recovers to a name is the driver's value of it. */
  lemma FiledValue(sdk: Config, driver: Config, config: Config, c: string, k: string)
    requires FiledAmong(sdk, driver, config) && NotMistaken(sdk, driver) && c in config && Recover(c) == Some(k)
    ensures k in driver && config[c] == driver[k]
  {
    hide Rename, Recover;
    if k' :| k' in driver && c == Rename(k') {
      RecoverUndoesRename(k');
    }
  }

  /** In particular when no SDK key has a driver prefix. */
  lemma DriverConfigRoundTrip(sdk: Config, driver: Config, config: Config, recovered: Config)
    requires forall c :: c in sdk ==> Recover(c) == None
    requires FiledAmong(sdk, driver, config) && TakenOut(config, recovered)
    ensures recovered == driver
  {
    hide Rename, Recover;
    RecoveredIsDriver(sdk, driver, config, recovered);
  }

  /** edgex_private_config_defaults, from where the SDK's own keys are in `result`. */
  method AddDriverDefaults(sdk: Config, driver: Config) returns (result: Config)
    ensures FiledAmong(sdk, driver, result)
  {
    result := sdk;
    var todo := driver.Keys;
    while todo != {}
      invariant todo <= driver.Keys
      invariant forall k :: k in driver && k !in todo ==> Rename(k) in result && result[Rename(k)] == driver[k]
      invariant forall c :: c in sdk ==> c in result
      invariant forall c :: c in result ==>
                  (exists k :: k in driver && c == Rename(k)) || (c in sdk && result[c] == sdk[c])
      decreases |todo|
    {
      hide Recover;
      var key :| key in todo;
      var dkey;
      if DYN <= key {
        dkey := DYN + DRV + key[|DYN|..];
      } else {
        dkey := DRV + key;
      }
      assert dkey == Rename(key);
      forall k | k in driver && Rename(k) == dkey
        ensures k == key
      {
        RecoverUndoesRename(k);
        RecoverUndoesRename(key);
      }
      result := result[dkey := driver[key]];
      todo := todo - {key};
    }
  }

  /** The extraction loop of edgex_device_populateConfig. */
  method TakeDriverConfig(config: Config) returns (driverconf: Config)
    ensures TakenOut(config, driverconf)
  {
    driverconf := map[];
    var todo := config.Keys;
    while todo != {}
      invariant todo <= config.Keys
      invariant forall c :: c in config && c !in todo && Recover(c).Some? ==> Recover(c).value in driverconf
      invariant forall k :: k in driverconf ==>
                  exists c :: c in config && Recover(c) == Some(k) && driverconf[k] == config[c]
      decreases |todo|
    {
      var key :| key in todo;
      if DRV <= key {
        driverconf := driverconf[key[|DRV|..] := config[key]];
      } else if DYN + DRV <= key {
        driverconf := driverconf[DYN + key[|DYN + DRV|..] := config[key]];
      }
      todo := todo - {key};
    }
  }

  /** What the keys are: a driver key stands under Driver, or under Writable/Driver if it is writable. */
  lemma RenamedKeys(x: string)
    ensures Rename("Writable/" + x) == "Writable/Driver/" + x
    ensures !("Writable/" <= x) ==> Rename(x) == "Driver/" + x
  {
    AfterPrefix("Writable/", x);
    assert "Writable/" + "Driver/" == "Writable/Driver/";
  }
}
