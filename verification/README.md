# Verified model of the EdgeX C device SDK

A Dafny model of the parts of the SDK whose correctness is hardest to see from the code, with proofs
of what they promise. `dafny verify dfyconfig.toml` checks everything.

The modules, by the program they model:

- **JSON engine** (`src/c/parson.c`). `Utf8` is the validator against section 4 of RFC 3629.
  `JsonValues` holds the values and the text the serializer gives them; `JsonStrings` the escapes.
  `JsonGrammar` says what the recursive-descent parser computes and `JsonParser` is that parser as it
  runs, moving a cursor. `JsonSerializer` is the two-pass serializer writing into a nullable buffer.
  `JsonSyntax` is JSON text as RFC 8259 describes it, without reference to either: `JsonNumbers` and
  `JsonAccepts` prove that every such text is parsed to what it means, `JsonDenotes` that whatever is
  parsed is such a text, and `JsonLayout` that the serializer writes one, laid out as it promises.
  `JsonRoundTrip` concludes that parsing undoes serializing, and `JsonNormal` that whatever is parsed,
  doubles apart, can be serialized and parsed again.
  `JsonMembers`, `JsonObject`, `JsonEquality` and `JsonPath` are objects as arrays that refine finite
  maps, equality, and dotted paths. `KeeperConfig` is the flat-to-tree conversion of `src/c/keeper.c`
  on top of them.
- **Hash table** (`src/c/map.c`). `HashChains` and `HashMap`: heap nodes relinked in place, the rehash
  that survives a failed reallocation, removal, and the iterator used while removing behind itself.
- **Device registry** (`src/c/devmap.c`). `Registry` is the protocol: each critical section and each
  atomic decrement is one step, with the references threads hold as part of the state.
  `RegistryEffects` says what each step does to every object, and `RegistryInvariant`, `RegistryRuns`,
  `RegistryUnchecked`, `RegistryRetired` and `RegistryReplace` prove what holds over all interleavings.
  `Devmap` is the code as it runs, each operation shown to take exactly its step and to keep the
  invariant. `ListEquality` is the list comparison it relies on.
- **Values** (`src/c/transform.c`, `src/c/examples/bitfields/device-bitfields.c`). `Transform` is the
  integer transforms on 64-bit arithmetic and when they are inverse; `Bitfield` the concurrent
  compare-exchange writers of one register. `Bits` has the arithmetic of the bit operators.
- **Around them.** `CommandIndex` (`src/c/device.c`), `UrlRouting` (`src/c/rest-server.c`),
  `ConfigKeys` (`src/c/config.c`) and `InsecureSecrets` (`src/c/config.c`,
  `src/c/secrets-insecure.c`), `ReducedEvent` (`src/c/data.c`) and `OpState` (`src/c/opstate.c`).
  `Collections` and `Bytes` are shared.

Some promises do not hold of the code without a condition. In each case the model follows the code,
and an if-and-only-if theorem says when the promise holds:

- A serialized value parses again if and only if it nests within `MAX_NESTING`: the serializer has no
  such limit (`JsonRoundTrip.RoundTrip`).
- The parser accepts what RFC 8259 describes, with these differences (`JsonSyntax`, `JsonAccepts.TextParses`,
  `JsonDenotes.ParsedIsDenoted`): vertical tab and form feed are white space, a fraction may lack its
  digits or, after a minus sign, its whole part, a string ends at the first NUL it spells, a repeated
  name is refused, a lone zero may not have an exponent (`0e5` is refused), a minus sign that begins no
  number is read as zero, and what follows the value is ignored.
- A negative JSON integer is read as its value modulo 2^64 (`JsonNumbers.NumeralParses`).
- A thread may hold a device whose profile has been freed: look a device up, replace it under the same
  profile name, update that profile (`RegistryRetired.HeldDeviceOutlivesProfile`). It happens exactly to
  retired devices that do not own their profile, after a step that frees it
  (`RegistryRetired.HeldProfileGoneIff`, `RegistryRetired.OnlyRetiredDangle`).
- Adding a profile under a registered name, and nothing else, leaves the old one without an owner
  (`RegistryInvariant.AddProfileKeepsIff`). The test for the name and the addition are two critical
  sections, so it can happen; even then nothing is freed twice and no device in the table loses its
  profile (`RegistryUnchecked.UncheckedLifetimes`).
- The list comparison says "equal" of lists that denote different maps exactly when the first repeats a
  name consistently (`ListEquality.EqualIsSoundIff`, `ListEquality.EqualListsExactly`). A device stored
  with a repeated protocol or autoevent then ignores a request for other ones, and those are exactly
  the devices that can disobey a request (`RegistryReplace.AlwaysObeyedIff`).
- A refused in-place update has changed the admin state of the device being replaced exactly when the
  protocols were found equal and the request has another admin state
  (`RegistryReplace.RefusedUpdateTouchesIff`).
- A bitfield value is read back if and only if it fits the field and is below 2^31, because the
  register is read as a signed 32-bit value (`Bitfield.ReadBack`).
- The incoming transform undoes the outgoing one if and only if the result does not overflow, the
  selected bits fit the type and the right shift drops none of them
  (`Transform.IncomingUndoesOutgoing`); a full-width mask on a negative reading fails the second
  (`Transform.MaskedSignLost`).
- A wildcard reads its URL segment if and only if the segment does not spell the wildcard
  (`UrlRouting.WildcardReadsSegmentIff`). If it does, the handler reads nothing, or the value that
  another pattern left (`UrlRouting.HandlerSeesItsSegments`, `UrlRouting.LiteralWildcardMisread`).
- A flat configuration is found again key by key if and only if no key is a path prefix of another
  (`KeeperConfig.BuiltHoldsIff`): the longer key is refused if met later and lost if met earlier.
- Driver keys survive the renaming if and only if no SDK key is mistaken for one of them
  (`ConfigKeys.DriverConfigRoundTripIff`); two keys become one exactly as `Driver/Writable/x` and
  `Writable/Driver/x` (`ConfigKeys.RecoverCollidesIff`).
- The value of a data key whose last segment is `SecretName` becomes a secret name
  (`InsecureSecrets.SecretNamesExactly`), and secrets survive flattening if and only if their sources
  are unambiguous (`InsecureSecrets.SecretsRoundTripIff`).

## Model

| member | source | states |
|---|---|---|
| `Utf8.EncodedIsVerified` | src/c/parson.c:203-243 | The UTF-8 encoding of every scalar value, whatever follows it, passes the sequence check and is read back as that value with its own length |
| `Utf8.VerifiedIsEncoded` | src/c/parson.c:188-243 | Whatever the sequence check accepts is the encoding of the scalar value it assembles: no overlong form, surrogate half or out-of-range value passes |
| `Utf8.BitTests` | src/c/parson.c:188-201 | The masked comparisons classify every byte as the ranges of the encoding do |
| `Utf8.BitJoin` | src/c/parson.c:207-224 | Masking, shifting by six and joining is arithmetic in base 64 |
| `Utf8.VerifyUtf8Sequence` | src/c/parson.c:203-243 | With the source's masks and shifts, the length of the first sequence and whether it is good |
| `Utf8.AcceptsExactlyWellFormed` | src/c/parson.c:245-255 | Accepted byte strings are exactly the concatenations of encoded scalar values (section 4 of RFC 3629), both directions |
| `Utf8.IsValidUtf8` | src/c/parson.c:245-255 | The validating loop answers true exactly on well-formed UTF-8 |
| `JsonStrings.DecodeUtf16` | src/c/parson.c:565-612 | An escape that decodes stores at least one octet and fewer octets than it consumes |
| `JsonStrings.HexBits` | src/c/parson.c:172-186 | Four shifted and joined hex digits are the number they spell |
| `JsonStrings.SurrogateBits` | src/c/parson.c:596 | Masked, shifted and joined surrogates are the supplementary code point |
| `JsonStrings.StoredBits` | src/c/parson.c:576-601 | The masked and tagged octets stored for a code point are its UTF-8 encoding |
| `JsonStrings.DecodedIsValid` | src/c/parson.c:565-612 | Every \u escape or surrogate pair that decodes yields exactly the UTF-8 encoding of its code point, which the validator accepts for that code point |
| `JsonStrings.Process` | src/c/parson.c:614-668 | Decoding never emits more bytes than it consumes, so the allocated buffer suffices |
| `JsonParser.SkipQuotes` | src/c/parson.c:545-562 | The cursor loop stops just past the closing quote exactly when there is one |
| `JsonParser.ParseUtf16Hex` | src/c/parson.c:172-186 | Reads the four hex digits at a position, or fails |
| `JsonParser.DecodeAt` | src/c/parson.c:565-612 | Decoding in place at a cursor, with the source's bit operations, gives the escape's octets and length |
| `JsonParser.ProcessString` | src/c/parson.c:614-668 | The two-cursor loop over a fixed buffer computes the decoded string or fails, within bounds |
| `JsonParser.GetQuotedString` | src/c/parson.c:670-679 | A quoted string is scanned, decoded and read back up to its first NUL |
| `JsonParser.ParseNumberValue` | src/c/parson.c:841-858 | The literal that strtod takes, refused when not decimal, kept as an unsigned integer when strtoull takes as much of it and as text otherwise |
| `JsonNumbers.ParseDecimal` | src/c/parson.c:1007-1020 | Every printed 64-bit integer reads back as itself |
| `JsonParser.ParseValueAt` | src/c/parson.c:681-704 | Dispatch on the first byte after white space, with the nesting limit, agrees with the grammar on value and cursor |
| `JsonParser.ParseArrayValue` | src/c/parson.c:768-812 | The item loop agrees with the recursive grammar on value and cursor |
| `JsonParser.ParseObjectValue` | src/c/parson.c:706-766 | The member loop agrees with the recursive grammar, and a repeated name fails |
| `JsonParser.ParseJson` | src/c/parson.c:1134-1142 | The whole parser computes the grammar's result for every input text |
| `JsonAccepts.QuoteParses` | src/c/parson.c:545-679 | Every quoted string of RFC 8259, each character plain or in any of its escapes and with hex digits in either case, is read as the bytes it spells, up to the first NUL |
| `JsonNumbers.NumeralParses` | src/c/parson.c:841-858 | Every integer, fraction and exponent form before a delimiter is read whole: an integer below 2^64 as its value, negated modulo 2^64 after a minus sign, anything else as a double |
| `JsonAccepts.TreeParses` | src/c/parson.c:681-867 | At any depth, every spelling of a syntax tree, with white space anywhere it may stand, is parsed to the tree's value and leaves the rest, exactly when names are distinct and the nesting is within the limit |
| `JsonAccepts.TextParses` | src/c/parson.c:1134-1142 | Every text that starts with a tree after an optional byte-order mark and white space is parsed to the tree's value if no object repeats a name and at most 2048 containers enclose any value, and is refused otherwise |
| `JsonDenotes.QuoteRead` | src/c/parson.c:545-679 | Whatever is read as a string is the spelling of a quoted string with that value |
| `JsonDenotes.ParsedIsDenoted` | src/c/parson.c:1134-1142 | Whatever text is accepted starts with a tree that means the value returned, or with a minus sign that begins no number, which is read as zero |
| `JsonSerializer.SerializeString` | src/c/parson.c:1031-1090 | Null buffer: the escaped length; otherwise exactly those bytes are written at the cursor and nothing else |
| `JsonSerializer.SerializeValue` | src/c/parson.c:880-1029 | For any tree with distinct names, compact or pretty, both passes return the length of the text, and the writing pass leaves exactly that text |
| `JsonSerializer.SerializeArray` | src/c/parson.c:892-923 | The array loop emits the items' texts with separators and indentation, in both passes |
| `JsonSerializer.SerializeObject` | src/c/parson.c:924-971 | The object loop emits each member by name lookup, in both passes |
| `JsonSerializer.SerializationSize` | src/c/parson.c:1536-1540 | The sizing pass returns the number of bytes the writing pass emits, plus one |
| `JsonSerializer.SerializeToBuffer` | src/c/parson.c:1542-1553 | Refused exactly when text and terminator do not fit; otherwise filled exactly and untouched beyond |
| `JsonSerializer.SerializeToString` | src/c/parson.c:1577-1594 | The buffer of the computed size is filled exactly and terminated |
| `JsonLayout.EscapeIsChar` | src/c/parson.c:1031-1090 | Which escape each byte gets: a two-character one for five control characters, the quote and the backslash, lower-case \u00xx for the other control characters, none for the rest; and that it spells the byte |
| `JsonLayout.TextIsLaid` | src/c/parson.c:880-1029 | The text of a value is a syntax tree of that value laid out so: in pretty form each item, member and closing bracket of a non-empty container on a line indented by four spaces per enclosing container and a space after each colon; in compact form no white space at all |
| `JsonLayout.StripsToCompact` | src/c/parson.c:880-1029 | The pretty text without its white space outside strings is the compact text, and the compact text has none |
| `JsonRoundTrip.ParseUndoesText` | src/c/parson.c:681-704 | At any depth and before any delimiter, parsing the text of a value returns it and leaves the rest, exactly when it nests within the limit |
| `JsonRoundTrip.RoundTrip` | src/c/parson.c:880-1029 | Parsing the serialized text of a value, compact or pretty, gives back that value if it nests within the limit and fails otherwise |
| `JsonNormal.ParsedIsSound` | src/c/parson.c:681-812 | Whatever the parser accepts has distinct names in every object and nests within the limit |
| `JsonNormal.ReserializedParses` | src/c/parson.c:1134-1142 | For any input text that parses to a tree without doubles, serializing it and parsing again changes nothing |
| `JsonMembers.SetRefines` | src/c/parson.c:1821-1840 | Setting a member updates one binding of the finite map and keeps names distinct |
| `JsonMembers.AddRefines` | src/c/parson.c:361-384 | Adding succeeds exactly for an absent name and adds that binding alone |
| `JsonMembers.RemoveRefines` | src/c/parson.c:430-451 | Removal, by moving the last member into the gap, succeeds exactly for a present name and removes that binding alone |
| `JsonMembers.SetKeepsOrder` | src/c/parson.c:1821-1840 | Setting keeps every member in its place and puts a new one last |
| `JsonMembers.RemoveMovesLast` | src/c/parson.c:430-451 | Removing moves the last member into the gap and keeps every other in its place |
| `JsonObject.Object.Find` | src/c/parson.c:416-428 | The search loop finds the first member of a name |
| `JsonObject.Object.GetValue` | src/c/parson.c:416-428 | Returns the value of the first member of a name, if there is one |
| `JsonObject.Object.Resize` | src/c/parson.c:386-414 | Growing copies every pair; only a zero capacity fails |
| `JsonObject.Object.AddValue` | src/c/parson.c:361-384 | The parallel arrays hold the members with the new one appended, doubling in size from sixteen when full, or are unchanged |
| `JsonObject.Object.SetValue` | src/c/parson.c:1821-1840 | The parallel arrays hold the members with one value replaced or appended |
| `JsonObject.Object.RemoveValue` | src/c/parson.c:430-451 | The parallel arrays hold the members with the last in the removed one's place |
| `JsonEquality.EqualsIffSameMeaning` | src/c/parson.c:2045-2115 | On trees without doubles, equality holds exactly when the abstract values are equal, whatever the order of members |
| `JsonPath.DotSetIsSetPath` | src/c/parson.c:1862-1902 | Setting by dotted name is setting by the list of its segments |
| `JsonPath.DotGetIsGetPath` | src/c/parson.c:1192-1199 | Getting by dotted name is getting by the list of its segments |
| `JsonPath.SetSucceedsIffClear` | src/c/parson.c:1862-1902 | A dotted set succeeds exactly when no proper prefix of the path holds something other than an object |
| `JsonPath.SetEffect` | src/c/parson.c:1862-1902 | After setting any value its path holds it, paths above are objects, paths beyond lead into the value and nowhere else, and every prefix-unrelated path is unchanged |
| `JsonPath.ScalarEnds` | src/c/parson.c:1192-1199 | Nothing is found beyond a scalar |
| `KeeperConfig.ReplaceSlashes` | src/c/keeper.c:547-552 | The loop turns every slash into a dot and changes nothing else |
| `KeeperConfig.DottedSplits` | src/c/keeper.c:547-554 | For a key without dots, the dotted name has the segments of the key |
| `KeeperConfig.OfferItem` | src/c/keeper.c:537-559 | One turn of the loop: put aside, refused or stored, with the tree that results |
| `KeeperConfig.BuildTree` | src/c/keeper.c:531-561 | The loop builds the tree and lists, in order, the items put aside and those refused; with prefix-free scalar keys there are none and the tree holds exactly the items |
| `KeeperConfig.BuiltShape` | src/c/keeper.c:531-561 | Every key is added in any insertion order, and a path lookup returns each original value |
| `KeeperConfig.BuiltHoldsIff` | src/c/keeper.c:531-561 | For scalar values under distinct dot-free keys, every lookup returns the original value if and only if no key is a path prefix of another |
| `KeeperConfig.RefusedIff` | src/c/keeper.c:531-561 | An item with a dot-free key is refused exactly when its value cannot be converted or something on the way to its path is not an object |
| `KeeperConfig.StoredOverwrites` | src/c/keeper.c:531-561 | A stored scalar wipes out whatever was below its path |
| `KeeperConfig.OrderIndependent` | src/c/keeper.c:531-561 | The same items in any two orders build the same nested map |
| `HashChains.Hash` | src/c/map.c:22-30 | The hashing loop, on 32 bits with signed characters |
| `HashChains.BucketIsRemainder` | src/c/map.c:48-54 | For a power-of-two bucket count the mask is the remainder and selects a bucket |
| `HashChains.FindInChain` | src/c/map.c:110-118 | The chain walk finds the node of a key and its predecessor, or that there is none |
| `HashChains.ReverseOnto` | src/c/map.c:73-80 | Draining a bucket pushes its nodes in reverse onto the list |
| `HashChains.Rehashed` | src/c/map.c:68-100 | Gathering all nodes and adding them again keeps exactly the same nodes, keys distinct, each in the bucket its hash selects |
| `HashMap.Table.GetRef` | src/c/map.c:105-121 | Finds the node exactly when the key is in the map, with its place in its chain |
| `HashMap.Table.Get` | src/c/map.c:141-145 | Returns what the finite map holds for the key |
| `HashMap.Table.Gather` | src/c/map.c:68-81 | The draining loop chains all nodes of all buckets together |
| `HashMap.Table.Scatter` | src/c/map.c:92-99 | The re-adding loop places each node in the bucket its hash selects |
| `HashMap.Table.Resize` | src/c/map.c:63-103 | The represented map and the invariant survive, whether or not the reallocation succeeds |
| `HashMap.Table.Set` | src/c/map.c:147-176 | Updates one binding; a set that needs a reallocation which fails returns -1 and leaves the contents unchanged; the buckets double, from one, exactly when a new key meets a full table |
| `HashMap.Table.Remove` | src/c/map.c:178-188 | Removes exactly one binding and unlinks exactly its node |
| `HashMap.Table.Run` | src/c/map.c:141-188 | Over any sequence of get, set and remove, every get answers from the finite map that the calls before it make; only a set of a new key whose reallocation failed is without effect |
| `HashMap.Table.NextBucket` | src/c/map.c:206-217 | Advances to the first node of the next non-empty bucket, or to the end |
| `HashMap.Table.Next` | src/c/map.c:198-219 | The next node in its chain, else the next non-empty bucket |
| `HashMap.Table.Keys` | src/c/map.c:190-219 | Iterating an unmodified table yields each key exactly once |
| `HashMap.Table.AdvanceAndRemove` | src/c/devmap.c:58-65 | Removing the key just left behind keeps the iterator at the first node left |
| `HashMap.Table.Clear` | src/c/devmap.c:52-69 | The clear loop visits every value exactly once and ends with an empty table |
| `ListEquality.ListEqual` | src/c/devsdk-base.c:251-270 | The counting and searching loops decide the list comparison |
| `ListEquality.EqualListsExactly` | src/c/devsdk-base.c:251-270 | For any two lists: equal exactly when they are as long as each other, the first gives no name two values, and the second binds all that the first does |
| `ListEquality.UniqueFirstDecides` | src/c/devsdk-base.c:251-270 | If the first list has unique names: equal exactly when as long as each other and denoting the same map |
| `ListEquality.EqualIffSameMap` | src/c/devsdk-base.c:251-270 | With unique names on both sides, lists are equal exactly when they denote the same map |
| `ListEquality.RepeatedNamesDeceive` | src/c/devsdk-base.c:251-270 | Every list that repeats an entry is found equal to a list with a name it does not have, and not the other way round |
| `ListEquality.EqualIsSoundIff` | src/c/devsdk-base.c:251-270 | The lists for which "equal" always means the same map are exactly those without a repeated name and those that give a name two values |
| `ListEquality.ReflexiveIff` | src/c/devsdk-base.c:251-270 | A list is equal to itself exactly when it gives no name two values |
| `RegistryInvariant.LookupKeeps` | src/c/devmap.c:283-297 | A lookup keeps exact reference counts, table profiles and single ownership |
| `RegistryInvariant.ReleaseKeeps` | src/c/devmap.c:367-378 | A release by a holder keeps them, freeing an owned profile with its device |
| `RegistryInvariant.AddKeeps` | src/c/devmap.c:86-104 | Adding a device keeps them, with the registered profile of that name or the new one |
| `RegistryInvariant.PopulatedKeeps` | src/c/devmap.c:106-118 | Populating keeps them: known devices are untouched, and exactly the known and the listed names are then in the table |
| `RegistryInvariant.RemoveKeeps` | src/c/devmap.c:308-331 | Removing a device keeps them, passing an unused profile to the removed device |
| `RegistryInvariant.ReplaceKeeps` | src/c/devmap.c:247-281 | Replacing a device keeps them in every case |
| `RegistryInvariant.AddProfileKeepsIff` | src/c/devmap.c:333-338 | Adding a profile keeps them exactly when the name was not registered |
| `RegistryInvariant.UpdateProfileKeeps` | src/c/devmap.c:340-365 | Updating a profile keeps them: all table devices move before the old one is freed |
| `RegistryInvariant.ClearKeeps` | src/c/devmap.c:52-69 | Clearing keeps them: held devices survive with their holders' counts |
| `RegistryRuns.RunInvariant` | src/c/devmap.c:52-378 | In every state of every interleaving: refs is one if in the table plus the outstanding holders; each table device points to the profile registered under that name; each live profile has exactly one owner |
| `RegistryRuns.StepLifetimes` | src/c/devmap.c:52-378 | No step brings back an address that was freed |
| `RegistryRuns.DeviceFreed` | src/c/devmap.c:52-69 | A device is freed only by its last holder once out of the table, or by clear when nobody holds it |
| `RegistryRuns.ProfileFreed` | src/c/devmap.c:340-378 | A live profile is freed exactly by an update of its name while registered, or by the last release of the retired device that owns it |
| `RegistryRuns.FreedForever` | src/c/devmap.c:52-378 | Over every run, a freed device or profile is never live again |
| `RegistryRuns.RunLifetimes` | src/c/devmap.c:367-378 | Over every run a device is freed at most once, with exactly one reference left, and afterwards is neither held nor in the table |
| `RegistryRuns.ProfileLifetimes` | src/c/devmap.c:340-378 | Over every run a profile is freed at most once, by one of those two steps, and afterwards is never registered, owned or used by a device in the table |
| `RegistryUnchecked.UncheckedRunSafe` | src/c/devmap.c:52-378 | Over every run, additions over registered names included: reference counts are exact, every table device has its profile, and an owned profile has one owner and is neither registered nor used by a table device |
| `RegistryUnchecked.UncheckedLifetimes` | src/c/devmap.c:52-378 | Over every such run no device or profile is freed twice, and what is freed is no longer held, registered, owned or used from the table |
| `RegistryUnchecked.CheckedIsUnchecked` | src/c/profiles.c:27-43 | The runs in which names are checked are among them |
| `RegistryUnchecked.OverwrittenProfileOrphaned` | src/c/devmap.c:333-338 | Adding over a registered name leaves the old profile live without an owner |
| `RegistryRetired.RetiredStays` | src/c/devmap.c:247-378 | A retired device that owns no profile stays as it is until its last holder releases it |
| `RegistryRetired.OnlyRetiredDangle` | src/c/devmap.c:189-207 | Every other device has a live profile |
| `RegistryRetired.HeldProfileGoneIff` | src/c/devmap.c:340-378 | Over every run, the profile of a held retired device is gone exactly when one of the two freeing steps has happened since |
| `RegistryRetired.DanglesSinceRetiredIff` | src/c/devmap.c:247-378 | The same from the step that retires the device, when its profile is still live |
| `RegistryRetired.HeldDeviceOutlivesProfile` | src/c/devmap.c:247-365 | From any state with a device in the table: look it up, replace it under the same profile name, update that profile, and the holder is left with a freed profile |
| `RegistryRuns.ShutdownLeaksNothing` | src/c/devmap.c:52-84 | Clearing frees every device if and only if there are no outstanding holders, and then leaves only registered profiles for the final free |
| `RegistryReplace.ReplaceKnownDevice` | src/c/devmap.c:214-281 | With unique names in the stored lists: updated in place exactly when protocols and autoevents denote the same maps (as long as each other) and the profile name is equal; either way the stored device agrees with the request, and the outcome says which case occurred |
| `RegistryReplace.ReplaceNewDevice` | src/c/devmap.c:254-260 | An unknown name creates a device with the request's data and a full allowance of failures |
| `RegistryReplace.ReplaceDeceived` | src/c/devmap.c:214-281 | A stored device whose autoevents repeat an entry is "updated in place" by a request for other autoevents and keeps its old ones |
| `RegistryReplace.ReplaceDeceivedOfProtocols` | src/c/devmap.c:214-281 | The same of a stored device whose protocols repeat an entry |
| `RegistryReplace.AlwaysObeyedIff` | src/c/devmap.c:214-281 | A device in the table agrees with every request after its replacement if and only if its stored lists repeat no name or one of them gives a name two values |
| `RegistryReplace.RefusedUpdateTouchesIff` | src/c/devmap.c:214-245 | A refused update has changed the old device exactly when the protocols were found equal and the admin state differs, and then only the admin state |
| `RegistryEffects.LookupEffect` | src/c/devmap.c:283-297 | A lookup gives one reference to the device of that name and changes nothing else |
| `RegistryEffects.ReleaseEffect` | src/c/devmap.c:367-378 | A release takes back one reference; exactly the last one frees the device, with its profile if it owns it, and nothing else changes |
| `RegistryEffects.AddEffect` | src/c/devmap.c:86-104 | A new device has the request's data, one reference, the given allowance and the profile registered under the name it asks for, which is the request's own if there was none; nothing else changes |
| `RegistryEffects.PopulatedEffect` | src/c/devmap.c:106-118 | Each device that populating adds holds the data of the first request listed under its name, one reference, a full allowance and a live profile of the name asked for |
| `RegistryEffects.RemoveEffect` | src/c/devmap.c:308-331 | The table is the old one without that name; the profile is unregistered and passes to the removed device if and only if no other device in the table uses it; nothing else changes |
| `RegistryEffects.RemoveNothing` | src/c/devmap.c:308-331 | Removing a name that is not there changes nothing |
| `RegistryEffects.ReplaceInPlaceEffect` | src/c/devmap.c:214-281 | An update in place takes over the request's states, origin, description and labels and leaves everything else |
| `RegistryEffects.ReplaceAnewEffect` | src/c/devmap.c:247-281 | Otherwise a fresh device with the request's data and the old allowance takes the name; the old one keeps its data but for the admin state, and its profile passes to it exactly when no other device uses it and the new one does not; nothing else changes |
| `RegistryEffects.AddProfileEffect` | src/c/devmap.c:333-338 | The table has that very profile under its name, and every other binding, profile and device is as before |
| `RegistryEffects.UpdateProfileEffect` | src/c/devmap.c:340-365 | The table has that very profile under its name; exactly the table devices that used the old one use the new one; the old one is gone and every other device, profile and binding is as before |
| `RegistryEffects.ClearEffect` | src/c/devmap.c:52-69 | The table is empty; exactly the devices in it without other holders are gone, the others have one reference less, and profiles stay |
| `Devmap.DeviceMap.DeviceByName` | src/c/devmap.c:283-297 | Takes exactly the protocol's lookup step and keeps the invariant |
| `Devmap.DeviceMap.DeviceRelease` | src/c/devmap.c:367-378 | Takes exactly the release step, freeing only what is live, and keeps the invariant |
| `Devmap.DeviceMap.AddDevice` | src/c/devmap.c:86-104 | Takes exactly the add step |
| `Devmap.DeviceMap.IsLastUser` | src/c/devmap.c:189-202 | The scan answers whether no table device uses the profile |
| `Devmap.DeviceMap.ReleaseProfile` | src/c/devmap.c:189-207 | Takes exactly the hand-over step |
| `Devmap.DeviceMap.RemoveByName` | src/c/devmap.c:308-331 | Takes exactly the remove step, keeps the invariant and reports whether there was a device |
| `Devmap.DeviceMap.UpdateInPlace` | src/c/devmap.c:214-245 | Decides the in-place update and leaves the data it says, including an admin state already changed by a refused update |
| `Devmap.DeviceMap.ReplaceDevice` | src/c/devmap.c:247-281 | Takes exactly the replace step and keeps the invariant, with its outcome code and the reference to release |
| `Devmap.DeviceMap.AddNewProfile` | src/c/devmap.c:333-338 | Takes exactly the add-profile step; the invariant holds afterwards exactly when the name was not registered |
| `Devmap.DeviceMap.UpdateDeviceProfile` | src/c/devmap.c:340-365 | Takes exactly the update-profile step, freeing a live profile, and keeps the invariant |
| `Devmap.DeviceMap.Populate` | src/c/devmap.c:106-118 | The loop takes exactly the add steps of the listed devices whose names are absent, in order, and keeps the invariant |
| `Devmap.DeviceMap.ClearAll` | src/c/devmap.c:52-69 | The loop takes exactly the clear step, freeing only live devices, and keeps the invariant |
| `Devmap.DeviceMap.Run` | src/c/devmap.c:52-378 | Any sequence of calls from the empty registry goes through exactly the states of the protocol's run, with the invariant after every call |
| `Transform.CommandResult.TransformOutgoing` | src/c/transform.c:88-163 | For types up to 32 bits and 32-bit arguments the reading is replaced in place by the exact mathematical result, or overflow |
| `Transform.CommandResult.TransformIncoming` | src/c/transform.c:165-234 | Given the outgoing result of any reading, the value becomes the reading's selected bits again exactly when they fit the type and the shift lost none of them |
| `Transform.OutgoingIsIdeal` | src/c/transform.c:38-146 | For types up to 32 bits, a 32-bit mask, a right shift and 32-bit scale and offset, the outgoing transform is the exact mathematical result or overflow: nothing wraps on the way |
| `Transform.OutgoingExact` | src/c/transform.c:38-163 | For every type, base and direction of shift, if no stage leaves 64 bits the outgoing result is exactly mask, shift, power, scale and offset in unbounded arithmetic, or overflow |
| `Transform.IncomingExact` | src/c/transform.c:165-234 | Likewise the incoming result is exactly offset, scale, logarithm, shift and mask undone in that order, or overflow |
| `Transform.TruncDivTruncates` | src/c/transform.c:181-212 | The division of the incoming transform truncates toward zero |
| `Transform.Ranges` | src/c/transform.c:54-86 | The limits of each type are those of two's complement of its width |
| `Transform.IncomingUndoesOutgoing` | src/c/transform.c:121-212 | Out and back in returns the selected bits if and only if the outgoing result does not overflow, the selected bits fit the type and the shift loses none of them |
| `Transform.MaskedSignLost` | src/c/transform.c:54-212 | Every negative reading of a signed type, under a mask as wide as the type, goes out without overflow or shift and cannot come back |
| `Transform.AlignedMaskLosesNothing` | src/c/transform.c:121-146 | A mask whose shifted-out bits are clear never loses any |
| `Bitfield.MergeSets` | src/c/examples/bitfields/device-bitfields.c:82-89 | One merge sets its own field and no disjoint one |
| `Bitfield.MaskedIsIncoming` | src/c/transform.c:192-212 | The value a put carries is what the incoming transform makes of it |
| `Bitfield.DriverGetsRequestMask` | src/c/device.c:156-159 | The mask that device.c hands to the driver, in a command or directly, is the one the write loop merges with, and is never zero |
| `Bitfield.NextKeeps` | src/c/examples/bitfields/device-bitfields.c:76-96 | Every load and compare-exchange keeps: each field holds the last value successfully written to it |
| `Bitfield.NoLostUpdate` | src/c/examples/bitfields/device-bitfields.c:56-98 | In every interleaving of concurrent writers with disjoint masks no update is lost |
| `Bitfield.StepCarries` | src/c/examples/bitfields/device-bitfields.c:76-96 | Every step leaves a writer's puts as they were, logs the one it completes, or begins one: none is dropped |
| `Bitfield.EveryPutCarriedOut` | src/c/examples/bitfields/device-bitfields.c:56-98 | In every state of every interleaving, the puts a writer has begun are exactly those it has written, in order, followed by the one it has under way |
| `Bitfield.FailedExchangeRetries` | src/c/examples/bitfields/device-bitfields.c:82-89 | A failed compare-exchange changes only the writer, which loads again for the same field and value |
| `Bitfield.UndisturbedPutCompletes` | src/c/examples/bitfields/device-bitfields.c:76-96 | A writer that loads and exchanges undisturbed is done: its value is in the register, the other fields are as they were and the write is logged |
| `Bitfield.ReadBack` | src/c/examples/bitfields/device-bitfields.c:34-54 | Reading a field through the outgoing transform returns the value last put to it if and only if the value fits the field and is below 2^31 |
| `CommandIndex.ListSearchIsDirect` | src/c/device.c:237-293 | Searching the list equals a direct search: the first available command of that name and direction, else a resource only if no command has the name |
| `CommandIndex.DirectSearchAnswers` | src/c/device.c:237-293 | What is found is the first command or resource that serves the name and direction and holds what it should, and nothing is found only if none serves it |
| `CommandIndex.CommandInfoHolds` | src/c/device.c:106-173 | The i-th request is for the resource that the i-th operation names, with the operation's default before the resource's, the operation's mappings, the parsed attributes and a mask disjoint from the resource's and jointly all ones, or zero without one; the tags are the command's |
| `CommandIndex.ResourceInfoHolds` | src/c/device.c:175-226 | The one request of a resource addressed directly has its default, its parsed attributes, no mappings and the complement of its mask |
| `CommandIndex.SearchCommands` | src/c/device.c:240-252 | The command part of the list answers as a direct search of the commands |
| `CommandIndex.SearchResources` | src/c/device.c:253-276 | The resource part answers only for names that no command bears |
| `CommandIndex.Profile.InfoForCommand` | src/c/device.c:106-173 | Requests follow the resource operations in order, with cached attributes, complemented masks and default precedence; none if an attribute cannot be parsed |
| `CommandIndex.Profile.InfoForResource` | src/c/device.c:175-226 | The single request of a resource addressed directly; none if its attributes cannot be parsed |
| `CommandIndex.Profile.ParseAttributes` | src/c/device.c:117-132 | A resource's attributes are parsed once and then taken from the cache |
| `CommandIndex.Profile.Populate` | src/c/device.c:237-277 | The loops build the list of commands, then of resources not shadowed by a command |
| `CommandIndex.Profile.FindCommand` | src/c/device.c:279-293 | With the list built on first use or cached, every lookup equals a direct search of the profile, and what it returns holds the requests, defaults, mappings, masks, attributes and tags it should |
| `UrlRouting.SegmentsAreProper` | src/c/rest-server.c:88-107 | Segments are free of slashes and only the last can be empty |
| `UrlRouting.SplitUndoesJoin` | src/c/rest-server.c:88-107 | Splitting a path joined from such segments gives them back |
| `UrlRouting.ExtraSlashIgnored` | src/c/rest-server.c:88-107 | Two slashes anywhere split a path as one does |
| `UrlRouting.ProcessUrl` | src/c/rest-server.c:88-107 | The pointer loop computes the segments, trailing empty one included |
| `UrlRouting.MatchUrlPattern` | src/c/rest-server.c:132-156 | True exactly on a segment-by-segment match; the bindings pushed stay on the list either way |
| `UrlRouting.MatchesIff` | src/c/rest-server.c:132-156 | A match has as many segments, each the pattern's own or in the place of a non-empty name in braces |
| `UrlRouting.WildcardIff` | src/c/rest-server.c:132-156 | A wildcard is a non-empty name in braces, and that is the name it binds |
| `UrlRouting.NameValue` | src/c/devsdk-base.c:46-59 | The lookup loop returns the first binding of a name |
| `UrlRouting.MatchedLookup` | src/c/rest-server.c:132-156 | After a match, a name reads the last segment the pattern binds to it, else what was on the list before |
| `UrlRouting.WildcardLookup` | src/c/rest-server.c:132-156 | With distinct wildcard names each wildcard reads its URL segment unless the segment is literally the wildcard's text, when an earlier binding shows through |
| `UrlRouting.WildcardReadsSegmentIff` | src/c/rest-server.c:132-156 | Whatever patterns were tried before, a wildcard reads the URL's own segment if and only if that segment is not the wildcard's text |
| `UrlRouting.LiteralWildcardMisread` | src/c/rest-server.c:132-156 | A family of URLs spelling a wildcard for which the handler reads another pattern's leftover |
| `UrlRouting.Server.RegisterHandler` | src/c/rest-server.c:547-572 | Handlers are appended, so earlier ones keep precedence |
| `UrlRouting.Server.Dispatch` | src/c/rest-server.c:373-426 | The first registered pattern that matches decides, even if it does not serve the method; not found exactly when none matches |
| `UrlRouting.Server.ListHandlers` | src/c/rest-server.c:347-366 | The size computed first is exactly that of the text listing the handlers |
| `UrlRouting.ListingReads` | src/c/rest-server.c:347-366 | The lines of the listing, split at slashes, are the handlers' segments, in order |
| `UrlRouting.Server.HandleRequest` | src/c/rest-server.c:317-427 | Pre-flight, the listing at the root, dispatch, and the refusal of cross-origin requests before a handler is called |
| `UrlRouting.HandlerSeesItsSegments` | src/c/rest-server.c:373-408 | The handler called is the first match's; each of its wildcards reads the URL's segment if and only if that is not the wildcard's text, and otherwise what earlier patterns left: nothing, for the first handler |
| `UrlRouting.LaterHandlersDoNotCapture` | src/c/rest-server.c:547-572 | Registering more handlers never changes where a request that matched goes |
| `ConfigKeys.RecoverUndoesRename` | src/c/config.c:136-149 | Renaming a driver key and recovering it is the identity |
| `ConfigKeys.RenamedKeys` | src/c/config.c:136-149 | A driver key is filed under Driver, or under Writable/Driver if it is writable |
| `ConfigKeys.RecoverCollidesIff` | src/c/config.c:551-561 | Two keys recover to one name exactly as Driver/Writable/x and Writable/Driver/x |
| `ConfigKeys.AddDriverDefaults` | src/c/config.c:130-151 | The loop files every driver key among the SDK's, in any iteration order |
| `ConfigKeys.TakeDriverConfig` | src/c/config.c:545-563 | The loop recovers every driver key and no other, in any iteration order |
| `ConfigKeys.DriverConfigRoundTrip` | src/c/config.c:130-151 | Any driver configuration filed among SDK keys is recovered exactly |
| `ConfigKeys.DriverConfigRoundTripIff` | src/c/config.c:545-563 | Whatever the order of iteration, the driver configuration is recovered exactly if and only if no SDK key is mistaken for one of the driver's |
| `InsecureSecrets.AddInsecureSecrets` | src/c/config.c:285-338 | The nested loops add each named entry's keys and nothing else, in any iteration order |
| `InsecureSecrets.SecretKeys` | src/c/config.c:285-338 | The keys under which an entry's name and its data are filed |
| `InsecureSecrets.Group` | src/c/secrets-insecure.c:48-57 | The inner loop collects exactly the keys under a prefix |
| `InsecureSecrets.ParseInsecureSecrets` | src/c/secrets-insecure.c:26-64 | Every name key gives one secret with the data under its prefix |
| `InsecureSecrets.GroupedIsData` | src/c/secrets-insecure.c:44-57 | Below an entry's data prefix the flat configuration holds exactly that entry's data |
| `InsecureSecrets.DataKeyForm` | src/c/secrets-insecure.c:39-43 | A data key is taken for a name key exactly when its last segment is SecretName |
| `InsecureSecrets.RegroupedExactly` | src/c/secrets-insecure.c:26-64 | For single-segment entry keys, the results of regrouping are exactly those that give each name from some source the data of one such source: an entry, or a data key ending in a segment SecretName |
| `InsecureSecrets.SecretNamesExactly` | src/c/secrets-insecure.c:26-64 | The names that come out are those of the named entries and the values of data keys that end in a segment SecretName |
| `InsecureSecrets.SecretsRoundTripIff` | src/c/secrets-insecure.c:26-64 | Whatever the order of iteration, every secret name has its own data again and there are no other names, if and only if the sources are unambiguous |
| `InsecureSecrets.SecretsRoundTrip` | src/c/secrets-insecure.c:26-64 | Distinct secret names and no data key ending in a segment SecretName are enough |
| `ReducedEvent.BuildReading` | src/c/data.c:134-179 | Exactly which fields a full or reduced reading carries, each with the full reading's value |
| `ReducedEvent.ProcessEvent` | src/c/data.c:79-212 | No event exactly when an assertion on a value's text fails; otherwise the merged tags and every reading in order, full or reduced |
| `ReducedEvent.EventSays` | src/c/data.c:79-212 | The event names device, profile, source, time and id and the path of the first three, merges the call's, the command's and the device's tags in that order, and is CBOR exactly when a binary resource is read |
| `ReducedEvent.ReadingSays` | src/c/data.c:134-179 | A reading has its value under the key for its kind and no other, its type and its tags; wherever it names device, profile, resource or time it is the right one, and a full reading names them all |
| `ReducedEvent.ReducedLosesNothing` | src/c/data.c:120-196 | A reduced event filled in from itself is the full event without reading ids |
| `ReducedEvent.ReducedIsLeast` | src/c/data.c:134-179 | A reduced reading repeats nothing: whatever is taken out of it is missed when it is filled in, but for the resource name among several readings |
| `ReducedEvent.ReducedDetermines` | src/c/data.c:120-196 | Equal reduced events come from full events that say the same |
| `OpState.Device.RequestFailed` | src/c/opstate.c:112-126 | Down is requested exactly by the failure that completes a streak of the allowed length |
| `OpState.Device.RequestSucceeded` | src/c/opstate.c:128-139 | A success resets the allowance and requests Up exactly when the device is down |
| `OpState.Device.Run` | src/c/opstate.c:112-139 | Over every run of failures, successes and updates, each is answered with exactly what the history calls for, and the counter is the allowance less the streak |
| `OpState.DownIff` | src/c/opstate.c:112-126 | Down is asked for exactly by a failure that is the last of as many as are allowed since the latest success |
| `OpState.UpIff` | src/c/opstate.c:128-139 | Up is asked for exactly by a success while the latest update, or without any the initial state, says down, unless the check is off |
| `OpState.NoSecondDown` | src/c/opstate.c:112-126 | Between two requests for Down there is a success |

## Left out

- Floating point: a JSON number that is not an unsigned integer is carried as its text, so its value, its printing, range errors of `strtod` and comparison within an epsilon are not modelled; nor are float scale and offset, and `powl`/`logl` are parameters of the transforms.
- JsonParser.ParseNumberValue: `strtod` and `strtoull` are C library functions, modelled by what they take and return in the C locale.
- Comment stripping, `json_validate`, deep copy and the array-editing functions of parson.c: they walk or copy values and take no part in parsing, serializing or the object API modelled here.
- Totals beyond the C type `int` in the serializer, bucket counts beyond 2^31 and allocation failure other than the `realloc` in map.c.
- JsonPath.DotSetIsSetPath: nested objects are updated as values; the pointers through which the source mutates them, and aliasing between them, are not captured.
- KeeperConfig.BuildTree: the values are taken as already converted to JSON or as failing to convert, and the text logged or sent for each item is not part of this model.
- Devmap.DeviceMap.ReplaceDevice: starting and stopping autoevents, the driver's address objects, the creation time and the copying of strings are not modelled; strings and lists are values.
- Locks and atomics are modelled as steps: each critical section and each atomic operation is indivisible, and no memory model below that is considered.
- Bitfield.NoLostUpdate: the put loop is a step machine, one value of a request at a time; a resource without a mask stores the whole register and is outside the disjoint-mask setting.
- String mappings and `edgex_transform_validate`: table lookups and range comparisons.
- CommandIndex.Profile.InfoForCommand: `create_res` is taken to answer the same for the same attributes and never with both a parsed form and an exception; every resource operation is taken to name a resource of the profile, as the source relies on. For a resource addressed directly without a mask the source leaves the request's mask unset, which is modelled as absent.
- UrlRouting.Server.HandleRequest: the cross-origin verdicts are parameters, and request bodies, query parameters and reply headers are not part of this model.
- InsecureSecrets.SecretsRoundTripIff: entry keys with a slash and configurations that already hold keys under the secrets' prefix are outside it, values are strings, and overrides from files and the environment (`findEntry`, `checkOverride`) are not modelled.
- ReducedEvent.ProcessEvent: values are as the outgoing transform left them, base64 and the merging of tag maps are the libraries' own, and ids and the clock are parameters.
- OpState.Device.Run: the counter is unbounded, an allowance is below 2^31, and a request that ends on a device object already replaced is not modelled; nor is the timer that probes a device that is down.
- HTTP, MQTT, Vault, registry and metadata clients, the scheduler and thread pool, `iot_data_t`, CBOR, base64 and UUIDs: I/O and foreign libraries.
- Device watchers, discovery, correlation ids, logging and command-line handling: thin wrappers or regular expressions of a foreign library.
