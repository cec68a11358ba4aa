# s3db schema storage, verified

A Dafny model of the parts of s3db that decide what a stored record means, years and many
schema revisions later. It covers:

- **Attribute indices.** Each attribute is stored under a short key printed from a permanent
  index. `Registry` is one schema revision, `RegistryRuns` proves what any run of revisions
  keeps and `RegistryMerge` what histories keep in which concurrent writers are merged.
  `SchemaMap` covers a persisted map merged with a registry, `ResourceSchema` the eager and the
  lazy way of building a schema, `ExplicitMap` what an explicit map does to either.
  `PluginKeys` has the hashed keys of one plugin's attributes, `PluginRuns` what its runs keep,
  and `PluginSchema` all plugins at once.
- **Stored values.** `Numerals` is the positional numeral system everything is printed in.
  `ArrayCodec`, `FixedWidth`, `PackedFields`, `Duration` and `Barcode` are the encodings of
  single fields with the validators that run before them. `Fields` puts the fourteen field
  kinds side by side, `Document` proves the round trip of whole records and `NestedDocument`
  that of records with objects inside. `Revisions` joins both halves: a record written under one
  revision and read under a later one.
- **Companions.** `SingleFlight` is the client initialisation protocol for any number of
  concurrent callers. `ConfigTree` and `ConfigObject` are dotted-key configuration, as trees
  and as objects updated in place.

The theorems are stated as exact conditions wherever the code does not do what one would
expect of it on every input. What they show along the way:

- a duration whose base-62 text starts with `P` is read back as that text
  (`Duration.DurationRoundTrip`);
- a barcode can be stored as a text that looks like a barcode, and is then not decoded
  (`Barcode.EanRoundTrip`, `Barcode.EanCollision`);
- the list `[""]` is stored like the empty list (`ArrayCodec.StringArrayRoundTrip`);
- versions with a minor or patch above 999 and telephone digits starting with 0 change
  (`PackedFields.SemverRoundTrip`, `PackedFields.PhoneRoundTrip`);
- the empty document comes back with one key (`Document.EmptyDocument`);
- building a resource eagerly moves a registered timestamp that is not declared, building it
  lazily does not (`ResourceSchema.EagerMovesTimestamp`);
- a plugin without attributes in one revision forgets its burned keys, unless a locked upload
  merges them back from the stored metadata; keys stay unique exactly when no two names hash
  alike (`PluginRuns.KeysPermanent`);
- a plugin can be given a key that is stored for a plugin handled after it, and the two
  attributes then share it (`PluginSchema.StoredKeyTaken`);
- the `changed` flag can miss a removal, for example after one writer's removal was merged with
  another writer's registry (`RegistryMerge.DropUnnoticedAfterMerge`);
- two writers that add attributes at the same time can give both the same index
  (`RegistryMerge.MergeHidesClash`);
- a lazy resource is compiled without its explicit map (`ExplicitMap.ExplicitMapKeys`,
  `ExplicitMap.MapIgnored`) and without attributes that replaced its own before the first use
  (`ResourceSchema.UpdateThenUse`);
- an object whose first member has a name of digits comes back as an array
  (`NestedDocument.UnflattenFlatten`);
- a factory that resolves to nothing lets its callers return without a client
  (`SingleFlight.EmptyCallReturns`).

Conventions. The order in which JavaScript lists the entries of an object is left open. In a
registry it only decides the order of burned records, so a step is a relation; in a record it
decides what is nested first, so the order of reading is a list of its own. Numbers are unbounded
integers; the code's integer arithmetic is exact below 2^53. Its duration parser sums and multiplies
seconds in floating point, which is exact up to 2^50 milliseconds (`Duration.FloatDesignated`).
Strings are sequences of characters. NaN is `None` in `Read`. Attribute names are ordinary strings,
not names inherited from `Object.prototype`. The hash of a plugin attribute is any function to `p`
and three base-36 characters. `JSON.parse` is a parameter that tells which texts are JSON.

`Fields.Validated` is what the validators return, and the mapper is proved on such values: a record
is validated before it is mapped. Round trips alone would hold of any format, so each stored format
is also pinned by what its characters mean (`Fields.DigitsStored`, `Fields.NumberStored`,
`Fields.OthersStored`, `Document.StoredRecord`, `PluginKeys.OwnHash`, `ResourceSchema.FirstBuild`).

Standards: UUID text follows section 4 of RFC 9562, networks section 3.1 of RFC 4632, version
triples and their precedence items 2 and 11 of Semantic Versioning 2.0.0, durations with
designators section 4.4.3.2 of ISO 8601:2004.

`dafny verify dfyconfig.toml` checks the whole project.

## Model

| member | source | states |
|---|---|---|
| `Numerals.Encode` | src/concerns/base62.ts:7-19 | the printing loop writes the signed numeral of any integer, whose characters `PrintedDigits` gives; `encodeKey` (49-61) is the same loop in base 36 |
| `Numerals.Decode` | src/concerns/base62.ts:21-36 | the reading loop gives the number a text stands for, 0 for the empty text, NaN exactly when a character is outside the alphabet; `ReadDigits` says which number |
| `Numerals.AlphabetDigit` | src/concerns/base62.ts:1-5 | digit v is the character at place v of the 62 characters written out, and stands for v |
| `Numerals.AlphabetPlace` | src/concerns/base62.ts:1-5 | a character stands for its place in the alphabet, and every character outside it for no digit |
| `Numerals.PrintedDigits` | src/concerns/base62.ts:7-19 | the character with i characters after it is the digit of the number at b^i, a number below the radix is one character of the alphabet, a negative one has a minus sign in front |
| `Numerals.ReadDigits` | src/concerns/base62.ts:21-36 | NaN exactly when a character after the sign is no digit; otherwise the number of that sign below b^length that has these digits, leading zeros included |
| `Numerals.ReadPrint` | src/concerns/base62.ts:7-36 | decode undoes encode on every integer, negative ones included, in every radix up to 62 |
| `Numerals.PrintValue` | src/concerns/base62.ts:63-78 | printing what was read gives the text back exactly when it has no leading zero |
| `Numerals.PrintLength` | src/concerns/base62.ts:7-19 | a number takes at most k digits exactly when it is below b^k |
| `Numerals.LeadingDigit` | src/concerns/base62.ts:7-19 | the text starts with digit d exactly when the number lies in [d*b^k, (d+1)*b^k) for some k |
| `Numerals.RecodeRoundTrip` | src/schema.class.ts:1540-1541 | a w-digit text of radix b, stored as k padded base-62 digits and printed back padded, is the same text whenever b^w <= 62^k |
| `Registry.GenerateMappingFromRegistry` | src/schema.class.ts:222-281 | one revision: the three loops compute exactly one `Step` (repair, keep or allocate, burn or skip, delete), the two text maps and the changed flag |
| `Registry.MaxIndexPlusOne` | src/schema.class.ts:239-245 | the repaired counter lies above every mapped and burned index and no higher than needed |
| `Registry.AssignKeys` | src/schema.class.ts:247-262 | known keys keep their index, unknown ones take the next, and both text maps follow the list, the last writer winning |
| `Registry.BurnRemoved` | src/schema.class.ts:264-278 | exactly the attributes not listed leave the mapping, and one record is appended per index not burned before |
| `RegistryRuns.StepFacts` | src/schema.class.ts:239-278 | a step keeps the index of listed attributes, gives new ones an index at or above the repaired counter, and leaves a counter above every used index; for any registry |
| `RegistryRuns.NewInOrder` | src/schema.class.ts:247-262 | new attributes get their indices in the order of the list, from the repaired counter on |
| `RegistryRuns.StepUnambiguous` | src/schema.class.ts:222-281 | a step never gives an owned index a second owner |
| `RegistryRuns.IndicesNeverReused` | src/schema.class.ts:132-139 | over any run, at any two moments, no index is owned (mapped or burned) by two attributes, exactly when the first registry has no such index |
| `RegistryRuns.IndexKept` | src/schema.class.ts:217-221 | an attribute has the index it had at an earlier moment exactly when no revision between left it out; no hypothesis on the registry |
| `RegistryRuns.ReturnsFresh` | src/schema.class.ts:253-260 | an attribute that was away has, when it returns, an index above every index used until it was away |
| `RegistryRuns.ReadSafety` | src/schema.class.ts:1700-1705 | a key written by revision j and resolved by a later revision k gives the attribute exactly when it survived, and the bare key otherwise, so another attribute only if that one is named like the key |
| `RegistryRuns.Conservation` | src/schema.class.ts:227-280 | in every run from the empty registry mapped and burned indices partition 0..nextIndex-1 and their counts add up to nextIndex |
| `RegistryRuns.BurnedGrows` | src/schema.class.ts:268-275 | the burned list only grows by appending, in any run |
| `RegistryRuns.ChangedFlag` | src/schema.class.ts:237-280 | `changed` implies a change, and misses one exactly when every dropped attribute had an already burned index and nothing else happened |
| `RegistryRuns.ChangedFlagExact` | src/schema.class.ts:237-280 | with conserved indices `changed` is true exactly when the registry changed |
| `RegistryRuns.SilentDrop` | src/schema.class.ts:264-278 | an input on which the flag misses the removal: an index both mapped and burned |
| `RegistryMerge.MergeSchemaRegistry` | src/database/database-metadata.class.ts:185-220 | the loops compute exactly the merged registry: greater counter, union of the mappings with the greater index, burned records by index, the stored ones first |
| `RegistryMerge.MergeExact` | src/database/database-metadata.class.ts:185-220 | the merge without naming it: the counter is the greater of the two, every attribute of either side has the greater of its indices, and there is one record per index burned on a side, the last stored one if any, otherwise the first of the writer |
| `RegistryMerge.MergeOwners` | src/database/database-metadata.class.ts:185-220 | a merge invents no owner of an index |
| `RegistryMerge.HistoryIndexKept` | src/database/database-metadata.class.ts:195-203 | in any history an attribute has an index exactly when a chain of events leads there from where it was given: revisions that list the attribute, merges whose other side gives it no greater one |
| `RegistryMerge.HistoryNeverReuses` | src/database/database-metadata.class.ts:185-220 | over any history of revisions and merges, branching in any way, no index is ever owned by two attributes, exactly when none is at the start and no two concurrent revisions gave one new index to two |
| `RegistryMerge.HistoryReadSafety` | src/database/database-metadata.class.ts:185-220 | in such a history a written key is read as the attribute it was written for exactly when that attribute still has the index there, otherwise as the bare key, never as another attribute |
| `RegistryMerge.TwoWriters` | src/database/database-metadata.class.ts:185-220 | two writers from one registry and the merge of what they end with: never reused exactly when the start is unambiguous and no index at or above its counter has different owners in the two |
| `RegistryMerge.MergeHidesClash` | src/database/database-metadata.class.ts:195-203 | an input where two writers use one index for two attributes and the merged registry is unambiguous all the same |
| `RegistryMerge.DropUnnoticedAfterMerge` | src/database/database-metadata.class.ts:195-213 | a drop by one writer, merged with another, yields the registry of `SilentDrop` |
| `RegistryRuns.GenerateBase36Mapping` | src/schema.class.ts:175-184 | the loop builds the positional map and its reverse |
| `RegistryRuns.PositionalReads` | src/schema.class.ts:175-184 | a positional key written for place i of one list is read as whatever stands at place i of another |
| `RegistryRuns.PositionalShift` | src/schema.class.ts:175-184 | dropping one attribute makes every later one be read as its successor: positional maps lack read safety |
| `SchemaMap.ValidateMapEncoding` | src/schema.class.ts:1028-1052 | accepts exactly the injective maps whose values match the key pattern, and reports a duplicate exactly when two attributes share a well-formed key |
| `SchemaMap.BuildRegistryFromMap` | src/schema.class.ts:1054-1078 | registry entries win, map entries fill in decoded, and the counter is the least number above the map, the burned records and the old counter |
| `SchemaMap.CounterExact` | src/schema.class.ts:1066-1077 | the counter lies above every index of the map and every burned one, and is the old counter or one more than such an index |
| `SchemaMap.MergeMap` | src/schema.class.ts:943-962 | the constructor path from a persisted map and a registry: exactly the merged maps, the stepped registry and the changed flag of that step |
| `SchemaMap.MergeExtends` | src/schema.class.ts:943-962 | merging moves no entry, covers every user key, takes registered keys from the registry and gives the rest indices above every mapped and burned one |
| `SchemaMap.MergeInverse` | src/schema.class.ts:946-959 | the merged map is injective with reversedMap its exact inverse precisely when the registry agrees with the map |
| `SchemaMap.MergeThenRegistryAlone` | src/schema.class.ts:943-972 | the next construction, from the registry alone, keeps a merged key exactly when the map entry is canonical and uncontradicted |
| `SchemaMap.GenerateInitialRegistry` | src/schema.class.ts:1085-1101 | freezes a map into a registry with its decoded indices and a counter just above them |
| `SchemaMap.FreezeUnambiguous` | src/schema.class.ts:1080-1101 | a frozen registry can start a safe run exactly when no two keys denote the same number |
| `SchemaMap.FreezeKeepsKeys` | src/schema.class.ts:1080-1101 | the revision after the freeze writes the keys of the map exactly when they have no leading zero, and reports no change for the same attributes |
| `ResourceSchema.Resource.constructor` | src/resource.class.ts:442-501 | eager: two schema builds around the timestamps, the explicit map in the second only; lazy: none, with the pending configuration sharing the attributes object; user and plugin registries alike |
| `ResourceSchema.Resource.Create` | src/resource.class.ts:442-501 | construction throws exactly when eager with an explicit map that fails validation, after the timestamps were added |
| `ResourceSchema.Resource.SetSchema` | src/resource.class.ts:592-601 | the schema is set; the registry and the plugin registries are replaced only by ones the schema has |
| `ResourceSchema.Resource.ApplyConfiguration` | src/resource.class.ts:687-748 | adds the missing timestamps in place, createdAt before updatedAt and neither when declared as user or plugin attribute, and, when eager, builds the schema again from the current registries and the explicit map |
| `ResourceSchema.Resource.EnsureSchemaCompiled` | src/resource.class.ts:603-634 | builds once, from the attributes the pending configuration refers to at that time and the current registries, without the explicit map |
| `ResourceSchema.Resource.UpdateAttributes` | src/resource.class.ts:758-763 | replaces the attributes object; a pending configuration keeps referring to the old one |
| `ResourceSchema.TimestampOrder` | src/resource.class.ts:691-699 | what is added in each of the four cases of which timestamps are declared |
| `ResourceSchema.FirstBuild` | src/resource.class.ts:442-748 | built for the first time, with no registry or an empty one, eagerly or lazily: the n declared attributes are stored under the numerals of 0 to n - 1, createdAt under that of n and updatedAt under that of n + 1 |
| `ResourceSchema.CompiledInverse` | src/schema.class.ts:937-975 | the two user maps of a schema are inverse exactly when: by position, no name is listed twice; from a registry, no two listed attributes share an index in it; from a valid map alone, always; from both, the registry agrees with the map |
| `ResourceSchema.TwoStepsOrOne` | src/schema.class.ts:222-281 | two steps with attributes added between equal one step with all of them exactly when none of the added ones was registered |
| `ResourceSchema.EagerEqualsLazy` | src/resource.class.ts:687-748 | eager and lazy construction give the same mapping, counter and burned indices exactly when every registered timestamp is also declared, as user or plugin attribute; for any registry |
| `ResourceSchema.EagerMovesTimestamp` | src/resource.class.ts:687-748 | otherwise the eager schema burns the timestamp's index and uses a new one while the lazy schema keeps it |
| `ExplicitMap.BuildBoth` | src/resource.class.ts:442-748 | two resource objects, one eager and one lazy then compiled, with or without an explicit map and a registry: the conditions of the theorems on construction decide where their keys agree |
| `ExplicitMap.ExplicitMapKeys` | src/schema.class.ts:937-962 | with an explicit map and a registry the eager and the lazy schema give an attribute one key exactly when its map entry is its index in canonical form; without an entry always for a declared attribute, and for an added timestamp when the counters agree: a test on the inputs |
| `ExplicitMap.ExplicitMapAlone` | src/schema.class.ts:937-975 | without a registry they agree exactly when the map is the positional one |
| `ExplicitMap.MapIgnored` | src/resource.class.ts:603-634 | an input on which they differ |
| `ResourceSchema.UpdateThenUse` | src/resource.class.ts:758-763 | a lazy resource whose attributes are replaced before its first use compiles the old ones; its schema covers its attributes exactly when the replacement added none |
| `PluginKeys.Probe` | src/schema.class.ts:200-207 | probing returns the first free candidate after at most (number used) + 1 of them, for any hash |
| `PluginKeys.GeneratePluginMapping` | src/schema.class.ts:195-215 | the loop builds the probed map and its reverse, whose keys `OwnHash` gives |
| `PluginKeys.OwnHash` | src/schema.class.ts:195-215 | the key of an attribute is the hash of its plugin and name, or that with the least suffix, such that no attribute listed earlier has it; so the bare hash exactly when none has that |
| `PluginKeys.CandidateText` | src/schema.class.ts:200-207 | the texts probed are the hash, then the hash followed by 1, 2, 3 ... in decimal |
| `PluginKeys.FirstPluginStep` | src/schema.class.ts:195-215 | for the attributes of one plugin these are the keys of the first step of its registry |
| `PluginKeys.AssignedOwnHash` | src/schema.class.ts:333-350 | with a registry too: an attribute without a stored key gets a candidate of its own hash, each candidate before it being in use from the start or the key of an attribute listed earlier |
| `PluginKeys.PluginChangeExact` | src/schema.class.ts:333-371 | a plugin reports no change exactly when every listed attribute keeps a key it had and nothing was burned |
| `PluginKeys.PluginMapInverse` | src/schema.class.ts:195-215 | whatever the hash collides on, keys are distinct and the reverse map is the exact inverse |
| `PluginKeys.PluginMapStable` | src/schema.class.ts:195-215 | appending attributes moves no earlier key |
| `PluginSchema.GeneratePluginMappingFromRegistry` | src/schema.class.ts:287-374 | throws exactly when a plugin with attributes has a stored entry that is no text; else attributes are grouped by plugin, every plugin with attributes gets exactly one step of its stored registry, seeing the keys used before its turn, no other plugin keeps one, the flat maps list every attribute's key, and `changed` tells whether a key was assigned or burned |
| `PluginSchema.GroupedNames` | src/schema.class.ts:297-301 | grouping puts each attribute in the group of its plugin and in no other |
| `PluginRuns.PluginKeysNeverReused` | src/schema.class.ts:303-371 | over any run in which the plugin keeps an attribute no stored key is held by two attributes, exactly when that is so at the start; for any hash and any keys of other plugins |
| `PluginRuns.KeysPermanent` | src/schema.class.ts:303-371 | with revisions that leave the plugin no attribute allowed, no run over given names ever has a key held by two attributes, exactly when no two of the names have the same hash |
| `PluginRuns.PluginKeyKept` | src/schema.class.ts:333-367 | over a run in which the plugin keeps an attribute, an attribute has its key of an earlier moment exactly when no revision between left it out |
| `PluginRuns.PluginReadSafety` | src/schema.class.ts:333-367 | a key stored for a later belongs to some attribute exactly when a survived, and then to a |
| `PluginRuns.RunWellKept` | src/schema.class.ts:303-371 | every registry a run reaches from an empty or well-kept one has one holder per key and only plugin keys |
| `PluginRuns.ForgottenKeyReused` | src/schema.class.ts:305-371 | the shortest such run: after a revision without attributes the next attribute gets a retired key exactly when the hashes collide |
| `PluginSchema.PluginMapsInverse` | src/schema.class.ts:305-350 | over all plugins, keys are distinct and the flat reverse map is the exact inverse precisely when no stored key of a plugin was taken by a plugin handled before it |
| `PluginSchema.OutOfReachInverse` | src/schema.class.ts:305-350 | so always when no stored key is the stored key, or for an attribute without one any candidate, of an attribute of an earlier plugin: a condition on the stored registries and hashes alone |
| `PluginSchema.BareKeysInverse` | src/schema.class.ts:305-350 | for stored keys without suffix an exact condition of that kind: the inverse fails if and only if a stored key is also stored for an attribute of an earlier plugin, or is the hash of a keyless one and not stored up to there |
| `PluginSchema.FirstBuildInverse` | src/schema.class.ts:305-350 | so always when nothing is stored yet, whatever the hash collides on |
| `PluginSchema.StoredKeyTaken` | src/schema.class.ts:310-350 | and not always afterwards: a new plugin handled first takes the stored key of the second exactly when its attribute hashes to it |
| `PluginKeys.KeySpacesDisjoint` | src/schema.class.ts:186-193 | attribute keys and plugin keys are disjoint below an index limit exactly when the limit is at most 25 * 36^3 |
| `ArrayCodec.SplitEscaped` | src/schema.class.ts:444-462 | the index loop yields exactly the items of the escape-aware reading |
| `ArrayCodec.ToArray` | src/schema.class.ts:434-463 | the empty text is the empty list, any other is split |
| `ArrayCodec.StringArrayRoundTrip` | src/schema.class.ts:416-463 | every list of strings comes back exactly unless it is [""], which comes back empty |
| `ArrayCodec.StoredTextRoundTrip` | src/schema.class.ts:416-463 | a text without backslashes is what the list it is read as is stored as |
| `ArrayCodec.StringArrayInjective` | src/schema.class.ts:416-432 | two lists with the same stored text are equal, but for [] and [""] |
| `ArrayCodec.StoredItems` | src/schema.class.ts:416-432 | the stored text item after item: separators between the items, a backslash before each backslash and each separator inside |
| `ArrayCodec.LooseBackslash` | src/schema.class.ts:446-458 | in text the code did not write a backslash before any other character is dropped and one at the end kept |
| `ArrayCodec.ToArrayOfNumbers` | src/schema.class.ts:552-588 | reads the items of the text, NaN for an empty or unreadable one |
| `ArrayCodec.ReadItems` | src/schema.class.ts:580-588 | item by item: NaN for an empty item, otherwise what the reading loop gives |
| `ArrayCodec.StoredNumbers` | src/schema.class.ts:535-550 | the stored text of a list of integers: their numerals with separators between |
| `ArrayCodec.NumberArrayRoundTrip` | src/schema.class.ts:535-588 | every list of integers comes back |
| `FixedWidth.UuidRoundTrip` | src/schema.class.ts:1535-1549 | a UUID takes 24 characters and comes back in canonical form; any text comes back unchanged exactly when canonical, or without 32 characters besides dashes and not mistaken for a stored UUID |
| `FixedWidth.UuidStored` | src/schema.class.ts:1535-1549 | stored are four times six base-62 digits, each six the number of the next eight hexadecimal digits |
| `FixedWidth.DashedPlaces` | src/schema.class.ts:1711-1719 | the form read back: the 32 digits in order with dashes at places 8, 13, 18 and 23 |
| `FixedWidth.MacRoundTrip` | src/schema.class.ts:1587-1597 | a validated MAC address takes 9 characters and comes back; the validator is idempotent |
| `FixedWidth.MacMeaning` | src/validator.class.ts:325-338 | a text is taken exactly when it has twelve hexadecimal digits besides separators; what is left are those digits in lower case, in pairs with colons, and their number is stored |
| `FixedWidth.CidrRoundTrip` | src/schema.class.ts:1747-1756 | a validated IPv4 network takes 7 characters and comes back; the validator is idempotent |
| `FixedWidth.ParseFormatCidr` | src/validator.class.ts:340-357 | the canonical text of a network in range is parsed to that network |
| `FixedWidth.CidrMeaning` | src/validator.class.ts:340-357 | of five decimal numbers written as a network the validator leaves the same numbers without leading zeros, exactly up to 255 and 32 |
| `FixedWidth.CidrOnly` | src/validator.class.ts:345-347 | no other text is read as a network |
| `FixedWidth.CidrStored` | src/schema.class.ts:1598-1606 | stored is the address, the first octet the most significant, in six base-62 digits and one digit for the prefix |
| `FixedWidth.ColorRoundTrip` | src/validator.class.ts:392-409 | a validated colour, short forms expanded, takes 5 characters and comes back; the validator is idempotent |
| `FixedWidth.ColorMeaning` | src/validator.class.ts:392-409 | a text is taken exactly when it is three or six hexadecimal digits, perhaps after a number sign; what is left are those digits in lower case, each of three twice, and their number is stored |
| `PackedFields.SemverRoundTrip` | src/schema.class.ts:1607-1618 | a version comes back exactly when canonical with minor and patch at most 999; any other text exactly when empty or dotted |
| `PackedFields.SemverValidated` | src/validator.class.ts:359-373 | the validator is idempotent, and what it returns comes back exactly when minor and patch are at most 999 |
| `PackedFields.VersionText` | src/validator.class.ts:359-373 | three numbers with dots, perhaps after a "v": the validator leaves the same numbers without leading zeros, and stored is major * 10^6 + minor * 10^3 + patch |
| `PackedFields.VersionOnly` | src/schema.class.ts:1607-1618 | no other text is read as a version |
| `PackedFields.PackedOrder` | src/schema.class.ts:1757-1764 | up to 999, integer order is precedence order and packing is injective |
| `PackedFields.PackedCarries` | src/schema.class.ts:1607-1618 | beyond that a patch of 1000 is packed like the next minor version |
| `PackedFields.PhoneRoundTrip` | src/schema.class.ts:1619-1625 | a text with a plus comes back exactly when an integer without leading zeros follows; text without a plus never does unless empty |
| `PackedFields.PhoneValidated` | src/validator.class.ts:375-390 | the validator is idempotent, and its 7 to 15 digits come back exactly when the first is not 0 |
| `PackedFields.PhoneMeaning` | src/validator.class.ts:375-390 | a text is taken exactly when 7 to 15 digits, perhaps after a plus sign, are left without spaces, dashes, dots and parentheses; it becomes a plus sign and those digits, and the number of the digits is stored |
| `PackedFields.TimeRoundTrip` | src/schema.class.ts:1730-1740 | a matched time text comes back exactly when written to the millisecond with minutes and seconds below 60; other text only if empty or the text of an unreadable time |
| `PackedFields.TimeValidated` | src/validator.class.ts:289-323 | the validator is idempotent, leaves a text with the same stored form as what was written, and what it returns comes back |
| `PackedFields.TimeStored` | src/schema.class.ts:1567-1586 | exactly the texts HH:MM, HH:MM:SS and with one to three decimal places are read as times, taken by the validator up to 23:59:59.999, and stored as the milliseconds they stand for |
| `Duration.ParseDesignated` | src/validator.class.ts:420-425 | the printed designator form of every number of milliseconds is parsed back to it, in exact decimal seconds |
| `Duration.ParseWritten` | src/validator.class.ts:420-425 | every text of designator fields, any of them missing, with any number of digits and decimal places, is parsed to the sum of its fields |
| `Duration.FractionRounded` | src/validator.class.ts:420-425 | decimal places count as the fraction of a second they stand for, rounded to the nearest millisecond, halves upwards |
| `Duration.WrittenExamples` | src/validator.class.ts:420-425 | "PT1.5S" is 1500 milliseconds, "P1DT2H3M" is 93780000 |
| `Duration.DesignatorForm` | src/schema.class.ts:1773-1794 | what is printed for d days, h < 24 hours, m < 60 minutes, s < 60 seconds and f < 1000 milliseconds: each field that is not zero with its letter, milliseconds as three decimal places, "PT0S" for nothing |
| `Duration.FloatExact` | src/validator.class.ts:421-424 | up to 2^50 milliseconds the code's sum and product in doubles round to that exact number |
| `Duration.FloatDesignated` | src/validator.class.ts:420-424 | so the printed fields of every duration up to 2^50 milliseconds are summed back to it in doubles |
| `Duration.DurationRoundTrip` | src/schema.class.ts:1773-1794 | a stored duration is read in designator form exactly outside every [51*62^k, 52*62^k); inside, the stored text itself comes back |
| `Duration.FirstPBand` | src/schema.class.ts:1773-1774 | the least number that is not decoded: 51 milliseconds are stored and read as "P" |
| `Duration.DurationStable` | src/schema.class.ts:1637-1639 | outside those intervals store, read and validate give the number back |
| `Barcode.EanRoundTrip` | src/schema.class.ts:1795-1803 | a barcode comes back, leading zeros included, exactly unless it has 12 to 14 digits and its stored text is itself 8 to 14 decimal digits |
| `Barcode.EanStored` | src/schema.class.ts:1660-1667 | the validator takes exactly 8, 12, 13 or 14 decimal digits; stored is 0, 2, 1 or 3 for the length and then the number in base 62 |
| `Barcode.EanNumberValidated` | src/validator.class.ts:495-509 | a number of at most 14 digits, and no other, becomes a valid barcode text of the same value, of 13 digits unless it has 14 |
| `Barcode.EanCollision` | src/schema.class.ts:1660-1667 | a whole family of 13-digit barcodes is lost: those whose number is seven decimal digits in base 62 |
| `Fields.FieldRoundTrip` | src/schema.class.ts:1535-1682 | what validation left in a field of any of fourteen kinds comes back in canonical form exactly when it lies in the stated domain |
| `Fields.DigitsStored` | src/schema.class.ts:1535-1636 | what the mapper stores for a UUID, MAC address, network or colour: the numbers of their digits in base 62 at fixed width |
| `Fields.NumberStored` | src/schema.class.ts:1550-1669 | what it stores for a time, version, telephone number, duration, barcode or integer: the canonical numeral of its number, a barcode with its length in front |
| `Fields.OthersStored` | src/schema.class.ts:1668-1684 | through the automatic hooks (488-489 for booleans): truth values as "1" and "0", a missing one as "0" so that it comes back false, any other missing value as it is; lists as their stored texts, plain values as they are but "[object Object]" |
| `Fields.AnyTextRead` | src/schema.class.ts:1804-1820 | what becomes of any stored text in a plain, boolean or integer field: JSON that parses, four words for true, an integer, or as it is |
| `Fields.StringsRoundTrip` | src/schema.class.ts:1812-1819 | through the generic text branches and the array hook a list comes back exactly when it is not [""] and its text is no JSON, "[object Object]" excepted |
| `Document.Mapper` | src/schema.class.ts:1526-1686 | the loop writes exactly the stored record, the empty document as one empty object; the version key holds the schema version unless a key of the document is mapped to it |
| `Document.StoredRecord` | src/schema.class.ts:1526-1686 | with good keys the record has exactly: the version under `_v`, and for each name its encoded value under its plugin key, else its attribute key, else the name itself |
| `Document.Unmapper` | src/schema.class.ts:1688-1864 | the loops write exactly the read entries, dotted keys are nested in whatever order the entries are taken, a write below a scalar throws, and dollar keys are copied raw at the end |
| `Document.DocumentRoundTrip` | src/schema.class.ts:1526-1864 | a validated document comes back flat, with the same keys and canonical values, exactly when it is not empty, nesting throws nothing, every undeclared key is no stored key and not `_v`, every value is in its domain, and a dotted key is a raw dollar key under another key of the document |
| `Document.ReadBack` | src/schema.class.ts:1526-1864 | the same condition for whatever the reader returns, in whatever order it takes the entries |
| `Document.HarmlessDots` | src/schema.class.ts:1855-1860 | an input with a dotted dollar key that is nested without a throw |
| `Document.FlatResult` | src/concerns/flatten.ts:67-98 | nesting changes nothing as long as no key read has a dot |
| `Document.WriteBelow` | src/concerns/flatten.ts:81-93 | a key nested below a value: a falsy value gives way to an object, or to an array for a name of digits, an array or JSON is written into, any other value makes the write throw |
| `Document.UndottedRoundTrip` | src/schema.class.ts:1526-1864 | without dots that is: not empty, good keys, values in their domains |
| `Document.EmptyDocument` | src/concerns/flatten.ts:43-46 | the empty document returns with one empty object under the empty key |
| `NestedDocument.UnflattenFlatten` | src/concerns/flatten.ts:15-98 | nesting the flat form of a document of objects within objects never throws, and gives the document back exactly when under no object a name of digits is listed first |
| `NestedDocument.ArrayUnderA` | src/concerns/flatten.ts:82-88 | the least document that is not: {a: {"0": 1}} comes back with an array |
| `NestedDocument.NestedRoundTrip` | src/schema.class.ts:1526-1864 | a nested document with good keys, stored and read, comes back nested with canonical values exactly when every value is in its domain and no object becomes an array in the order read |
| `Document.BuiltSchema` | src/schema.class.ts:943-995 | a schema built from an unambiguous registry and any plugin hash meets the hypothesis of the document theorem while nextIndex <= 25 * 36^3 |
| `Document.BuiltSchemaStored` | src/schema.class.ts:977-982 | built from stored plugin registries it meets that hypothesis exactly when no stored plugin key was taken by an earlier plugin; with the tests on stored registries and hashes for that |
| `Document.BuiltSchemaMerged` | src/schema.class.ts:937-962 | built from a persisted map merged with a registry it meets that hypothesis exactly when the registry agrees with the map |
| `Revisions.AnyTwoRevisions` | src/schema.class.ts:943-995 | any two revisions of a run from an unambiguous registry, with whatever plugin attributes and stored plugin registries (none of whose keys was taken), qualify while the run allocates at most 25 * 36^3 indices |
| `Revisions.RecordAcross` | src/schema.class.ts:1688-1705 | a record written under one schema and read under a linked one has user attribute b exactly when it had b and b still has its key, holding what was stored for b; nothing stored for another attribute is read as b |
| `Revisions.RecordAcrossRevisions` | src/schema.class.ts:1688-1705 | a record written under revision j and read under a later k has user attribute b exactly when it had b and b survived, holding what was stored for b; nothing stored for another attribute, plugin attributes changed in between included, is read as b |
| `Revisions.HistoryLinked` | src/database/database-metadata.class.ts:185-220 | the record theorems hold between any two revisions of a history with merges in which no index was reused: read back are the attributes with the same index |
| `Revisions.ValueAcross` | src/schema.class.ts:1688-1854 | an attribute of unchanged kind that still has its key comes back in canonical form exactly when its value is in its domain |
| `Revisions.ResultAcross` | src/schema.class.ts:1855-1861 | as long as no attribute name has a dot the flat record of these theorems is the reader's result |
| `SingleFlight.Database.EnsureClientInitialized` | src/database.class.ts:407-428 | the stretch to the first await: the caller returns exactly when there is a client, throws exactly when there is none and the slot is free and there is no factory, waits for the call in a taken slot, and otherwise owns a new call |
| `SingleFlight.Database.FactorySettled` | src/database.class.ts:421-425 | the factory call settles; what it resolves to, perhaps no client, becomes the client |
| `SingleFlight.Database.AfterAwait` | src/database.class.ts:412-431 | the stretch after the await: the outcome of the joined flight, the owner clearing the slot |
| `SingleFlight.AtMostOneInFlight` | src/database.class.ts:407-432 | in every interleaving at most one factory call is in flight, and no call before the last gave a client |
| `SingleFlight.NoneAfterSuccess` | src/database.class.ts:407-410 | once the client is set it stays set and no factory call starts again |
| `SingleFlight.ReturnedFindsClient` | src/database.class.ts:407-432 | a caller that returned normally finds the client set from then on, unless a factory call resolved without one |
| `SingleFlight.EmptyCallReturns` | src/database.class.ts:421-425 | that exception occurs |
| `SingleFlight.JoinsLatestCall` | src/database.class.ts:407-424 | a caller not answered at once joins the latest factory call, the one in the slot, as its owner exactly when it started it |
| `SingleFlight.SharedOutcome` | src/database.class.ts:412-431 | from joining a call to any later moment a caller still waits for that call, or returned and it resolved, or threw and it failed; a settled call stays settled |
| `SingleFlight.WhyFinished` | src/database.class.ts:407-432 | over runs: a caller threw because it came with no client, a free slot and no factory, or because the call it joined failed; it returned because it found a client or because the call it joined resolved |
| `SingleFlight.FailureAllowsRetry` | src/database.class.ts:427-431 | after the owner of a failed call leaves, the slot is free and the next caller makes a new call |
| `SingleFlight.NeverStuck` | src/database.class.ts:407-432 | in every reachable state some step other than a new call is enabled exactly while a call is in flight or a caller unfinished |
| `SingleFlight.EveryScheduleFinishes` | src/database.class.ts:407-432 | from any reachable state, with no new callers, every schedule that goes on as long as it can takes exactly (calls in flight + unfinished callers) steps, and then every caller has finished |
| `ConfigTree.SetPathLaw` | mcp/config.ts:80-91 | a write at p decides everything below p, removes leaves above p and leaves the rest, for every path |
| `ConfigTree.WriteAllLeaves` | src/connection-string.class.ts:58-80 | there is a leaf v at q exactly when some write put it there and no later write touched q, above it or below it |
| `ConfigTree.PrefixFreeWrites` | src/connection-string.class.ts:58-80 | with no key a proper prefix of another, every path holds its last written value and no other leaves exist |
| `ConfigTree.ParameterKept` | src/connection-string.class.ts:58-80 | the last parameter with its key is kept exactly when no later key lies above or below it |
| `ConfigTree.CoerceInteger` | src/connection-string.class.ts:82-93 | every integer written in decimal is coerced to itself |
| `ConfigTree.CoerceExact` | src/connection-string.class.ts:82-93 | any text: "true" and "false" and nothing else become truth values, digits with or without a minus sign their number, with a fraction the decimal, everything else stays text |
| `ConfigObject.Obj.SetNested` | mcp/config.ts:80-91 | the in-place write of a value or an empty object on nested objects changes the tree they stand for exactly as `SetPath` does, keeping them a tree |
| `ConfigObject.ParseQueryParams` | src/connection-string.class.ts:58-80 | the loop leaves exactly the tree of all coerced parameters written in order |
| `ConfigTree.DeepMerge` | mcp/config.ts:127-140 | the recursive loop computes the merge without touching its arguments |
| `ConfigTree.MergeLaw` | mcp/config.ts:127-140 | the upper layer decides every path it says anything about, the lower one the others |
| `ConfigTree.LastLayerWins` | mcp/config.ts:152-163 | the layered configuration has leaf v at p exactly when some layer gives it and no layer above says anything about p |
| `ConfigTree.ResolveConfig` | mcp/config.ts:152-163 | defaults, file, environment and arguments are layered in that order |
| `ConfigTree.MergeAssociative` | mcp/config.ts:127-140 | merging three layers is associative exactly unless the middle one hides part of the lower one behind a scalar that the upper one makes an object again |

## Left out

- Calendar dates (`datetime`, `dateonly`, `Date` values and the `T` branch of `timeonly`), decimals, money, geography, embeddings, IPv6, bits and buffers: they rest on floating point or on the JavaScript runtime.
- Encryption, password hashing and SHA-256: the plugin hash is an arbitrary function.
- Free-form durations ("1h30m") and ISO text handed to the mapper directly: the validator has turned them into a number of milliseconds before the mapper runs.
- Duration.ParseDesignated, Duration.DurationStable: seconds are exact decimals here; above 2^50 milliseconds the code's floating-point sum is not modelled.
- The loops of `flatten` and nested attribute definitions: the flat form of a nested document is any list of its leaves under their flat keys, and arrays inside are leaves; empty objects and the `object` and `json` fields are left out.
- Document.DocumentRoundTrip, Document.ReadBack: no declared attribute may be named like the part before the first dot of an undeclared dollar key, whose place in the order would decide.
- NestedDocument.NestedRoundTrip: keys are assumed good and undeclared dollar keys without dots; names have no dot, and at the top an object is not named by the empty text.
- Document.Unflatten: what a write below an array or a parsed JSON value leaves is an arbitrary function.
- Document.BuiltSchema, Document.BuiltSchemaStored, Document.BuiltSchemaMerged: an attribute whose name is the empty text is excluded.
- Validation by fastest-validator, the validator cache and the choice of hooks by substrings of a definition: each field has its kind directly.
- A definition that is the empty string: a declared attribute always counts as declared.
- Fields.StringsRoundTrip: a JSON array parsed out of a stored list is a value of its own, never identified with a list of strings.
- Separators: string lists assume a separator other than the backslash and, as a regular expression, itself; number lists one that is no base-62 digit and no minus sign. The default vertical bar meets both.
- Indices that are not natural numbers: the types exclude them.
- ConfigObject.Obj.SetNested: the loop that walks down is written as recursion over the rest of the path.
- Loading the configuration file and the table of environment variables, and parsing connection-string URLs: I/O and constant text.
- ResourceSchema.EagerEqualsLazy: the order of the burned records is not compared. ExplicitMap.BuildBoth: the plugin maps of the two resources are not compared, and with a map that fails validation construction throws (ResourceSchema.Resource.Create).
- ResourceSchema.Resource.SetSchema, ResourceSchema.Resource.ApplyConfiguration, ResourceSchema.Resource.EnsureSchemaCompiled: disposal of the previous schema, the validator and the partition defaults are not part of the resource here.
- Merging of plugin registries and of the other metadata on upload, and the lock itself: only the merge of attribute registries is modelled.
- Fields.FieldRoundTrip: a UUID field holds hexadecimal digits, as validation guarantees; the codec alone is covered for any text by FixedWidth.UuidRoundTrip.
- Characters outside the basic plane, and the capital letter whose lower case is two characters long: a string is a sequence of characters here, of code units in the code.
- Time stamps and reasons of burned records: they carry no behaviour.
- The database client itself: a factory call is one event that succeeds or fails; resetting `client` elsewhere is not part of this model.
- S3, memory and file clients, partitions, behaviours, events, plugins, command line and servers.
